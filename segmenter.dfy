/**
 * Block segmentation over a gapped grid: `get_block_parameters`, `convert_img_to_blocks`
 * and the refinement loop `break_down_deformed_blocks`.
 */
module Segmenter {
  import opened TextBlocks
  import Gaps

  /**
   * Where the inner sweep of get_block_parameters stops on row `i`, starting at column `j`:
   * it moves right while a next column exists and the current or the next cell is not GAP.
   */
  function RowEnd(g: array2<int>, i: int, j: int): (e: int)
    reads g
    requires 0 <= i < g.Length0 && 0 <= j
    ensures j <= e
    ensures j < g.Length1 ==> e < g.Length1
    decreases g.Length1 - j
  {
    if j + 1 < g.Length1 && (g[i, j] != GAP || g[i, j + 1] != GAP) then RowEnd(g, i, j + 1) else j
  }

  /**
   * Where the outer sweep stops, starting at row `i` in column `x`: it moves down while a
   * next row exists and the current or the next cell of column `x` is not GAP.
   */
  function ColEnd(g: array2<int>, i: int, x: int): (e: int)
    reads g
    requires 0 <= i < g.Length0 && 0 <= x < g.Length1
    ensures i <= e < g.Length0
    decreases g.Length0 - i
  {
    if i + 1 < g.Length0 && (g[i, x] != GAP || g[i + 1, x] != GAP) then ColEnd(g, i + 1, x) else i
  }

  /** Foreground cells of row `i` in columns [lo, hi). */
  function DarkRun(g: array2<int>, i: int, lo: int, hi: int): (n: nat)
    reads g
    requires 0 <= i < g.Length0 && 0 <= lo <= hi <= g.Length1
    ensures n <= hi - lo
    decreases hi - lo
  {
    if lo == hi then 0 else DarkRun(g, i, lo, hi - 1) + (if Gaps.IsForeground(g[i, hi - 1]) then 1 else 0)
  }

  /** Foreground cells swept in rows [y, i), each row from column x to its RowEnd. */
  function SweptDark(g: array2<int>, y: int, x: int, i: int): (n: nat)
    reads g
    requires 0 <= y <= i <= g.Length0 && 0 <= x < g.Length1
    decreases i - y
  {
    if i == y then 0 else SweptDark(g, y, x, i - 1) + DarkRun(g, i - 1, x, RowEnd(g, i - 1, x))
  }

  /** The sweep from seed (y, x) does at least one row: the source's precondition for a bound `j`. */
  predicate CanSeed(g: array2<int>, y: int, x: int)
    reads g
  {
    0 <= y && y + 1 < g.Length0 && 0 <= x < g.Length1 && (g[y, x] != GAP || g[y + 1, x] != GAP)
  }

  /** Cell `c` is added to `processed` by the sweep seeded at (y, x). */
  predicate Swept(g: array2<int>, y: int, x: int, c: Cell)
    reads g
    requires CanSeed(g, y, x)
  {
    y <= c.0 < ColEnd(g, y, x) && x <= c.1 && c.1 < RowEnd(g, c.0, x)
  }

  /**
   * The block get_block_parameters returns for seed (y, x): rows from the seed to the row
   * before the outer sweep stopped, columns from the seed to the column before the last
   * row's sweep stopped, and the foreground count of every swept cell.
   */
  function BlockAt(g: array2<int>, y: int, x: int): TextBlock
    reads g
    requires CanSeed(g, y, x)
  {
    var i := ColEnd(g, y, x);
    var j := RowEnd(g, i - 1, x);
    TextBlock(y, i - 1, x, j - 1, i - y, j - x, BoxRatio(i - y, j - x), SweptDark(g, y, x, i))
  }

  /** Geometry of a block: it starts at its seed, its lengths match its bounds, it avoids the last row and column. */
  lemma BlockAtShape(g: array2<int>, y: int, x: int)
    requires CanSeed(g, y, x)
    ensures var b := BlockAt(g, y, x);
      && b.ymin == y && b.xmin == x
      && b.ylen == b.ymax - b.ymin + 1 && b.xlen == b.xmax - b.xmin + 1
      && y <= b.ymax < g.Length0 - 1
      && x - 1 <= b.xmax < g.Length1 - 1
      && (x + 1 == g.Length1 ==> b.xlen == 0)
      && WellFormed(b, g.Length0, g.Length1)
      && 0 <= b.blkPixCnt
  {
    var i := ColEnd(g, y, x);
    assert i > y;
    var j := RowEnd(g, i - 1, x);
  }

  /** Every swept cell lies strictly above the last row and strictly left of the last column. */
  lemma SweptInside(g: array2<int>, y: int, x: int, c: Cell)
    requires CanSeed(g, y, x) && Swept(g, y, x, c)
    ensures 0 <= c.0 < g.Length0 - 1 && 0 <= c.1 < g.Length1 - 1
  {
  }

  /** get_block_parameters: sweep one block from its seed, adding every swept cell to `processed`. */
  method GetBlockParameters(g: array2<int>, y: int, x: int, processed: set<Cell>)
    returns (b: TextBlock, processed': set<Cell>)
    requires CanSeed(g, y, x)
    ensures b == BlockAt(g, y, x)
    ensures forall c :: c in processed' <==> c in processed || Swept(g, y, x, c)
  {
    var cnt := 0;
    processed' := processed;
    var i := y;
    var j := x;  // bound by the first sweep, which CanSeed guarantees
    while i + 1 < g.Length0 && (g[i, x] != GAP || g[i + 1, x] != GAP)
      invariant y <= i < g.Length0
      invariant ColEnd(g, i, x) == ColEnd(g, y, x)
      invariant cnt == SweptDark(g, y, x, i)
      invariant i > y ==> j == RowEnd(g, i - 1, x)
      invariant forall c :: c in processed' <==> c in processed || (y <= c.0 < i && x <= c.1 < RowEnd(g, c.0, x))
      decreases g.Length0 - i
    {
      j := x;
      while j + 1 < g.Length1 && (g[i, j] != GAP || g[i, j + 1] != GAP)
        invariant x <= j < g.Length1
        invariant RowEnd(g, i, j) == RowEnd(g, i, x)
        invariant cnt == SweptDark(g, y, x, i) + DarkRun(g, i, x, j)
        invariant forall c :: c in processed' <==>
                    c in processed || (y <= c.0 < i && x <= c.1 < RowEnd(g, c.0, x)) || (c.0 == i && x <= c.1 < j)
        decreases g.Length1 - j
      {
        processed' := processed' + {(i, j)};
        if g[i, j] <= BLACK_COLOR && g[i, j] >= 0 {
          cnt := cnt + 1;
        }
        j := j + 1;
      }
      i := i + 1;
    }
    assert i > y;
    b := TextBlock(y, i - 1, x, j - 1, i - y, j - x, BoxRatio(i - y, j - x), cnt);
  }

  /** Every cell of the last row is GAP (or there is no row at all). */
  predicate LastRowGap(g: array2<int>)
    reads g
  {
    forall i, j :: i == g.Length0 - 1 && 0 <= i && 0 <= j < g.Length1 ==> g[i, j] == GAP
  }

  function Seed(b: TextBlock): Cell { (b.ymin, b.xmin) }

  /** Block `k` of the list starts at a non-GAP cell above the last row, and is the block swept from there. */
  ghost predicate SeededAt(g: array2<int>, blocks: seq<TextBlock>, k: int)
    reads g
    requires 0 <= k < |blocks|
  {
    var b := blocks[k];
    0 <= b.ymin < g.Length0 - 1 && 0 <= b.xmin < g.Length1 && g[b.ymin, b.xmin] != GAP &&
    b == BlockAt(g, b.ymin, b.xmin)
  }

  /** Cell `c` is swept by one of the first `k` blocks. */
  ghost predicate SweptBefore(g: array2<int>, blocks: seq<TextBlock>, k: int, c: Cell)
    reads g
    requires 0 <= k <= |blocks|
  {
    exists l :: 0 <= l < k && SeededAt(g, blocks, l) && Swept(g, blocks[l].ymin, blocks[l].xmin, c)
  }

  /** The seeds of the first `k` blocks come in raster order and none was swept by an earlier block. */
  ghost predicate SeedsOrdered(g: array2<int>, blocks: seq<TextBlock>)
    reads g
  {
    && (forall k :: 0 <= k < |blocks| ==> SeededAt(g, blocks, k))
    && (forall k, l :: 0 <= k < l < |blocks| ==> RasterBefore(Seed(blocks[k]), Seed(blocks[l])))
    && (forall k :: 0 <= k < |blocks| ==> !SweptBefore(g, blocks, k, Seed(blocks[k])))
  }

  /** Cell `c` is the seed of some block or is swept by some block. */
  ghost predicate Claimed(g: array2<int>, blocks: seq<TextBlock>, c: Cell)
    reads g
  {
    (exists k :: 0 <= k < |blocks| && Seed(blocks[k]) == c) || SweptBefore(g, blocks, |blocks|, c)
  }

  /**
   * What convert_img_to_blocks computes: in raster order, one block per non-GAP cell that no
   * earlier block swept, each being the block swept from that cell.
   */
  ghost predicate IsSegmentation(g: array2<int>, blocks: seq<TextBlock>)
    reads g
  {
    && SeedsOrdered(g, blocks)
    && (forall i, j :: 0 <= i < g.Length0 && 0 <= j < g.Length1 && g[i, j] != GAP ==> Claimed(g, blocks, (i, j)))
  }

  /** The state of the raster scan of convert_img_to_blocks on reaching cell (i, j). */
  ghost predicate ScanInv(g: array2<int>, blocks: seq<TextBlock>, processed: set<Cell>, i: int, j: int)
    reads g
  {
    && SeedsOrdered(g, blocks)
    && (forall k :: 0 <= k < |blocks| ==> RasterBefore(Seed(blocks[k]), (i, j)))
    && (forall c :: c in processed <==> SweptBefore(g, blocks, |blocks|, c))
    && (forall r, c :: 0 <= r < g.Length0 && 0 <= c < g.Length1 && RasterBefore((r, c), (i, j)) && g[r, c] != GAP ==>
          Claimed(g, blocks, (r, c)))
  }

  /** convert_img_to_blocks: raster-scan the gapped grid and sweep a block from every unclaimed non-GAP cell. */
  method ConvertImgToBlocks(g: array2<int>) returns (blocks: seq<TextBlock>)
    requires LastRowGap(g)
    ensures IsSegmentation(g, blocks)
  {
    var processed: set<Cell> := {};
    blocks := [];
    var i := 0;
    while i < g.Length0
      invariant 0 <= i <= g.Length0
      invariant ScanInv(g, blocks, processed, i, 0)
    {
      var j := 0;
      while j < g.Length1
        invariant 0 <= j <= g.Length1
        invariant ScanInv(g, blocks, processed, i, j)
      {
        if g[i, j] != GAP && (i, j) !in processed {
          assert i < g.Length0 - 1;
          var b;
          ghost var blocks0, processed0 := blocks, processed;
          b, processed := GetBlockParameters(g, i, j, processed);
          blocks := blocks + [b];
          ScanAdd(g, blocks0, processed0, b, processed, i, j);
        } else {
          ScanSkip(g, blocks, processed, i, j);
        }
        j := j + 1;
      }
      ScanNextRow(g, blocks, processed, i);
      i := i + 1;
    }
    ScanDone(g, blocks, processed);
  }

  lemma ScanSkip(g: array2<int>, blocks: seq<TextBlock>, processed: set<Cell>, i: int, j: int)
    requires 0 <= i < g.Length0 && 0 <= j < g.Length1
    requires ScanInv(g, blocks, processed, i, j)
    requires g[i, j] == GAP || (i, j) in processed
    ensures ScanInv(g, blocks, processed, i, j + 1)
  {
  }

  lemma ScanAdd(g: array2<int>, blocks: seq<TextBlock>, processed: set<Cell>, b: TextBlock, processed': set<Cell>,
                i: int, j: int)
    requires 0 <= i < g.Length0 - 1 && 0 <= j < g.Length1 && g[i, j] != GAP && (i, j) !in processed
    requires ScanInv(g, blocks, processed, i, j)
    requires b == BlockAt(g, i, j)
    requires forall c :: c in processed' <==> c in processed || Swept(g, i, j, c)
    ensures ScanInv(g, blocks + [b], processed', i, j + 1)
  {
    SweptBeforeGrows(g, blocks, b);
    AppendKeepsOrdered(g, blocks, b);
    ClaimedGrows(g, blocks, b);
    var bs := blocks + [b];
    assert SeededAt(g, bs, |blocks|);
  }

  lemma ScanNextRow(g: array2<int>, blocks: seq<TextBlock>, processed: set<Cell>, i: int)
    requires ScanInv(g, blocks, processed, i, g.Length1)
    ensures ScanInv(g, blocks, processed, i + 1, 0)
  {
  }

  lemma ScanDone(g: array2<int>, blocks: seq<TextBlock>, processed: set<Cell>)
    requires ScanInv(g, blocks, processed, g.Length0, 0)
    ensures IsSegmentation(g, blocks)
  {
  }

  /** Appending a block keeps every earlier block's claims, and adds its own sweep. */
  lemma SweptBeforeGrows(g: array2<int>, blocks: seq<TextBlock>, b: TextBlock)
    requires CanSeed(g, b.ymin, b.xmin)
    ensures forall k, c :: 0 <= k <= |blocks| ==>
              (SweptBefore(g, blocks + [b], k, c) <==> SweptBefore(g, blocks, k, c))
    ensures forall c :: SweptBefore(g, blocks + [b], |blocks| + 1, c) <==>
              SweptBefore(g, blocks, |blocks|, c) || (SeededAt(g, blocks + [b], |blocks|) && Swept(g, b.ymin, b.xmin, c))
  {
    var bs := blocks + [b];
    assert forall l :: 0 <= l < |blocks| ==> bs[l] == blocks[l] && (SeededAt(g, bs, l) <==> SeededAt(g, blocks, l));
  }

  /** A block swept from an unclaimed cell later in raster order extends an ordered list. */
  lemma AppendKeepsOrdered(g: array2<int>, blocks: seq<TextBlock>, b: TextBlock)
    requires SeedsOrdered(g, blocks)
    requires 0 <= b.ymin < g.Length0 - 1 && 0 <= b.xmin < g.Length1 && g[b.ymin, b.xmin] != GAP
    requires b == BlockAt(g, b.ymin, b.xmin)
    requires forall k :: 0 <= k < |blocks| ==> RasterBefore(Seed(blocks[k]), Seed(b))
    requires !SweptBefore(g, blocks, |blocks|, Seed(b))
    ensures SeedsOrdered(g, blocks + [b])
  {
    var bs := blocks + [b];
    SweptBeforeGrows(g, blocks, b);
    assert forall l :: 0 <= l < |blocks| ==> bs[l] == blocks[l] && (SeededAt(g, bs, l) <==> SeededAt(g, blocks, l));
    assert SeededAt(g, bs, |blocks|);
  }

  /** Appending a block keeps every claim. */
  lemma ClaimedGrows(g: array2<int>, blocks: seq<TextBlock>, b: TextBlock)
    requires CanSeed(g, b.ymin, b.xmin)
    ensures forall c :: Claimed(g, blocks, c) ==> Claimed(g, blocks + [b], c)
    ensures Claimed(g, blocks + [b], Seed(b))
  {
    var bs := blocks + [b];
    SweptBeforeGrows(g, blocks, b);
    forall c | Claimed(g, blocks, c) ensures Claimed(g, bs, c) {
      if k :| 0 <= k < |blocks| && Seed(blocks[k]) == c {
        assert Seed(bs[k]) == c;
      }
    }
    assert Seed(bs[|blocks|]) == Seed(b);
  }

  /** Every block of a segmentation lies inside the grid, with lengths that match its bounds. */
  lemma SegmentationWellFormed(g: array2<int>, blocks: seq<TextBlock>)
    requires IsSegmentation(g, blocks)
    ensures forall k :: 0 <= k < |blocks| ==> WellFormed(blocks[k], g.Length0, g.Length1)
  {
    forall k | 0 <= k < |blocks| ensures WellFormed(blocks[k], g.Length0, g.Length1) {
      assert SeededAt(g, blocks, k);
      BlockAtShape(g, blocks[k].ymin, blocks[k].xmin);
    }
  }

  /** Two grids of the same shape holding the same values. */
  ghost predicate SameGrid(a: array2<int>, c: array2<int>)
    reads a, c
  {
    a.Length0 == c.Length0 && a.Length1 == c.Length1 && Contents(a) == Contents(c)
  }

  lemma {:induction false} RowEndSame(a: array2<int>, c: array2<int>, i: int, j: int)
    requires SameGrid(a, c) && 0 <= i < a.Length0 && 0 <= j
    ensures RowEnd(a, i, j) == RowEnd(c, i, j)
    decreases a.Length1 - j
  {
    if j + 1 < a.Length1 {
      assert a[i, j] == Contents(a)[i][j] == c[i, j];
      assert a[i, j + 1] == Contents(a)[i][j + 1] == c[i, j + 1];
      RowEndSame(a, c, i, j + 1);
    }
  }

  lemma {:induction false} ColEndSame(a: array2<int>, c: array2<int>, i: int, x: int)
    requires SameGrid(a, c) && 0 <= i < a.Length0 && 0 <= x < a.Length1
    ensures ColEnd(a, i, x) == ColEnd(c, i, x)
    decreases a.Length0 - i
  {
    if i + 1 < a.Length0 {
      assert a[i, x] == Contents(a)[i][x] == c[i, x];
      assert a[i + 1, x] == Contents(a)[i + 1][x] == c[i + 1, x];
      ColEndSame(a, c, i + 1, x);
    }
  }

  lemma {:induction false} DarkRunSame(a: array2<int>, c: array2<int>, i: int, lo: int, hi: int)
    requires SameGrid(a, c) && 0 <= i < a.Length0 && 0 <= lo <= hi <= a.Length1
    ensures DarkRun(a, i, lo, hi) == DarkRun(c, i, lo, hi)
    decreases hi - lo
  {
    if lo < hi {
      assert a[i, hi - 1] == Contents(a)[i][hi - 1] == c[i, hi - 1];
      DarkRunSame(a, c, i, lo, hi - 1);
    }
  }

  lemma {:induction false} SweptDarkSame(a: array2<int>, c: array2<int>, y: int, x: int, i: int)
    requires SameGrid(a, c) && 0 <= y <= i <= a.Length0 && 0 <= x < a.Length1
    ensures SweptDark(a, y, x, i) == SweptDark(c, y, x, i)
    decreases i - y
  {
    if i > y {
      SweptDarkSame(a, c, y, x, i - 1);
      RowEndSame(a, c, i - 1, x);
      var e := RowEnd(a, i - 1, x);
      DarkRunSame(a, c, i - 1, x, e);
      assert SweptDark(a, y, x, i) == SweptDark(a, y, x, i - 1) + DarkRun(a, i - 1, x, e);
    }
  }

  /** The sweeps along every row from column `x` end at the same column in two grids of equal values. */
  lemma RowEndsSame(a: array2<int>, c: array2<int>, x: int)
    requires SameGrid(a, c) && 0 <= x
    ensures forall r :: 0 <= r < a.Length0 ==> RowEnd(a, r, x) == RowEnd(c, r, x)
  {
    forall r | 0 <= r < a.Length0 {
      RowEndSame(a, c, r, x);
    }
  }

  /** What the sweep from (y, x) does depends only on the values of the grid. */
  lemma SeedSame(a: array2<int>, c: array2<int>, y: int, x: int)
    requires SameGrid(a, c)
    ensures CanSeed(a, y, x) == CanSeed(c, y, x)
    ensures CanSeed(a, y, x) ==> BlockAt(a, y, x) == BlockAt(c, y, x)
    ensures CanSeed(a, y, x) ==> forall cell :: Swept(a, y, x, cell) == Swept(c, y, x, cell)
    ensures 0 <= y < a.Length0 && 0 <= x < a.Length1 ==> a[y, x] == c[y, x]
  {
    if 0 <= y < a.Length0 && 0 <= x < a.Length1 {
      assert a[y, x] == Contents(a)[y][x] == c[y, x];
    }
    if 0 <= y && y + 1 < a.Length0 && 0 <= x < a.Length1 {
      assert a[y + 1, x] == Contents(a)[y + 1][x] == c[y + 1, x];
    }
    if CanSeed(a, y, x) {
      ColEndSame(a, c, y, x);
      RowEndsSame(a, c, x);
      SweptDarkSame(a, c, y, x, ColEnd(a, y, x));
    }
  }

  /** Being a segmentation is a property of the grid's values, not of the array holding them. */
  lemma SegmentationSame(a: array2<int>, c: array2<int>, blocks: seq<TextBlock>)
    requires SameGrid(a, c) && IsSegmentation(a, blocks) && LastRowGap(a)
    ensures IsSegmentation(c, blocks) && LastRowGap(c)
  {
    forall y, x {
      SeedSame(a, c, y, x);
    }
    forall k | 0 <= k < |blocks| ensures SeededAt(a, blocks, k) == SeededAt(c, blocks, k) {
    }
    forall k, cell | 0 <= k <= |blocks| ensures SweptBefore(a, blocks, k, cell) == SweptBefore(c, blocks, k, cell) {
    }
    forall i, j | 0 <= i < c.Length0 && 0 <= j < c.Length1 && c[i, j] != GAP
      ensures Claimed(c, blocks, (i, j))
    {
      assert Claimed(a, blocks, (i, j));
    }
  }

  /**
   * The grid values after one dissection pass of break_down_deformed_blocks: every block of
   * `blocks` whose ratio is at most DISSECT_RATIO_THRES is punched, in list order.
   */
  ghost function Dissect(s: seq<seq<int>>, blocks: seq<TextBlock>): seq<seq<int>>
    decreases |blocks|
  {
    if blocks == [] then s
    else
      var s' := Dissect(s, blocks[..|blocks| - 1]);
      var b := blocks[|blocks| - 1];
      if b.ratio <= DISSECT_RATIO_THRES then Gaps.Punch(s', b) else s'
  }

  /** A dissection pass keeps the grid's shape and only ever turns cells into GAP. */
  lemma {:induction false} DissectOnlyGaps(s: seq<seq<int>>, blocks: seq<TextBlock>)
    ensures |Dissect(s, blocks)| == |s|
    ensures forall i :: 0 <= i < |s| ==> |Dissect(s, blocks)[i]| == |s[i]|
    ensures forall i, j :: 0 <= i < |s| && 0 <= j < |s[i]| ==>
              Dissect(s, blocks)[i][j] == s[i][j] || Dissect(s, blocks)[i][j] == GAP
    decreases |blocks|
  {
    if blocks != [] {
      DissectOnlyGaps(s, blocks[..|blocks| - 1]);
    }
  }

  /** Without a block of ratio at most DISSECT_RATIO_THRES, a dissection pass changes nothing. */
  lemma {:induction false} DissectIdle(s: seq<seq<int>>, blocks: seq<TextBlock>)
    requires forall k :: 0 <= k < |blocks| ==> blocks[k].ratio > DISSECT_RATIO_THRES
    ensures Dissect(s, blocks) == s
    decreases |blocks|
  {
    if blocks != [] {
      DissectIdle(s, blocks[..|blocks| - 1]);
    }
  }

  /** One pass of break_down_deformed_blocks: punch every deformed block of `blocks` into `g`. */
  method DissectPass(g: array2<int>, blocks: seq<TextBlock>)
    requires LastRowGap(g)
    requires forall k :: 0 <= k < |blocks| ==> WellFormed(blocks[k], g.Length0, g.Length1)
    modifies g
    ensures LastRowGap(g)
    ensures Contents(g) == Dissect(old(Contents(g)), blocks)
    ensures forall i, j :: 0 <= i < g.Length0 && 0 <= j < g.Length1 ==> g[i, j] == old(g[i, j]) || g[i, j] == GAP
  {
    var k := 0;
    while k < |blocks|
      invariant 0 <= k <= |blocks|
      invariant LastRowGap(g)
      invariant Contents(g) == Dissect(old(Contents(g)), blocks[..k])
      invariant forall i, j :: 0 <= i < g.Length0 && 0 <= j < g.Length1 ==> g[i, j] == old(g[i, j]) || g[i, j] == GAP
    {
      assert blocks[..k + 1][..k] == blocks[..k];
      if blocks[k].ratio <= DISSECT_RATIO_THRES {
        ghost var s := Contents(g);
        Gaps.MarkGapsWithinBlock(g, blocks[k]);
        forall i, j | 0 <= i < g.Length0 && 0 <= j < g.Length1
          ensures g[i, j] == s[i][j] || g[i, j] == GAP
        {
          assert g[i, j] == Contents(g)[i][j] == Gaps.Punch(s, blocks[k])[i][j];
        }
      }
      k := k + 1;
    }
    assert blocks[..k] == blocks;
  }

  /**
   * break_down_deformed_blocks: DISSECT_NUM times, punch gaps into every block whose ratio is
   * at most DISSECT_RATIO_THRES, then re-segment the grid. The ghost results record each round:
   * `grids[r]` holds the grid values segmented in round r into `segs[r]`; round r + 1 starts
   * from the values of round r dissected along `segs[r]`.
   */
  method BreakDownDeformedBlocks(g: array2<int>, blocks: seq<TextBlock>)
    returns (result: seq<TextBlock>, ghost grids: seq<array2<int>>, ghost segs: seq<seq<TextBlock>>)
    requires LastRowGap(g) && IsSegmentation(g, blocks)
    modifies g
    ensures |grids| == |segs| == DISSECT_NUM + 1
    ensures segs[0] == blocks && Contents(grids[0]) == old(Contents(g))
    ensures segs[DISSECT_NUM] == result && Contents(grids[DISSECT_NUM]) == Contents(g)
    ensures forall r :: 0 <= r < DISSECT_NUM ==> Contents(grids[r + 1]) == Dissect(Contents(grids[r]), segs[r])
    ensures forall r :: 0 <= r <= DISSECT_NUM ==> LastRowGap(grids[r]) && IsSegmentation(grids[r], segs[r])
    ensures LastRowGap(g) && IsSegmentation(g, result)
    ensures forall i, j :: 0 <= i < g.Length0 && 0 <= j < g.Length1 ==> g[i, j] == old(g[i, j]) || g[i, j] == GAP
  {
    result := blocks;
    ghost var copy := Snapshot(g);
    SegmentationSame(g, copy, blocks);
    grids, segs := [copy], [blocks];
    var it := 0;
    while it < DISSECT_NUM
      invariant 0 <= it <= DISSECT_NUM
      invariant |grids| == |segs| == it + 1
      invariant segs[0] == blocks && Contents(grids[0]) == old(Contents(g))
      invariant segs[it] == result && Contents(grids[it]) == Contents(g)
      invariant g !in grids && RoundsOk(grids, segs)
      invariant LastRowGap(g) && IsSegmentation(g, result)
      invariant forall i, j :: 0 <= i < g.Length0 && 0 <= j < g.Length1 ==> g[i, j] == old(g[i, j]) || g[i, j] == GAP
    {
      result, copy := DissectRound(g, result);
      assert RoundsOk(grids, segs);
      grids, segs := grids + [copy], segs + [result];
      it := it + 1;
    }
  }

  /** One round of the refinement loop: dissect the grid along the blocks, then segment it again. */
  method DissectRound(g: array2<int>, blocks: seq<TextBlock>) returns (result: seq<TextBlock>, ghost copy: array2<int>)
    requires LastRowGap(g) && IsSegmentation(g, blocks)
    modifies g
    ensures fresh(copy)
    ensures Contents(g) == Dissect(old(Contents(g)), blocks) && Contents(copy) == Contents(g)
    ensures LastRowGap(g) && IsSegmentation(g, result)
    ensures LastRowGap(copy) && IsSegmentation(copy, result)
    ensures forall i, j :: 0 <= i < g.Length0 && 0 <= j < g.Length1 ==> g[i, j] == old(g[i, j]) || g[i, j] == GAP
  {
    SegmentationWellFormed(g, blocks);
    DissectPass(g, blocks);
    result := ConvertImgToBlocks(g);
    copy := Snapshot(g);
    SegmentationSame(g, copy, result);
  }

  /** Each recorded round is a segmented grid whose successor dissects it along its blocks. */
  ghost predicate RoundsOk(grids: seq<array2<int>>, segs: seq<seq<TextBlock>>)
    reads grids
  {
    && |grids| == |segs|
    && (forall r :: 0 <= r < |grids| - 1 ==> Contents(grids[r + 1]) == Dissect(Contents(grids[r]), segs[r]))
    && (forall r :: 0 <= r < |grids| ==> LastRowGap(grids[r]) && IsSegmentation(grids[r], segs[r]))
  }

  /** A fresh ghost copy of the grid, to remember its values at one point of the refinement loop. */
  ghost method Snapshot(g: array2<int>) returns (copy: array2<int>)
    ensures fresh(copy) && SameGrid(g, copy)
  {
    copy := new int[g.Length0, g.Length1]((i, j) reads g => if 0 <= i < g.Length0 && 0 <= j < g.Length1 then g[i, j] else 0);
    assert forall i :: 0 <= i < g.Length0 ==> Contents(copy)[i] == Contents(g)[i];
  }
}
