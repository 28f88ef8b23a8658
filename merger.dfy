/**
 * Block merging: the neighbour graph of `mark_adj_blocks`, the greedy fusion of
 * `merge_w_nearby_blocks` and the final filter of `merge_blocks_to_form_squares`.
 * Blocks live in a list (an arena); `right` and `down` are optional indices into it.
 */
module Merger {
  import opened TextBlocks

  predicate Contains(b: TextBlock, i: int, j: int)
  {
    b.ymin <= i <= b.ymax && b.xmin <= j <= b.xmax
  }

  /** The index painted on cell (i, j) after the first `n` blocks: the last of them containing it, or -1. */
  function Owner(blocks: seq<TextBlock>, n: nat, i: int, j: int): (r: int)
    requires n <= |blocks|
    ensures -1 <= r < n
    ensures r != -1 ==> Contains(blocks[r], i, j)
    ensures r == -1 <==> forall k :: 0 <= k < n ==> !Contains(blocks[k], i, j)
  {
    if n == 0 then -1
    else if Contains(blocks[n - 1], i, j) then n - 1
    else Owner(blocks, n - 1, i, j)
  }

  /** The first owned cell of row `y` at or right of column `j`, as its owner, or -1. */
  function FirstOwnerRight(blocks: seq<TextBlock>, y: int, j: int, w: int): (r: int)
    ensures -1 <= r < |blocks|
    ensures r != -1 ==> exists c :: j <= c < w && Contains(blocks[r], y, c)
    decreases w - j
  {
    if j >= w then -1
    else if Owner(blocks, |blocks|, y, j) != -1 then Owner(blocks, |blocks|, y, j)
    else FirstOwnerRight(blocks, y, j + 1, w)
  }

  /** The first owned cell of column `x` at or below row `i`, as its owner, or -1. */
  function FirstOwnerDown(blocks: seq<TextBlock>, i: int, x: int, h: int): (r: int)
    ensures -1 <= r < |blocks|
    ensures r != -1 ==> exists c :: i <= c < h && Contains(blocks[r], c, x)
    decreases h - i
  {
    if i >= h then -1
    else if Owner(blocks, |blocks|, i, x) != -1 then Owner(blocks, |blocks|, i, x)
    else FirstOwnerDown(blocks, i + 1, x, h)
  }

  /** Python list indexing: a column index of -1 names the last column. */
  function PyIndex(k: int, n: int): int
  {
    if k < 0 then k + n else k
  }

  /**
   * The `right` link mark_adj_blocks sets on block k: the first block met along the block's middle
   * row to its right, kept only when its vertical span is identical.
   */
  function RightLink(blocks: seq<TextBlock>, k: int, w: int): (r: Option<nat>)
    requires 0 <= k < |blocks|
    ensures r.Some? ==>
      && r.value < |blocks| && blocks[r.value].ymin == blocks[k].ymin && blocks[r.value].ymax == blocks[k].ymax
      && blocks[r.value].xmax > blocks[k].xmax
  {
    var b := blocks[k];
    var ymid := (b.ymin + b.ymax) / 2;
    var r := FirstOwnerRight(blocks, ymid, b.xmax + 1, w);
    if r != -1 && blocks[r].ymax == b.ymax && blocks[r].ymin == b.ymin then Some(r) else None
  }

  /**
   * The `down` link mark_adj_blocks sets on block k: the first block met along the block's middle
   * column below it, kept only when its horizontal span is identical.
   */
  function DownLink(blocks: seq<TextBlock>, k: int, h: int, w: int): (r: Option<nat>)
    requires 0 <= k < |blocks|
    ensures r.Some? ==>
      && r.value < |blocks| && blocks[r.value].xmin == blocks[k].xmin && blocks[r.value].xmax == blocks[k].xmax
      && blocks[r.value].ymax > blocks[k].ymax
  {
    var b := blocks[k];
    var xmid := PyIndex((b.xmin + b.xmax) / 2, w);
    var r := FirstOwnerDown(blocks, b.ymax + 1, xmid, h);
    if r != -1 && blocks[r].xmax == b.xmax && blocks[r].xmin == b.xmin then Some(r) else None
  }

  /** All the right links of the arena. */
  function RightLinks(blocks: seq<TextBlock>, w: int): (r: seq<Option<nat>>)
    ensures |r| == |blocks| && LinksValid(r, |blocks|) && Monotone(blocks, r, true)
  {
    seq(|blocks|, k requires 0 <= k < |blocks| => RightLink(blocks, k, w))
  }

  /** All the down links of the arena. */
  function DownLinks(blocks: seq<TextBlock>, h: int, w: int): (r: seq<Option<nat>>)
    ensures |r| == |blocks| && LinksValid(r, |blocks|) && Monotone(blocks, r, false)
  {
    seq(|blocks|, k requires 0 <= k < |blocks| => DownLink(blocks, k, h, w))
  }

  /** Following a link reaches further along the walk's direction, over the same span across it. */
  predicate Monotone(blocks: seq<TextBlock>, links: seq<Option<nat>>, horizontal: bool)
  {
    forall k :: 0 <= k < |links| && k < |blocks| && links[k].Some? && links[k].value < |blocks| ==>
      var n := blocks[links[k].value];
      if horizontal then n.xmax > blocks[k].xmax && n.ymin == blocks[k].ymin && n.ymax == blocks[k].ymax
      else n.ymax > blocks[k].ymax && n.xmin == blocks[k].xmin && n.xmax == blocks[k].xmax
  }

  /** Links point into the arena. */
  predicate LinksValid(links: seq<Option<nat>>, n: int)
  {
    forall k :: 0 <= k < |links| && links[k].Some? ==> links[k].value < n
  }

  /** The first pass of mark_adj_blocks: paint each block's index over its rectangle, later blocks on top. */
  method PaintRegions(blocks: seq<TextBlock>, h: int, w: int) returns (regions: array2<int>)
    requires 0 <= h && 0 <= w
    requires forall k :: 0 <= k < |blocks| ==> WellFormed(blocks[k], h, w)
    ensures fresh(regions) && regions.Length0 == h && regions.Length1 == w
    ensures forall i, j :: 0 <= i < h && 0 <= j < w ==> regions[i, j] == Owner(blocks, |blocks|, i, j)
  {
    regions := new int[h, w]((_, _) => -1);
    var k := 0;
    while k < |blocks|
      invariant 0 <= k <= |blocks|
      invariant forall i, j :: 0 <= i < h && 0 <= j < w ==> regions[i, j] == Owner(blocks, k, i, j)
    {
      var b := blocks[k];
      var i := b.ymin;
      while i <= b.ymax
        invariant b.ymin <= i <= b.ymax + 1
        invariant forall r, c :: 0 <= r < h && 0 <= c < w ==>
                    regions[r, c] == if r < i && Contains(b, r, c) then k else Owner(blocks, k, r, c)
      {
        var j := b.xmin;
        while j <= b.xmax
          invariant b.xmin <= j <= b.xmax + 1
          invariant forall r, c :: 0 <= r < h && 0 <= c < w ==>
                      regions[r, c] == if (r < i || (r == i && c < j)) && Contains(b, r, c) then k else Owner(blocks, k, r, c)
        {
          regions[i, j] := k;
          j := j + 1;
        }
        i := i + 1;
      }
      k := k + 1;
    }
  }

  /**
   * mark_adj_blocks: the `right` and `down` link of every block. The middle row and column use
   * floor division, and a middle column of -1 (a block of width 0 at column 0) wraps to the last column.
   */
  method MarkAdjBlocks(blocks: seq<TextBlock>, h: int, w: int) returns (right: seq<Option<nat>>, down: seq<Option<nat>>)
    requires 0 <= h && 0 <= w
    requires forall k :: 0 <= k < |blocks| ==> WellFormed(blocks[k], h, w)
    ensures right == RightLinks(blocks, w) && down == DownLinks(blocks, h, w)
  {
    var regions := PaintRegions(blocks, h, w);
    right, down := [], [];
    var k := 0;
    while k < |blocks|
      invariant 0 <= k <= |blocks|
      invariant right == RightLinks(blocks, w)[..k] && down == DownLinks(blocks, h, w)[..k]
      invariant forall i, j :: 0 <= i < h && 0 <= j < w ==> regions[i, j] == Owner(blocks, |blocks|, i, j)
    {
      var r := SearchRight(blocks, regions, k, h, w);
      var d := SearchDown(blocks, regions, k, h, w);
      right := right + [r];
      down := down + [d];
      k := k + 1;
    }
  }

  /** The "search right" half of mark_adj_blocks' second pass, for block k. */
  method SearchRight(blocks: seq<TextBlock>, regions: array2<int>, k: int, h: int, w: int) returns (link: Option<nat>)
    requires 0 <= k < |blocks| && WellFormed(blocks[k], h, w)
    requires regions.Length0 == h && regions.Length1 == w
    requires forall i, j :: 0 <= i < h && 0 <= j < w ==> regions[i, j] == Owner(blocks, |blocks|, i, j)
    ensures link == RightLink(blocks, k, w)
  {
    var b := blocks[k];
    var ymid := (b.ymin + b.ymax) / 2;
    var rightIdx := -1;
    var j := b.xmax + 1;
    while j < w
      invariant b.xmax + 1 <= j <= w
      invariant FirstOwnerRight(blocks, ymid, b.xmax + 1, w) == FirstOwnerRight(blocks, ymid, j, w)
      decreases w - j
    {
      if regions[ymid, j] != -1 {
        rightIdx := regions[ymid, j];
        break;
      }
      j := j + 1;
    }
    assert rightIdx == FirstOwnerRight(blocks, ymid, b.xmax + 1, w);
    link := None;
    if rightIdx != -1 {
      var rb := blocks[rightIdx];
      if rb.ymax == b.ymax && rb.ymin == b.ymin {
        link := Some(rightIdx);
      }
    }
  }

  /** The "search down" half of mark_adj_blocks' second pass, for block k. */
  method SearchDown(blocks: seq<TextBlock>, regions: array2<int>, k: int, h: int, w: int) returns (link: Option<nat>)
    requires 0 <= k < |blocks| && WellFormed(blocks[k], h, w)
    requires regions.Length0 == h && regions.Length1 == w
    requires forall i, j :: 0 <= i < h && 0 <= j < w ==> regions[i, j] == Owner(blocks, |blocks|, i, j)
    ensures link == DownLink(blocks, k, h, w)
  {
    var b := blocks[k];
    var xmid := (b.xmin + b.xmax) / 2;
    var col := PyIndex(xmid, w);
    var downIdx := -1;
    var i := b.ymax + 1;
    while i < h
      invariant b.ymax + 1 <= i <= h
      invariant FirstOwnerDown(blocks, b.ymax + 1, col, h) == FirstOwnerDown(blocks, i, col, h)
      decreases h - i
    {
      if regions[i, col] != -1 {
        downIdx := regions[i, col];
        break;
      }
      i := i + 1;
    }
    assert downIdx == FirstOwnerDown(blocks, b.ymax + 1, col, h);
    link := None;
    if downIdx != -1 {
      var db := blocks[downIdx];
      if db.xmax == b.xmax && db.xmin == b.xmin {
        link := Some(downIdx);
      }
    }
  }

  /** The outcome of a greedy merge walk: the grown block and the neighbours it absorbed, in order. */
  datatype Grown = Grown(block: TextBlock, absorbed: seq<nat>)

  /**
   * merge_w_nearby_blocks after the direction is chosen: from the accumulated block `cur`, try the
   * neighbour `next` (found through `links`) with at most `hops` hops left. A hop is accepted when the
   * combined box's ratio is strictly above both the current ratio and the neighbour's own ratio; the
   * walk stops at the first rejected hop or missing link. `horizontal` walks right links and extends
   * xmax; otherwise down links and ymax.
   */
  function Grow(blocks: seq<TextBlock>, links: seq<Option<nat>>, horizontal: bool, cur: TextBlock,
                next: Option<nat>, hops: nat): Grown
    requires LinksValid(links, |blocks|) && |links| == |blocks|
    requires next.Some? ==> next.value < |blocks|
    requires if horizontal then cur.ylen >= 1 else cur.xlen >= 1
    decreases hops
  {
    if hops == 0 || next.None? then Grown(cur, [])
    else
      var n := blocks[next.value];
      if Accepts(horizontal, cur, n) then
        var rest := Grow(blocks, links, horizontal, Fuse(horizontal, cur, n), links[next.value], hops - 1);
        Grown(rest.block, [next.value] + rest.absorbed)
      else Grown(cur, [])
  }

  /** The ratio the walk's block would have after stretching to the far edge of `n`. */
  function NewRatio(horizontal: bool, cur: TextBlock, n: TextBlock): real
    requires if horizontal then cur.ylen >= 1 else cur.xlen >= 1
  {
    if horizontal then BoxRatio(cur.ylen, cur.xlen + n.xmax - cur.xmax)
    else BoxRatio(cur.xlen, cur.ylen + n.ymax - cur.ymax)
  }

  /** A hop is taken only when it beats both blocks' own ratios. */
  predicate Accepts(horizontal: bool, cur: TextBlock, n: TextBlock)
    requires if horizontal then cur.ylen >= 1 else cur.xlen >= 1
  {
    NewRatio(horizontal, cur, n) > MaxR(cur.ratio, n.ratio)
  }

  /** The walk's block stretched over `n`, with `n`'s dark pixels added. */
  function Fuse(horizontal: bool, cur: TextBlock, n: TextBlock): (r: TextBlock)
    requires if horizontal then cur.ylen >= 1 else cur.xlen >= 1
    ensures if horizontal then r.ylen == cur.ylen else r.xlen == cur.xlen
  {
    var newRatio := NewRatio(horizontal, cur, n);
    if horizontal
    then cur.(ratio := newRatio, xlen := cur.xlen + n.xmax - cur.xmax, xmax := n.xmax, blkPixCnt := cur.blkPixCnt + n.blkPixCnt)
    else cur.(ratio := newRatio, ylen := cur.ylen + n.ymax - cur.ymax, ymax := n.ymax, blkPixCnt := cur.blkPixCnt + n.blkPixCnt)
  }

  /** Sum of the dark-pixel counts of the listed blocks. */
  function CountOf(blocks: seq<TextBlock>, ids: seq<nat>): int
    requires forall t :: 0 <= t < |ids| ==> ids[t] < |blocks|
  {
    if ids == [] then 0 else blocks[ids[0]].blkPixCnt + CountOf(blocks, ids[1..])
  }

  /**
   * A merge walk makes at most `hops` hops, absorbs only linked blocks, keeps the top-left corner
   * and the span across the walk, and adds exactly the absorbed blocks' dark-pixel counts.
   */
  lemma {:induction false} GrowShape(blocks: seq<TextBlock>, links: seq<Option<nat>>, horizontal: bool, cur: TextBlock,
                                     next: Option<nat>, hops: nat)
    requires LinksValid(links, |blocks|) && |links| == |blocks|
    requires next.Some? ==> next.value < |blocks|
    requires if horizontal then cur.ylen >= 1 else cur.xlen >= 1
    ensures var g := Grow(blocks, links, horizontal, cur, next, hops);
      && |g.absorbed| <= hops
      && (forall t :: 0 <= t < |g.absorbed| ==> g.absorbed[t] < |blocks|)
      && (g.absorbed != [] ==> next.Some? && g.absorbed[0] == next.value)
      && g.block.ymin == cur.ymin && g.block.xmin == cur.xmin
      && (horizontal ==> g.block.ymax == cur.ymax && g.block.ylen == cur.ylen)
      && (!horizontal ==> g.block.xmax == cur.xmax && g.block.xlen == cur.xlen)
      && g.block.blkPixCnt == cur.blkPixCnt + CountOf(blocks, g.absorbed)
    decreases hops
  {
    if hops == 0 || next.None? {
    } else {
      var n := blocks[next.value];
      if Accepts(horizontal, cur, n) {
        var grown := Fuse(horizontal, cur, n);
        GrowShape(blocks, links, horizontal, grown, links[next.value], hops - 1);
        var rest := Grow(blocks, links, horizontal, grown, links[next.value], hops - 1);
        assert ([next.value] + rest.absorbed)[1..] == rest.absorbed;
      }
    }
  }

  /**
   * Every accepted hop strictly raises the ratio: the grown block's ratio is at least the start's,
   * strictly above it when something was absorbed, and strictly above every absorbed block's own ratio.
   */
  lemma {:induction false} GrowImproves(blocks: seq<TextBlock>, links: seq<Option<nat>>, horizontal: bool, cur: TextBlock,
                                        next: Option<nat>, hops: nat)
    requires LinksValid(links, |blocks|) && |links| == |blocks|
    requires next.Some? ==> next.value < |blocks|
    requires if horizontal then cur.ylen >= 1 else cur.xlen >= 1
    ensures var g := Grow(blocks, links, horizontal, cur, next, hops);
      && g.block.ratio >= cur.ratio
      && (g.absorbed != [] ==> g.block.ratio > cur.ratio)
      && (forall t :: 0 <= t < |g.absorbed| && g.absorbed[t] < |blocks| ==> g.block.ratio > blocks[g.absorbed[t]].ratio)
    decreases hops
  {
    if hops == 0 || next.None? {
    } else {
      var n := blocks[next.value];
      if Accepts(horizontal, cur, n) {
        GrowImproves(blocks, links, horizontal, Fuse(horizontal, cur, n), links[next.value], hops - 1);
      }
    }
  }

  /** The arena with its links, as merge_blocks_to_form_squares sees it. */
  predicate ArenaOk(blocks: seq<TextBlock>, right: seq<Option<nat>>, down: seq<Option<nat>>)
  {
    && |right| == |blocks| && |down| == |blocks|
    && LinksValid(right, |blocks|) && LinksValid(down, |blocks|)
    && forall k :: 0 <= k < |blocks| ==> blocks[k].ylen >= 1
  }

  /** merge_w_nearby_blocks on block k: grow right when taller than wide, else down, up to MAX_BOX_NUM hops. */
  function MergeAt(blocks: seq<TextBlock>, right: seq<Option<nat>>, down: seq<Option<nat>>, k: int): Grown
    requires ArenaOk(blocks, right, down) && 0 <= k < |blocks|
  {
    var b := blocks[k];
    if b.ylen > b.xlen then Grow(blocks, right, true, b, right[k], MAX_BOX_NUM)
    else Grow(blocks, down, false, b, down[k], MAX_BOX_NUM)
  }

  /**
   * merge_w_nearby_blocks: walk the links of block k, fusing each accepted neighbour into the
   * returned block and setting its `matched` flag.
   */
  method MergeWithNearbyBlocks(blocks: seq<TextBlock>, right: seq<Option<nat>>, down: seq<Option<nat>>, k: int,
                               matched: array<bool>) returns (merged: TextBlock)
    requires ArenaOk(blocks, right, down) && 0 <= k < |blocks| && matched.Length == |blocks|
    modifies matched
    ensures merged == MergeAt(blocks, right, down, k).block
    ensures forall t :: 0 <= t < matched.Length ==>
              matched[t] == (old(matched[t]) || t in MergeAt(blocks, right, down, k).absorbed)
  {
    var b := blocks[k];
    var horizontal := b.ylen > b.xlen;
    var links := if horizontal then right else down;
    ghost var whole := MergeAt(blocks, right, down, k);
    var cur := b;
    var next := links[k];
    ghost var taken: seq<nat> := [];
    var i := 0;
    while i < MAX_BOX_NUM
      invariant 0 <= i <= MAX_BOX_NUM
      invariant Walking(blocks, links, horizontal, whole, taken, cur, next, MAX_BOX_NUM - i)
      invariant forall t :: 0 <= t < matched.Length ==> matched[t] == (old(matched[t]) || t in taken)
    {
      if next.None? || !Accepts(horizontal, cur, blocks[next.value]) {
        break;
      }
      var v := next.value;
      WalkingStep(blocks, links, horizontal, whole, taken, cur, v, MAX_BOX_NUM - i);
      cur := Fuse(horizontal, cur, blocks[v]);
      matched[v] := true;
      taken := taken + [v];
      next := links[v];
      i := i + 1;
    }
    WalkingDone(blocks, links, horizontal, whole, taken, cur, next, MAX_BOX_NUM - i);
    merged := cur;
  }

  /** The state of merge_w_nearby_blocks's walk: what is left of it, after `taken`, completes the whole walk. */
  ghost predicate Walking(blocks: seq<TextBlock>, links: seq<Option<nat>>, horizontal: bool, whole: Grown,
                          taken: seq<nat>, cur: TextBlock, next: Option<nat>, hops: nat)
  {
    && LinksValid(links, |blocks|) && |links| == |blocks|
    && (next.Some? ==> next.value < |blocks|)
    && (if horizontal then cur.ylen >= 1 else cur.xlen >= 1)
    && var rest := Grow(blocks, links, horizontal, cur, next, hops);
       whole.block == rest.block && whole.absorbed == taken + rest.absorbed
  }

  /** One accepted hop of the walk. */
  lemma WalkingStep(blocks: seq<TextBlock>, links: seq<Option<nat>>, horizontal: bool, whole: Grown,
                    taken: seq<nat>, cur: TextBlock, v: nat, hops: nat)
    requires Walking(blocks, links, horizontal, whole, taken, cur, Some(v), hops) && hops > 0
    requires Accepts(horizontal, cur, blocks[v])
    ensures Walking(blocks, links, horizontal, whole, taken + [v], Fuse(horizontal, cur, blocks[v]), links[v], hops - 1)
  {
    GrowTakes(blocks, links, horizontal, cur, v, hops);
    var rest := Grow(blocks, links, horizontal, Fuse(horizontal, cur, blocks[v]), links[v], hops - 1);
    assert taken + ([v] + rest.absorbed) == (taken + [v]) + rest.absorbed;
  }

  /** A walk that stops has absorbed everything the whole walk absorbs. */
  lemma WalkingDone(blocks: seq<TextBlock>, links: seq<Option<nat>>, horizontal: bool, whole: Grown,
                    taken: seq<nat>, cur: TextBlock, next: Option<nat>, hops: nat)
    requires Walking(blocks, links, horizontal, whole, taken, cur, next, hops)
    requires hops == 0 || next.None? || !Accepts(horizontal, cur, blocks[next.value])
    ensures whole.block == cur && whole.absorbed == taken
  {
    GrowStops(blocks, links, horizontal, cur, next, hops);
  }

  /** A walk with no hop left, no link or a rejected hop absorbs nothing and keeps its block. */
  lemma GrowStops(blocks: seq<TextBlock>, links: seq<Option<nat>>, horizontal: bool, cur: TextBlock,
                  next: Option<nat>, hops: nat)
    requires LinksValid(links, |blocks|) && |links| == |blocks|
    requires next.Some? ==> next.value < |blocks|
    requires if horizontal then cur.ylen >= 1 else cur.xlen >= 1
    requires hops == 0 || next.None? || !Accepts(horizontal, cur, blocks[next.value])
    ensures Grow(blocks, links, horizontal, cur, next, hops) == Grown(cur, [])
  {
  }

  /** An accepted hop absorbs `v` in front of what the rest of the walk, from the fused block, absorbs. */
  lemma GrowTakes(blocks: seq<TextBlock>, links: seq<Option<nat>>, horizontal: bool, cur: TextBlock,
                  v: nat, hops: nat)
    requires LinksValid(links, |blocks|) && |links| == |blocks| && v < |blocks| && hops > 0
    requires if horizontal then cur.ylen >= 1 else cur.xlen >= 1
    requires Accepts(horizontal, cur, blocks[v])
    ensures var rest := Grow(blocks, links, horizontal, Fuse(horizontal, cur, blocks[v]), links[v], hops - 1);
      Grow(blocks, links, horizontal, cur, Some(v), hops) == Grown(rest.block, [v] + rest.absorbed)
  {
  }

  /** Set the flags of the listed blocks. */
  function MarkAll(matched: seq<bool>, ids: seq<nat>): (r: seq<bool>)
    ensures |r| == |matched|
    ensures forall t :: 0 <= t < |r| ==> r[t] == (matched[t] || t in ids)
  {
    seq(|matched|, t requires 0 <= t < |matched| => matched[t] || t in ids)
  }

  /**
   * merge_blocks_to_form_squares from block k on, with the `matched` flags as they stand:
   * skip matched and empty blocks, merge a block whose ratio is below RATIO_THRES (which
   * flags what it absorbs), keep the result when it is a valid block.
   */
  function Squares(blocks: seq<TextBlock>, right: seq<Option<nat>>, down: seq<Option<nat>>,
                   matched: seq<bool>, k: nat): seq<TextBlock>
    requires ArenaOk(blocks, right, down) && |matched| == |blocks| && k <= |blocks|
    decreases |blocks| - k
  {
    if k == |blocks| then []
    else if matched[k] || !HasWord(blocks[k]) then Squares(blocks, right, down, matched, k + 1)
    else
      var m := Squared(blocks, right, down, k);
      (if IsValidBlock(m.block) then [m.block] else []) +
      Squares(blocks, right, down, MarkAll(matched, m.absorbed), k + 1)
  }

  /** What becomes of block k when it is visited: merged if below RATIO_THRES, else kept as it is. */
  function Squared(blocks: seq<TextBlock>, right: seq<Option<nat>>, down: seq<Option<nat>>, k: nat): Grown
    requires ArenaOk(blocks, right, down) && k < |blocks|
  {
    if blocks[k].ratio < RATIO_THRES then MergeAt(blocks, right, down, k) else Grown(blocks[k], [])
  }

  /** Every block merge_blocks_to_form_squares outputs is valid and has a word. */
  lemma {:induction false} SquaresValid(blocks: seq<TextBlock>, right: seq<Option<nat>>, down: seq<Option<nat>>,
                                        matched: seq<bool>, k: nat)
    requires ArenaOk(blocks, right, down) && |matched| == |blocks| && k <= |blocks|
    ensures forall t :: 0 <= t < |Squares(blocks, right, down, matched, k)| ==>
              IsValidBlock(Squares(blocks, right, down, matched, k)[t]) && HasWord(Squares(blocks, right, down, matched, k)[t])
    decreases |blocks| - k
  {
    if k == |blocks| {
    } else if matched[k] || !HasWord(blocks[k]) {
      SquaresValid(blocks, right, down, matched, k + 1);
    } else {
      SquaresValid(blocks, right, down, MarkAll(matched, Squared(blocks, right, down, k).absorbed), k + 1);
    }
  }

  /** The flags merge_blocks_to_form_squares starts from: nothing matched. */
  function NoneMatched(n: nat): (r: seq<bool>)
    ensures |r| == n && forall t :: 0 <= t < n ==> !r[t]
  {
    seq(n, _ => false)
  }

  /**
   * merge_blocks_to_form_squares: link the blocks, then merge each unmatched block that holds a
   * word and is not square enough, keeping the results that are valid blocks.
   */
  method MergeBlocksToFormSquares(blocks: seq<TextBlock>, h: int, w: int) returns (final: seq<TextBlock>)
    requires 0 <= h && 0 <= w
    requires forall k :: 0 <= k < |blocks| ==> WellFormed(blocks[k], h, w)
    ensures ArenaOk(blocks, RightLinks(blocks, w), DownLinks(blocks, h, w))
    ensures final == Squares(blocks, RightLinks(blocks, w), DownLinks(blocks, h, w), NoneMatched(|blocks|), 0)
    ensures forall t :: 0 <= t < |final| ==> IsValidBlock(final[t]) && HasWord(final[t]) && WellFormed(final[t], h, w)
  {
    var right, down := MarkAdjBlocks(blocks, h, w);
    assert ArenaOk(blocks, right, down) by {
      forall k | 0 <= k < |blocks| ensures blocks[k].ylen >= 1 {
        assert WellFormed(blocks[k], h, w);
      }
    }
    var matched := new bool[|blocks|](_ => false);
    ghost var whole := Squares(blocks, right, down, NoneMatched(|blocks|), 0);
    assert matched[..] == NoneMatched(|blocks|);
    final := [];
    var k := 0;
    while k < |blocks|
      invariant 0 <= k <= |blocks|
      invariant final + Squares(blocks, right, down, matched[..], k) == whole
    {
      var kept := VisitBlock(blocks, right, down, k, matched);
      final := final + kept;
      k := k + 1;
    }
    SquaresValid(blocks, right, down, NoneMatched(|blocks|), 0);
    SquaresInside(blocks, right, down, NoneMatched(|blocks|), 0, h, w);
  }

  /**
   * One iteration of merge_blocks_to_form_squares' loop: what it appends to the output (nothing or
   * one block), with the blocks its merge absorbs flagged as matched.
   */
  method VisitBlock(blocks: seq<TextBlock>, right: seq<Option<nat>>, down: seq<Option<nat>>, k: nat,
                    matched: array<bool>) returns (kept: seq<TextBlock>)
    requires ArenaOk(blocks, right, down) && k < |blocks| && matched.Length == |blocks|
    modifies matched
    ensures kept + Squares(blocks, right, down, matched[..], k + 1) == old(Squares(blocks, right, down, matched[..], k))
  {
    var block := blocks[k];
    ghost var before := matched[..];
    if matched[k] || !HasWord(block) {
      return [];
    }
    ghost var m := Squared(blocks, right, down, k);
    if block.ratio < RATIO_THRES {
      block := MergeWithNearbyBlocks(blocks, right, down, k, matched);
    }
    assert matched[..] == MarkAll(before, m.absorbed);
    kept := if IsValidBlock(block) then [block] else [];
  }

  /** A walk over monotone links from a well-formed block ends in a well-formed block of the same grid. */
  lemma {:induction false} GrowInside(blocks: seq<TextBlock>, links: seq<Option<nat>>, horizontal: bool, cur: TextBlock,
                                      next: Option<nat>, hops: nat, h: int, w: int)
    requires LinksValid(links, |blocks|) && |links| == |blocks| && Monotone(blocks, links, horizontal)
    requires forall k :: 0 <= k < |blocks| ==> WellFormed(blocks[k], h, w)
    requires next.Some? ==> next.value < |blocks|
    requires if horizontal then cur.ylen >= 1 else cur.xlen >= 1
    requires WellFormed(cur, h, w)
    requires next.Some? ==> var n := blocks[next.value];
      if horizontal then n.xmax > cur.xmax else n.ymax > cur.ymax
    ensures WellFormed(Grow(blocks, links, horizontal, cur, next, hops).block, h, w)
    decreases hops
  {
    if hops == 0 || next.None? {
    } else {
      var n := blocks[next.value];
      if Accepts(horizontal, cur, n) {
        GrowInside(blocks, links, horizontal, Fuse(horizontal, cur, n), links[next.value], hops - 1, h, w);
      }
    }
  }

  /** Every block merge_blocks_to_form_squares outputs is a consistent rectangle inside the grid. */
  lemma {:induction false} SquaresInside(blocks: seq<TextBlock>, right: seq<Option<nat>>, down: seq<Option<nat>>,
                                         matched: seq<bool>, k: nat, h: int, w: int)
    requires ArenaOk(blocks, right, down) && |matched| == |blocks| && k <= |blocks|
    requires Monotone(blocks, right, true) && Monotone(blocks, down, false)
    requires forall t :: 0 <= t < |blocks| ==> WellFormed(blocks[t], h, w)
    ensures forall t :: 0 <= t < |Squares(blocks, right, down, matched, k)| ==>
              WellFormed(Squares(blocks, right, down, matched, k)[t], h, w)
    decreases |blocks| - k
  {
    if k == |blocks| {
    } else if matched[k] || !HasWord(blocks[k]) {
      SquaresInside(blocks, right, down, matched, k + 1, h, w);
    } else {
      var b := blocks[k];
      if b.ratio < RATIO_THRES {
        if b.ylen > b.xlen {
          GrowInside(blocks, right, true, b, right[k], MAX_BOX_NUM, h, w);
        } else {
          GrowInside(blocks, down, false, b, down[k], MAX_BOX_NUM, h, w);
        }
      }
      SquaresInside(blocks, right, down, MarkAll(matched, Squared(blocks, right, down, k).absorbed), k + 1, h, w);
    }
  }
}
