/**
 * Shared vocabulary of the character extractor: the tuning constants,
 * rectangles, the text-block record and its aspect ratio.
 */
module TextBlocks {

  const WHITE_COLOR := 245
  const BLACK_COLOR := 40
  const MIN_WHITE_PIX := 625
  const BUBBLE_MARGIN := 5
  const MAX_BOX_NUM := 5
  const BLACK_PIX_THRES := 20
  const DISSECT_NUM := 2
  const DISSECT_RATIO_THRES: real := 0.6
  const RATIO_THRES: real := 0.85
  const WORD_BREAK_MIN_LEN := 30
  const MIN_BLK_PIX := 3
  const MIN_BOX_SIZE := 8
  const MAX_BOX_SIZE := 40000

  /** The value that marks a cell excluded from segmentation. */
  const GAP := -1

  datatype Option<T> = None | Some(value: T)

  /** An inclusive rectangle (ymin, ymax, xmin, xmax), the source's 4-element `boundary` list. */
  datatype Boundary = Boundary(ymin: int, ymax: int, xmin: int, xmax: int)

  type Cell = (int, int)

  predicate InBounds(c: Cell, b: Boundary)
  {
    b.ymin <= c.0 <= b.ymax && b.xmin <= c.1 <= b.xmax
  }

  /** The four 4-connected neighbours, in the order of the source's `directions` list. */
  function Neighbours(c: Cell): (r: seq<Cell>)
    ensures |r| == 4
    ensures forall k :: 0 <= k < 4 ==> Manhattan(c, r[k]) == 1
  {
    [(c.0, c.1 + 1), (c.0, c.1 - 1), (c.0 + 1, c.1), (c.0 - 1, c.1)]
  }

  function Abs(n: int): nat { if n < 0 then -n else n }

  function Manhattan(a: Cell, b: Cell): nat { Abs(a.0 - b.0) + Abs(a.1 - b.1) }

  /** Strictly earlier in a row-major scan. */
  predicate RasterBefore(a: Cell, b: Cell)
  {
    a.0 < b.0 || (a.0 == b.0 && a.1 < b.1)
  }

  /** Every cell of a rectangle. */
  function Cells(b: Boundary): (r: set<Cell>)
    ensures forall c :: c in r <==> InBounds(c, b)
  {
    set i, j | b.ymin <= i <= b.ymax && b.xmin <= j <= b.xmax :: (i, j)
  }

  /** The values held by a grid, row by row: the grid as a value, to compare its states over time. */
  ghost function Contents(m: array2<int>): (s: seq<seq<int>>)
    reads m
    ensures |s| == m.Length0
    ensures forall i :: 0 <= i < m.Length0 ==> |s[i]| == m.Length1
    ensures forall i, j :: 0 <= i < m.Length0 && 0 <= j < m.Length1 ==> s[i][j] == m[i, j]
  {
    seq(m.Length0, i requires 0 <= i < m.Length0 reads m =>
      seq(m.Length1, j requires 0 <= j < m.Length1 reads m => m[i, j]))
  }

  /** Distinct entries. */
  predicate NoDuplicates<T(==)>(s: seq<T>)
  {
    forall i, j :: 0 <= i < j < |s| ==> s[i] != s[j]
  }

  /** Adding a cell of `all` not yet in `s` shrinks what is left of `all`. */
  lemma RemainingShrinks(all: set<Cell>, s: set<Cell>, n: Cell)
    requires n in all && n !in s
    ensures |all - (s + {n})| < |all - s|
  {
    assert all - (s + {n}) == (all - s) - {n};
  }

  function Min(a: int, b: int): int { if a <= b then a else b }
  function Max(a: int, b: int): int { if a >= b then a else b }
  function MaxR(a: real, b: real): real { if a >= b then a else b }

  /** A candidate rectangle of foreground: bounds, lengths, aspect ratio and dark-pixel count. */
  datatype TextBlock = TextBlock(ymin: int, ymax: int, xmin: int, xmax: int,
                                 ylen: int, xlen: int, ratio: real, blkPixCnt: int)

  /** Shorter side over longer side, exactly; the source divides floats. */
  function BoxRatio(ylen: int, xlen: int): real
    requires Max(xlen, ylen) != 0
  {
    Min(xlen, ylen) as real / Max(xlen, ylen) as real
  }

  /**
   * The ratio times the longer side is the shorter side; for lengths that are not negative it lies
   * in [0, 1]; it is 1 exactly for a square.
   */
  lemma BoxRatioRange(ylen: int, xlen: int)
    requires Max(xlen, ylen) != 0
    ensures BoxRatio(ylen, xlen) * Max(xlen, ylen) as real == Min(xlen, ylen) as real
    ensures ylen >= 0 && xlen >= 0 ==> 0.0 <= BoxRatio(ylen, xlen) <= 1.0
    ensures BoxRatio(ylen, xlen) == 1.0 <==> ylen == xlen
  {
    var lo, hi := Min(xlen, ylen) as real, Max(xlen, ylen) as real;
    var r := lo / hi;
    assert r * hi == lo;
    if ylen >= 0 && xlen >= 0 {
      assert 0.0 < hi && 0.0 <= lo <= hi;
      DivideUnit(lo, hi);
    }
    if r == 1.0 {
      assert lo == 1.0 * hi == hi;
      assert Min(xlen, ylen) == Max(xlen, ylen);
    }
    if ylen == xlen {
      assert r * hi == hi;
      assert r * hi == 1.0 * hi;
      MulEq(r, 1.0, hi);
    }
  }

  /** A non-negative real no larger than a positive one divides by it into [0, 1]. */
  lemma DivideUnit(lo: real, hi: real)
    requires 0.0 <= lo <= hi && 0.0 < hi
    ensures 0.0 <= lo / hi <= 1.0
  {
    var r := lo / hi;
    assert r * hi == lo;
    MulCancel(r, 1.0, hi);
    MulCancel(0.0, r, hi);
  }

  /** Multiplying by a non-zero real can be cancelled from an equation. */
  lemma MulEq(x: real, y: real, m: real)
    requires m != 0.0 && x * m == y * m
    ensures x == y
  {
    assert (x - y) * m == 0.0;
  }

  /** Multiplying by a positive real can be cancelled from a comparison. */
  lemma MulCancel(x: real, y: real, m: real)
    requires m > 0.0 && x * m <= y * m
    ensures x <= y
  {
    if y < x {
      MulLess(y, x, m);
    }
  }

  /** Ratios of non-negative lengths compare as the cross products of their sides. */
  lemma BoxRatioLess(a: int, b: int, c: int, d: int)
    requires a >= 0 && b >= 0 && c >= 0 && d >= 0
    requires Max(a, b) > 0 && Max(c, d) > 0
    ensures BoxRatio(a, b) < BoxRatio(c, d) <==> Min(a, b) * Max(c, d) < Min(c, d) * Max(a, b)
  {
    var p, q := Min(a, b) as real, Max(a, b) as real;
    var s, t := Min(c, d) as real, Max(c, d) as real;
    CastMul(Min(a, b), Max(c, d));
    CastMul(Min(c, d), Max(a, b));
    assert BoxRatio(a, b) == p / q && BoxRatio(c, d) == s / t;
    CrossLess(p, q, s, t);
  }

  lemma CrossLess(p: real, q: real, s: real, t: real)
    requires q > 0.0 && t > 0.0
    ensures p / q < s / t <==> p * t < s * q
  {
    var r1, r2, m := p / q, s / t, q * t;
    assert p * t == r1 * m by { assert p == r1 * q; }
    assert s * q == r2 * m by { assert s == r2 * t; }
    if r1 < r2 {
      MulLess(r1, r2, m);
    } else {
      MulLess(r2, r1, m);
    }
  }

  lemma CastMul(x: int, y: int)
    ensures (x * y) as real == x as real * y as real
  {
  }

  lemma MulLess(x: real, y: real, m: real)
    requires m > 0.0 && x <= y
    ensures x * m <= y * m && (x < y ==> x * m < y * m)
  {
  }

  /** Text_block.is_valid_block: enough dark pixels and a box area strictly between the limits. */
  predicate IsValidBlock(b: TextBlock)
  {
    b.blkPixCnt >= MIN_BLK_PIX && b.ylen * b.xlen < MAX_BOX_SIZE && b.ylen * b.xlen > MIN_BOX_SIZE
  }

  /** Text_block.has_word */
  predicate HasWord(b: TextBlock)
  {
    b.blkPixCnt > 0
  }

  /** A block whose lengths agree with its bounds and that lies inside an h-by-w grid. */
  predicate WellFormed(b: TextBlock, h: int, w: int)
  {
    && 0 <= b.ymin <= b.ymax < h
    && 0 <= b.xmin < w && b.xmin - 1 <= b.xmax < w
    && b.ylen == b.ymax - b.ymin + 1
    && b.xlen == b.xmax - b.xmin + 1
  }
}
