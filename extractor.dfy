/** Cleaning and cropping a located bubble: `extract_text` and `tighten_bubble`. */
module Extractor {
  import opened TextBlocks
  import Threshold
  import FloodFill

  type Grid = seq<seq<int>>

  /** `g` has `h` rows of `w` cells. */
  predicate Rect(g: Grid, h: int, w: int)
  {
    |g| == h && forall i :: 0 <= i < h ==> |g[i]| == w
  }

  /** The cells of a grid array as rows. */
  function View(m: array2<int>): (g: Grid)
    reads m
    ensures Rect(g, m.Length0, m.Length1)
    ensures forall i, j :: 0 <= i < m.Length0 && 0 <= j < m.Length1 ==> g[i][j] == m[i, j]
  {
    seq(m.Length0, i requires 0 <= i < m.Length0 reads m => seq(m.Length1, j requires 0 <= j < m.Length1 reads m => m[i, j]))
  }

  predicate IsDark(v: int) { v <= BLACK_COLOR }

  /** Number of dark values in a row. */
  function RowDark(row: seq<int>): nat
  {
    if row == [] then 0 else RowDark(row[..|row| - 1]) + (if IsDark(row[|row| - 1]) then 1 else 0)
  }

  /** Number of dark values in a grid: tighten_bubble's `black_pix_count`. */
  function GridDark(g: Grid): nat
  {
    if g == [] then 0 else GridDark(g[..|g| - 1]) + RowDark(g[|g| - 1])
  }

  /** A row counts no dark value exactly when it has none. */
  lemma {:induction false} RowDarkZero(row: seq<int>)
    ensures RowDark(row) == 0 <==> forall j :: 0 <= j < |row| ==> !IsDark(row[j])
  {
    if row != [] {
      RowDarkZero(row[..|row| - 1]);
    }
  }

  /** A grid counts no dark value exactly when it has none. */
  lemma {:induction false} GridDarkZero(g: Grid)
    ensures GridDark(g) == 0 <==> forall i, j :: 0 <= i < |g| && 0 <= j < |g[i]| ==> !IsDark(g[i][j])
  {
    if g != [] {
      GridDarkZero(g[..|g| - 1]);
      RowDarkZero(g[|g| - 1]);
      assert forall i :: 0 <= i < |g| - 1 ==> g[..|g| - 1][i] == g[i];
    }
  }

  /**
   * (ylo, yhi, xlo, xhi) is the bounding box of the dark cells of `g`, or (h, -1, w, -1) when
   * there are none.
   */
  ghost predicate DarkBox(g: Grid, h: int, w: int, ylo: int, yhi: int, xlo: int, xhi: int)
    requires Rect(g, h, w)
  {
    && (forall i, j :: 0 <= i < h && 0 <= j < w && IsDark(g[i][j]) ==> ylo <= i <= yhi && xlo <= j <= xhi)
    && (0 <= ylo < h ==> exists j :: 0 <= j < w && IsDark(g[ylo][j]))
    && (0 <= yhi < h ==> exists j :: 0 <= j < w && IsDark(g[yhi][j]))
    && (0 <= xlo < w ==> exists i :: 0 <= i < h && IsDark(g[i][xlo]))
    && (0 <= xhi < w ==> exists i :: 0 <= i < h && IsDark(g[i][xhi]))
    && ((forall i, j :: 0 <= i < h && 0 <= j < w ==> !IsDark(g[i][j])) ==> ylo == h && yhi == -1 && xlo == w && xhi == -1)
    && (0 <= ylo <= h && -1 <= yhi < h && 0 <= xlo <= w && -1 <= xhi < w)
  }

  /** Cell (r, c) comes before (i, j) in a row-major scan. */
  predicate ScannedBefore(r: int, c: int, i: int, j: int)
  {
    r < i || (r == i && c < j)
  }

  /** Every dark cell scanned before (i, j) lies in the box. */
  ghost predicate ScanHull(m: array2<int>, i: int, j: int, ylo: int, yhi: int, xlo: int, xhi: int)
    reads m
  {
    forall r, c :: 0 <= r < m.Length0 && 0 <= c < m.Length1 && ScannedBefore(r, c, i, j) && IsDark(m[r, c]) ==>
      ylo <= r <= yhi && xlo <= c <= xhi
  }

  /** Row r, when inside the array, holds a dark cell scanned before (i, j). */
  ghost predicate RowSeen(m: array2<int>, i: int, j: int, r: int)
    reads m
  {
    0 <= r < m.Length0 ==> exists c :: 0 <= c < m.Length1 && ScannedBefore(r, c, i, j) && IsDark(m[r, c])
  }

  /** Column c, when inside the array, holds a dark cell scanned before (i, j). */
  ghost predicate ColumnSeen(m: array2<int>, i: int, j: int, c: int)
    reads m
  {
    0 <= c < m.Length1 ==> exists r :: 0 <= r < m.Length0 && ScannedBefore(r, c, i, j) && IsDark(m[r, c])
  }

  /** No dark cell was scanned before (i, j). */
  ghost predicate NoneSeen(m: array2<int>, i: int, j: int)
    reads m
  {
    forall r, c :: 0 <= r < m.Length0 && 0 <= c < m.Length1 && ScannedBefore(r, c, i, j) ==> !IsDark(m[r, c])
  }

  /** The running min/max of tighten_bubble after scanning up to (i, j). */
  ghost predicate ScanBox(m: array2<int>, i: int, j: int, ylo: int, yhi: int, xlo: int, xhi: int)
    reads m
  {
    && ScanHull(m, i, j, ylo, yhi, xlo, xhi)
    && RowSeen(m, i, j, ylo) && RowSeen(m, i, j, yhi)
    && ColumnSeen(m, i, j, xlo) && ColumnSeen(m, i, j, xhi)
    && (yhi == -1 ==> ylo == m.Length0 && xlo == m.Length1 && xhi == -1)
    && (yhi == -1 <==> NoneSeen(m, i, j))
    && (0 <= ylo <= m.Length0 && -1 <= yhi < m.Length0 && 0 <= xlo <= m.Length1 && -1 <= xhi < m.Length1)
  }

  /** Taking in one more cell of the scan. */
  lemma ScanBoxStep(m: array2<int>, i: int, j: int, ylo: int, yhi: int, xlo: int, xhi: int)
    requires 0 <= i < m.Length0 && 0 <= j < m.Length1
    requires ScanBox(m, i, j, ylo, yhi, xlo, xhi)
    ensures IsDark(m[i, j]) ==> ScanBox(m, i, j + 1, Min(i, ylo), Max(i, yhi), Min(j, xlo), Max(j, xhi))
    ensures !IsDark(m[i, j]) ==> ScanBox(m, i, j + 1, ylo, yhi, xlo, xhi)
  {
  }

  /** Moving to the next row. */
  lemma ScanBoxRow(m: array2<int>, i: int, ylo: int, yhi: int, xlo: int, xhi: int)
    requires ScanBox(m, i, m.Length1, ylo, yhi, xlo, xhi)
    ensures ScanBox(m, i + 1, 0, ylo, yhi, xlo, xhi)
  {
    assert forall r, c :: 0 <= c < m.Length1 ==> (ScannedBefore(r, c, i, m.Length1) <==> ScannedBefore(r, c, i + 1, 0));
  }

  /** Dark cells of row i of the array left of column j. */
  function RowCellsDark(m: array2<int>, i: int, j: int): nat
    reads m
    requires 0 <= i < m.Length0 && 0 <= j <= m.Length1
  {
    if j == 0 then 0 else RowCellsDark(m, i, j - 1) + (if IsDark(m[i, j - 1]) then 1 else 0)
  }

  /** Dark cells of the array above row i. */
  function CellsDark(m: array2<int>, i: int): nat
    reads m
    requires 0 <= i <= m.Length0
  {
    if i == 0 then 0 else CellsDark(m, i - 1) + RowCellsDark(m, i - 1, m.Length1)
  }

  lemma {:induction false} RowCellsDarkView(m: array2<int>, i: int, j: int)
    requires 0 <= i < m.Length0 && 0 <= j <= m.Length1
    ensures RowCellsDark(m, i, j) == RowDark(View(m)[i][..j])
  {
    if j > 0 {
      RowCellsDarkView(m, i, j - 1);
      assert View(m)[i][..j][..j - 1] == View(m)[i][..j - 1];
    }
  }

  lemma {:induction false} CellsDarkView(m: array2<int>, i: int)
    requires 0 <= i <= m.Length0
    ensures CellsDark(m, i) == GridDark(View(m)[..i])
  {
    if i > 0 {
      CellsDarkView(m, i - 1);
      RowCellsDarkView(m, i - 1, m.Length1);
      assert View(m)[..i][..i - 1] == View(m)[..i - 1];
      assert View(m)[i - 1][..m.Length1] == View(m)[i - 1];
    }
  }

  /** The running count and min/max of tighten_bubble's counting loop. */
  datatype Tally = Tally(count: int, ylo: int, yhi: int, xlo: int, xhi: int)

  /** Take in cell (i, j): a dark cell is counted and widens the box. */
  function Take(t: Tally, i: int, j: int, dark: bool): Tally
  {
    if dark then Tally(t.count + 1, Min(i, t.ylo), Max(i, t.yhi), Min(j, t.xlo), Max(j, t.xhi)) else t
  }

  /** The tally after scanning row i up to column j, starting from `t`. */
  function RowTally(m: array2<int>, i: int, j: int, t: Tally): Tally
    reads m
    requires 0 <= i < m.Length0 && 0 <= j <= m.Length1
  {
    if j == 0 then t else Take(RowTally(m, i, j - 1, t), i, j - 1, IsDark(m[i, j - 1]))
  }

  /** The tally after scanning the rows above row i, starting from the empty box. */
  function GridTally(m: array2<int>, i: int): Tally
    reads m
    requires 0 <= i <= m.Length0
  {
    if i == 0 then Tally(0, m.Length0, -1, m.Length1, -1)
    else RowTally(m, i - 1, m.Length1, GridTally(m, i - 1))
  }

  /** The counting loop of tighten_bubble: the number of dark cells and their bounding box. */
  method DarkScan(m: array2<int>) returns (count: int, ylo: int, yhi: int, xlo: int, xhi: int)
    ensures count == GridDark(View(m))
    ensures DarkBox(View(m), m.Length0, m.Length1, ylo, yhi, xlo, xhi)
    ensures 0 <= ylo && -1 <= yhi < m.Length0 && 0 <= xlo && -1 <= xhi < m.Length1
  {
    xlo, xhi, ylo, yhi := m.Length1, -1, m.Length0, -1;
    count := 0;
    var i := 0;
    while i < m.Length0
      invariant 0 <= i <= m.Length0
      invariant Tally(count, ylo, yhi, xlo, xhi) == GridTally(m, i)
    {
      count, ylo, yhi, xlo, xhi := ScanRow(m, i, count, ylo, yhi, xlo, xhi);
      i := i + 1;
    }
    GridTallyScan(m, m.Length0);
    DarkScanDone(m, count, ylo, yhi, xlo, xhi);
  }

  /** One row of tighten_bubble's counting loop. */
  method ScanRow(m: array2<int>, i: int, count0: int, ylo0: int, yhi0: int, xlo0: int, xhi0: int)
    returns (count: int, ylo: int, yhi: int, xlo: int, xhi: int)
    requires 0 <= i < m.Length0
    ensures Tally(count, ylo, yhi, xlo, xhi) == RowTally(m, i, m.Length1, Tally(count0, ylo0, yhi0, xlo0, xhi0))
  {
    count, ylo, yhi, xlo, xhi := count0, ylo0, yhi0, xlo0, xhi0;
    var j := 0;
    while j < m.Length1
      invariant 0 <= j <= m.Length1
      invariant Tally(count, ylo, yhi, xlo, xhi) == RowTally(m, i, j, Tally(count0, ylo0, yhi0, xlo0, xhi0))
    {
      if m[i, j] <= BLACK_COLOR {
        count, ylo, yhi, xlo, xhi := count + 1, Min(i, ylo), Max(i, yhi), Min(j, xlo), Max(j, xhi);
      }
      j := j + 1;
    }
  }

  /** Scanning row i keeps the running state of the count and box. */
  lemma {:induction false} RowTallyScan(m: array2<int>, i: int, j: int, t: Tally)
    requires 0 <= i < m.Length0 && 0 <= j <= m.Length1
    requires ScanState(m, i, 0, t.count, t.ylo, t.yhi, t.xlo, t.xhi)
    ensures var r := RowTally(m, i, j, t); ScanState(m, i, j, r.count, r.ylo, r.yhi, r.xlo, r.xhi)
  {
    if j > 0 {
      RowTallyScan(m, i, j - 1, t);
      RowTallyStep(m, i, j - 1, t);
    }
  }

  /** One more cell of the row tally. */
  lemma RowTallyStep(m: array2<int>, i: int, j: int, t: Tally)
    requires 0 <= i < m.Length0 && 0 <= j < m.Length1
    requires var r := RowTally(m, i, j, t); ScanState(m, i, j, r.count, r.ylo, r.yhi, r.xlo, r.xhi)
    ensures var r := RowTally(m, i, j + 1, t); ScanState(m, i, j + 1, r.count, r.ylo, r.yhi, r.xlo, r.xhi)
  {
    ScanStateTake(m, i, j, RowTally(m, i, j, t));
  }

  /** The tally of the rows above row i counts their dark cells and boxes them. */
  lemma {:induction false} GridTallyScan(m: array2<int>, i: int)
    requires 0 <= i <= m.Length0
    ensures var t := GridTally(m, i); t.count == CellsDark(m, i) && ScanBox(m, i, 0, t.ylo, t.yhi, t.xlo, t.xhi)
  {
    if i > 0 {
      GridTallyScan(m, i - 1);
      var t := GridTally(m, i - 1);
      RowTallyScan(m, i - 1, m.Length1, t);
      var r := RowTally(m, i - 1, m.Length1, t);
      ScanStateRow(m, i - 1, r.count, r.ylo, r.yhi, r.xlo, r.xhi);
    }
  }

  /** The counting loop's state after the last row gives the count and box of the whole grid. */
  lemma DarkScanDone(m: array2<int>, count: int, ylo: int, yhi: int, xlo: int, xhi: int)
    requires count == CellsDark(m, m.Length0) && ScanBox(m, m.Length0, 0, ylo, yhi, xlo, xhi)
    ensures count == GridDark(View(m))
    ensures DarkBox(View(m), m.Length0, m.Length1, ylo, yhi, xlo, xhi)
    ensures 0 <= ylo && -1 <= yhi < m.Length0 && 0 <= xlo && -1 <= xhi < m.Length1
  {
    CellsDarkView(m, m.Length0);
    assert View(m)[..m.Length0] == View(m);
    ScanBoxDone(m, ylo, yhi, xlo, xhi);
  }

  /** The counting loop's state inside row i before column j. */
  ghost predicate ScanState(m: array2<int>, i: int, j: int, count: int, ylo: int, yhi: int, xlo: int, xhi: int)
    reads m
  {
    0 <= i < m.Length0 && 0 <= j <= m.Length1 &&
    count == CellsDark(m, i) + RowCellsDark(m, i, j) && ScanBox(m, i, j, ylo, yhi, xlo, xhi)
  }

  /** Taking in one more cell of row i keeps the running state. */
  lemma ScanStateTake(m: array2<int>, i: int, j: int, t: Tally)
    requires ScanState(m, i, j, t.count, t.ylo, t.yhi, t.xlo, t.xhi) && j < m.Length1
    ensures var r := Take(t, i, j, IsDark(m[i, j])); ScanState(m, i, j + 1, r.count, r.ylo, r.yhi, r.xlo, r.xhi)
  {
    ScanBoxStep(m, i, j, t.ylo, t.yhi, t.xlo, t.xhi);
  }

  lemma ScanStateRow(m: array2<int>, i: int, count: int, ylo: int, yhi: int, xlo: int, xhi: int)
    requires ScanState(m, i, m.Length1, count, ylo, yhi, xlo, xhi)
    ensures count == CellsDark(m, i + 1) && ScanBox(m, i + 1, 0, ylo, yhi, xlo, xhi)
  {
    ScanBoxRow(m, i, ylo, yhi, xlo, xhi);
  }

  /** A finished scan has found the bounding box of the whole grid. */
  lemma ScanBoxDone(m: array2<int>, ylo: int, yhi: int, xlo: int, xhi: int)
    requires ScanBox(m, m.Length0, 0, ylo, yhi, xlo, xhi)
    ensures DarkBox(View(m), m.Length0, m.Length1, ylo, yhi, xlo, xhi)
  {
    var g := View(m);
    assert forall r, c :: 0 <= r < m.Length0 ==> ScannedBefore(r, c, m.Length0, 0);
    if 0 <= ylo < m.Length0 {
      var c :| 0 <= c < m.Length1 && ScannedBefore(ylo, c, m.Length0, 0) && IsDark(m[ylo, c]);
      assert IsDark(g[ylo][c]);
    }
    if 0 <= yhi < m.Length0 {
      var c :| 0 <= c < m.Length1 && ScannedBefore(yhi, c, m.Length0, 0) && IsDark(m[yhi, c]);
      assert IsDark(g[yhi][c]);
    }
    if 0 <= xlo < m.Length1 {
      var r :| 0 <= r < m.Length0 && ScannedBefore(r, xlo, m.Length0, 0) && IsDark(m[r, xlo]);
      assert IsDark(g[r][xlo]);
    }
    if 0 <= xhi < m.Length1 {
      var r :| 0 <= r < m.Length0 && ScannedBefore(r, xhi, m.Length0, 0) && IsDark(m[r, xhi]);
      assert IsDark(g[r][xhi]);
    }
  }

  /** The low edge of the crop: BUBBLE_MARGIN before the dark box, or 0 when that would fall off the grid. */
  function Lower(v: int): int
  {
    if v >= BUBBLE_MARGIN then v - BUBBLE_MARGIN else 0
  }

  /**
   * The high edge of the crop: BUBBLE_MARGIN past the dark box, or 0 (not the last index) when that
   * would fall off a grid of n cells.
   */
  function Upper(v: int, n: int): int
  {
    if v < n - BUBBLE_MARGIN then v + BUBBLE_MARGIN else 0
  }

  /** Number of indices in the inclusive range lo..hi. */
  function Span(lo: int, hi: int): nat
  {
    if hi < lo then 0 else hi - lo + 1
  }

  /**
   * `crop`, placed at (offY, offX), is what tighten_bubble cuts from the h-by-w grid `g`: the dark
   * cells' bounding box `box`, widened by BUBBLE_MARGIN on each side, high edges reset to 0 where the
   * margin would leave the grid.
   */
  ghost predicate CropOf(g: Grid, h: int, w: int, box: Boundary, crop: array2<int>, offY: int, offX: int)
    reads crop
  {
    && Rect(g, h, w)
    && DarkBox(g, h, w, box.ymin, box.ymax, box.xmin, box.xmax)
    && offY == Lower(box.ymin) && offX == Lower(box.xmin)
    && crop.Length0 == Span(offY, Upper(box.ymax, h)) && crop.Length1 == Span(offX, Upper(box.xmax, w))
    && (forall r, c :: 0 <= r < crop.Length0 && 0 <= c < crop.Length1 ==>
          0 <= r + offY < h && 0 <= c + offX < w && crop[r, c] == g[r + offY][c + offX])
  }

  /**
   * tighten_bubble: count the dark cells, take their bounding box, widen it by BUBBLE_MARGIN and
   * crop the grid to it. The crop's origin in the grid is (ymin, xmin).
   */
  method TightenBubble(m: array2<int>) returns (crop: array2<int>, count: int, ymin: int, xmin: int, ghost box: Boundary)
    requires m.Length0 > 0 && m.Length1 > 0
    ensures count == GridDark(View(m))
    ensures CropOf(View(m), m.Length0, m.Length1, box, crop, ymin, xmin)
  {
    var y0, y1, x0, x1;
    count, y0, y1, x0, x1 := DarkScan(m);
    box := Boundary(y0, y1, x0, x1);
    xmin := if x0 >= BUBBLE_MARGIN then x0 - BUBBLE_MARGIN else 0;
    var xmax := if x1 < m.Length1 - BUBBLE_MARGIN then x1 + BUBBLE_MARGIN else 0;
    ymin := if y0 >= BUBBLE_MARGIN then y0 - BUBBLE_MARGIN else 0;
    var ymax := if y1 < m.Length0 - BUBBLE_MARGIN then y1 + BUBBLE_MARGIN else 0;
    crop := Crop(m, ymin, ymax, xmin, xmax);
    CropMatches(m, box, crop, ymin, xmin);
  }

  /** A crop of the array at the margin-widened dark box is the crop of its view. */
  lemma CropMatches(m: array2<int>, box: Boundary, crop: array2<int>, offY: int, offX: int)
    requires m.Length0 > 0 && m.Length1 > 0
    requires DarkBox(View(m), m.Length0, m.Length1, box.ymin, box.ymax, box.xmin, box.xmax)
    requires offY == Lower(box.ymin) && offX == Lower(box.xmin)
    requires crop.Length0 == Span(offY, Upper(box.ymax, m.Length0)) && crop.Length1 == Span(offX, Upper(box.xmax, m.Length1))
    requires forall r, c :: 0 <= r < crop.Length0 && 0 <= c < crop.Length1 ==> crop[r, c] == m[r + offY, c + offX]
    ensures CropOf(View(m), m.Length0, m.Length1, box, crop, offY, offX)
  {
    forall r, c | 0 <= r < crop.Length0 && 0 <= c < crop.Length1
      ensures 0 <= r + offY < m.Length0 && 0 <= c + offX < m.Length1 && crop[r, c] == View(m)[r + offY][c + offX]
    {
      assert r + offY <= Upper(box.ymax, m.Length0) && c + offX <= Upper(box.xmax, m.Length1);
    }
  }

  /** The cells of rows ymin..ymax and columns xmin..xmax, as a new grid. */
  method Crop(m: array2<int>, ymin: int, ymax: int, xmin: int, xmax: int) returns (crop: array2<int>)
    requires 0 <= ymin && ymax < m.Length0 && 0 <= xmin && xmax < m.Length1
    ensures crop.Length0 == Span(ymin, ymax) && crop.Length1 == Span(xmin, xmax)
    ensures forall r, c :: 0 <= r < crop.Length0 && 0 <= c < crop.Length1 ==> crop[r, c] == m[r + ymin, c + xmin]
  {
    crop := new int[Span(ymin, ymax), Span(xmin, xmax)]((r, c) reads m =>
      if 0 <= r + ymin < m.Length0 && 0 <= c + xmin < m.Length1 then m[r + ymin, c + xmin] else 0);
  }

  /**
   * When the dark box ends more than BUBBLE_MARGIN rows above the bottom, the crop's last row is the
   * one BUBBLE_MARGIN below the box and holds no dark cell; otherwise the bottom edge is reset to row
   * 0 and the crop has at most one row.
   */
  lemma CropLastRow(g: Grid, h: int, w: int, box: Boundary, crop: array2<int>, offY: int, offX: int)
    requires CropOf(g, h, w, box, crop, offY, offX)
    ensures box.ymax < h - BUBBLE_MARGIN && crop.Length0 > 0 ==>
      crop.Length0 - 1 + offY == box.ymax + BUBBLE_MARGIN &&
      forall r, c :: r == crop.Length0 - 1 && 0 <= c < crop.Length1 ==> !IsDark(crop[r, c])
    ensures box.ymax >= h - BUBBLE_MARGIN ==> crop.Length0 <= 1
    ensures box.xmax >= w - BUBBLE_MARGIN ==> crop.Length1 <= 1
  {
    if box.ymax < h - BUBBLE_MARGIN && crop.Length0 > 0 {
      forall r, c | r == crop.Length0 - 1 && 0 <= c < crop.Length1 ensures !IsDark(crop[r, c]) {
        var v := crop[r, c];
        assert 0 <= r + offY < h && 0 <= c + offX < w && v == g[r + offY][c + offX];
      }
    }
  }

  /**
   * When the widened box fits inside the grid, the crop keeps every dark cell, at least
   * BUBBLE_MARGIN cells from the crop's high edges.
   */
  lemma CropKeepsDark(g: Grid, h: int, w: int, box: Boundary, crop: array2<int>, offY: int, offX: int)
    requires CropOf(g, h, w, box, crop, offY, offX)
    requires box.ymax < h - BUBBLE_MARGIN && box.xmax < w - BUBBLE_MARGIN
    ensures forall i, j :: 0 <= i < h && 0 <= j < w && IsDark(g[i][j]) ==>
      0 <= i - offY < crop.Length0 - BUBBLE_MARGIN && 0 <= j - offX < crop.Length1 - BUBBLE_MARGIN &&
      crop[i - offY, j - offX] == g[i][j]
  {
    forall i, j | 0 <= i < h && 0 <= j < w && IsDark(g[i][j])
      ensures 0 <= i - offY < crop.Length0 - BUBBLE_MARGIN && 0 <= j - offX < crop.Length1 - BUBBLE_MARGIN
      ensures crop[i - offY, j - offX] == g[i][j]
    {
      assert box.ymin <= i <= box.ymax && box.xmin <= j <= box.xmax;
      assert crop[i - offY, j - offX] == g[i - offY + offY][j - offX + offX];
    }
  }

  /** The clean bubble of extract_text: background cells set to 255, then thresholded. */
  function Cleaned(page: Grid, b: Boundary, background: set<Cell>): (g: Grid)
    requires BoxInPage(page, b)
    ensures Rect(g, Span(b.ymin, b.ymax), Span(b.xmin, b.xmax))
  {
    seq(b.ymax - b.ymin + 1, r requires 0 <= r <= b.ymax - b.ymin =>
      seq(b.xmax - b.xmin + 1, c requires 0 <= c <= b.xmax - b.xmin =>
        Threshold.Clamp(if (b.ymin + r, b.xmin + c) in background then 255 else page[b.ymin + r][b.xmin + c],
                        WHITE_COLOR, BLACK_COLOR)))
  }

  /** A non-empty rectangle of the page. */
  predicate BoxInPage(page: Grid, b: Boundary)
  {
    0 <= b.ymin <= b.ymax < |page| && 0 <= b.xmin <= b.xmax &&
    forall i :: b.ymin <= i <= b.ymax ==> b.xmax < |page[i]|
  }

  /**
   * extract_text: collect the background reachable from the rectangle's outline outside the white
   * set, paint it white in a copy of the rectangle, threshold the copy and tighten it. The offsets are
   * relative to the rectangle's top-left corner.
   */
  method ExtractText(page: Grid, b: Boundary, white: set<Cell>)
    returns (bubble: array2<int>, count: int, offY: int, offX: int, ghost background: set<Cell>, ghost box: Boundary)
    requires BoxInPage(page, b)
    ensures forall c :: c in background <==> FloodFill.Background(white, b, c)
    ensures FloodFill.BackgroundSound(white, b, background)
    ensures forall e :: FloodFill.OnEdge(e, b) && FloodFill.Open(white, b, e) ==> FloodFill.BorderClosed(white, b, background, e)
    ensures count == GridDark(Cleaned(page, b, background))
    ensures CropOf(Cleaned(page, b, background), Span(b.ymin, b.ymax), Span(b.xmin, b.xmax), box, bubble, offY, offX)
  {
    var bg := FloodFill.MarkBackground(white, b);
    background := bg;
    var h, w := b.ymax - b.ymin + 1, b.xmax - b.xmin + 1;
    var clean := new int[h, w]((r, c) =>
      if 0 <= r < h && 0 <= c < w then
        (if (b.ymin + r, b.xmin + c) in bg then 255 else page[b.ymin + r][b.xmin + c])
      else 0);
    Threshold.ApplyThreshold(clean, WHITE_COLOR, BLACK_COLOR);
    assert View(clean) == Cleaned(page, b, background) by {
      var g, g' := View(clean), Cleaned(page, b, background);
      assert forall r :: 0 <= r < h ==> g[r] == g'[r];
    }
    bubble, count, offY, offX, box := TightenBubble(clean);
  }
}
