/** Gap projection: `mark_gaps` over a whole bubble and `mark_gaps_within_block` inside one block. */
module Gaps {
  import opened TextBlocks

  /** Some cell of row `i` left of column `j` is dark. */
  ghost predicate RowDarkBefore(m: array2<int>, i: int, j: int)
    reads m
  {
    exists c :: 0 <= c < j && c < m.Length1 && 0 <= i < m.Length0 && m[i, c] <= BLACK_COLOR
  }

  /** Some cell of column `j` above row `i` is dark. */
  ghost predicate ColDarkBefore(m: array2<int>, j: int, i: int)
    reads m
  {
    exists r :: 0 <= r < i && r < m.Length0 && 0 <= j < m.Length1 && m[r, j] <= BLACK_COLOR
  }

  /** Row `i` holds a dark (foreground) value. */
  ghost predicate RowHasDark(m: array2<int>, i: int)
    reads m
  {
    RowDarkBefore(m, i, m.Length1)
  }

  /** Column `j` holds a dark (foreground) value. */
  ghost predicate ColHasDark(m: array2<int>, j: int)
    reads m
  {
    ColDarkBefore(m, j, m.Length0)
  }

  /** The first loop of mark_gaps: which rows and which columns hold a dark value. */
  method DarkFlags(m: array2<int>) returns (vert: array<bool>, horz: array<bool>)
    ensures fresh(vert) && fresh(horz)
    ensures vert.Length == m.Length0 && horz.Length == m.Length1
    ensures forall r :: 0 <= r < m.Length0 ==> (vert[r] <==> RowHasDark(m, r))
    ensures forall c :: 0 <= c < m.Length1 ==> (horz[c] <==> ColHasDark(m, c))
  {
    var h, w := m.Length0, m.Length1;
    vert := new bool[h](_ => false);
    horz := new bool[w](_ => false);
    var i := 0;
    while i < h
      invariant 0 <= i <= h
      invariant forall r :: 0 <= r < i ==> (vert[r] <==> RowHasDark(m, r))
      invariant forall r :: i <= r < h ==> !vert[r]
      invariant forall c :: 0 <= c < w ==> (horz[c] <==> ColDarkBefore(m, c, i))
    {
      var j := 0;
      while j < w
        invariant 0 <= j <= w
        invariant forall r :: 0 <= r < i ==> (vert[r] <==> RowHasDark(m, r))
        invariant forall r :: i < r < h ==> !vert[r]
        invariant vert[i] <==> RowDarkBefore(m, i, j)
        invariant forall c :: 0 <= c < j ==> (horz[c] <==> ColDarkBefore(m, c, i + 1))
        invariant forall c :: j <= c < w ==> (horz[c] <==> ColDarkBefore(m, c, i))
      {
        if m[i, j] <= BLACK_COLOR {
          vert[i] := true;
          horz[j] := true;
        }
        j := j + 1;
      }
      i := i + 1;
    }
  }

  /** Whether the row flag or the column flag leaves cell (r, c) without foreground. */
  predicate GapCell(vert: array<bool>, horz: array<bool>, r: int, c: int)
    reads vert, horz
    requires 0 <= r < vert.Length && 0 <= c < horz.Length
  {
    !vert[r] || !horz[c]
  }

  /**
   * mark_gaps: a fresh copy of the bubble in which every cell whose row or whose column
   * has no dark value becomes GAP; the bubble itself is only read.
   */
  method MarkGaps(m: array2<int>) returns (g: array2<int>)
    requires m.Length0 > 0
    ensures fresh(g)
    ensures g.Length0 == m.Length0 && g.Length1 == m.Length1
    ensures forall i, j {:trigger g[i, j]} :: 0 <= i < m.Length0 && 0 <= j < m.Length1 ==>
              g[i, j] == (if !RowHasDark(m, i) || !ColHasDark(m, j) then GAP else m[i, j])
  {
    var h, w := m.Length0, m.Length1;
    var vert, horz := DarkFlags(m);
    assert forall r, c {:trigger GapCell(vert, horz, r, c)} :: 0 <= r < h && 0 <= c < w ==> (GapCell(vert, horz, r, c) <==> !RowHasDark(m, r) || !ColHasDark(m, c));
    var i;
    g := new int[h, w]((r, c) reads m => if 0 <= r < h && 0 <= c < w then m[r, c] else 0);
    i := 0;
    while i < h
      modifies g
      invariant 0 <= i <= h
      invariant forall r, c {:trigger GapCell(vert, horz, r, c)} :: 0 <= r < h && 0 <= c < w ==> (GapCell(vert, horz, r, c) <==> !RowHasDark(m, r) || !ColHasDark(m, c))
      invariant forall r, c {:trigger g[r, c]} :: 0 <= r < h && 0 <= c < w ==>
                  g[r, c] == (if r < i && GapCell(vert, horz, r, c) then GAP else m[r, c])
    {
      var j := 0;
      while j < w
        modifies g
        invariant 0 <= j <= w
        invariant forall r, c {:trigger GapCell(vert, horz, r, c)} :: 0 <= r < h && 0 <= c < w ==> (GapCell(vert, horz, r, c) <==> !RowHasDark(m, r) || !ColHasDark(m, c))
        invariant forall r, c {:trigger g[r, c]} :: 0 <= r < h && 0 <= c < w ==>
                    g[r, c] == (if (r < i || (r == i && c < j)) && GapCell(vert, horz, r, c) then GAP else m[r, c])
      {
        if GapCell(vert, horz, i, j) {
          g[i, j] := GAP;
        }
        j := j + 1;
      }
      i := i + 1;
    }
    forall r, c | 0 <= r < h && 0 <= c < w
      ensures g[r, c] == (if !RowHasDark(m, r) || !ColHasDark(m, c) then GAP else m[r, c])
    {
      assert g[r, c] == (if GapCell(vert, horz, r, c) then GAP else m[r, c]);
    }
  }

  /** A foreground value: dark, and not GAP. */
  predicate IsForeground(v: int)
  {
    0 <= v <= BLACK_COLOR
  }

  /** Some cell of row `i` within columns [b.xmin, j) of grid values `s` is foreground. */
  ghost predicate BlockRowWordBefore(s: seq<seq<int>>, b: TextBlock, i: int, j: int)
  {
    exists c :: b.xmin <= c < j && 0 <= i < |s| && 0 <= c < |s[i]| && IsForeground(s[i][c])
  }

  /** Some cell of column `j` within rows [b.ymin, i) of grid values `s` is foreground. */
  ghost predicate BlockColWordBefore(s: seq<seq<int>>, b: TextBlock, j: int, i: int)
  {
    exists r :: b.ymin <= r < i && 0 <= r < |s| && 0 <= j < |s[r]| && IsForeground(s[r][j])
  }

  /**
   * The value cell (i, j) takes in mark_gaps_within_block, given the grid values `s` before
   * the call: inside the block, a row without foreground is blanked when the block is taller
   * than WORD_BREAK_MIN_LEN, a column without foreground when it is wider.
   */
  ghost function PunchedAt(s: seq<seq<int>>, b: TextBlock, i: int, j: int): int
    requires 0 <= i < |s| && 0 <= j < |s[i]|
  {
    if b.ymin <= i <= b.ymax && b.xmin <= j <= b.xmax &&
       ((b.ylen > WORD_BREAK_MIN_LEN && !BlockRowWordBefore(s, b, i, b.xmax + 1)) ||
        (b.xlen > WORD_BREAK_MIN_LEN && !BlockColWordBefore(s, b, j, b.ymax + 1)))
    then GAP else s[i][j]
  }

  /** The grid values after mark_gaps_within_block punches block `b` into `s`. */
  ghost function Punch(s: seq<seq<int>>, b: TextBlock): (s': seq<seq<int>>)
    ensures |s'| == |s|
    ensures forall i :: 0 <= i < |s| ==> |s'[i]| == |s[i]|
    ensures forall i, j :: 0 <= i < |s| && 0 <= j < |s[i]| ==> s'[i][j] == PunchedAt(s, b, i, j)
  {
    seq(|s|, i requires 0 <= i < |s| => seq(|s[i]|, j requires 0 <= j < |s[i]| => PunchedAt(s, b, i, j)))
  }

  /** The first loop of mark_gaps_within_block: which rows and columns of the block hold foreground. */
  method BlockWordFlags(m: array2<int>, b: TextBlock) returns (vert: array<bool>, horz: array<bool>)
    requires WellFormed(b, m.Length0, m.Length1)
    ensures fresh(vert) && fresh(horz)
    ensures vert.Length == b.ylen && horz.Length == b.xlen
    ensures forall k :: 0 <= k < b.ylen ==> (vert[k] <==> BlockRowWordBefore(Contents(m), b, b.ymin + k, b.xmax + 1))
    ensures forall k :: 0 <= k < b.xlen ==> (horz[k] <==> BlockColWordBefore(Contents(m), b, b.xmin + k, b.ymax + 1))
  {
    ghost var s := Contents(m);
    vert := new bool[b.ylen](_ => false);
    horz := new bool[b.xlen](_ => false);
    var i := b.ymin;
    while i <= b.ymax
      invariant b.ymin <= i <= b.ymax + 1
      invariant forall k :: 0 <= k < i - b.ymin ==> (vert[k] <==> BlockRowWordBefore(s, b, b.ymin + k, b.xmax + 1))
      invariant forall k :: i - b.ymin <= k < b.ylen ==> !vert[k]
      invariant forall k :: 0 <= k < b.xlen ==> (horz[k] <==> BlockColWordBefore(s, b, b.xmin + k, i))
    {
      RowWordFlags(m, b, i, vert, horz);
      forall k | 0 <= k < b.xlen
        ensures horz[k] <==> BlockColWordBefore(s, b, b.xmin + k, i + 1)
      {
        ColWordStep(s, b, b.xmin + k, i);
      }
      i := i + 1;
    }
  }

  /** One row of the first loop of mark_gaps_within_block: sets the row's flag and raises column flags. */
  method RowWordFlags(m: array2<int>, b: TextBlock, i: int, vert: array<bool>, horz: array<bool>)
    requires WellFormed(b, m.Length0, m.Length1) && b.ymin <= i <= b.ymax
    requires vert != horz && vert.Length == b.ylen && horz.Length == b.xlen && !vert[i - b.ymin]
    modifies vert, horz
    ensures forall k :: 0 <= k < b.ylen && k != i - b.ymin ==> vert[k] == old(vert[k])
    ensures vert[i - b.ymin] <==> BlockRowWordBefore(Contents(m), b, i, b.xmax + 1)
    ensures forall k :: 0 <= k < b.xlen ==> (horz[k] <==> old(horz[k]) || IsForeground(m[i, b.xmin + k]))
  {
    ghost var s := Contents(m);
    var j := b.xmin;
    while j <= b.xmax
      invariant b.xmin <= j <= b.xmax + 1
      invariant forall k :: 0 <= k < b.ylen && k != i - b.ymin ==> vert[k] == old(vert[k])
      invariant vert[i - b.ymin] <==> BlockRowWordBefore(s, b, i, j)
      invariant forall k :: 0 <= k < b.xlen ==> (horz[k] <==> old(horz[k]) || (k < j - b.xmin && IsForeground(m[i, b.xmin + k])))
    {
      if m[i, j] <= BLACK_COLOR && m[i, j] >= 0 {
        vert[i - b.ymin] := true;
        horz[j - b.xmin] := true;
      }
      j := j + 1;
    }
  }

  /** Extending a column's window by row `i` adds exactly that row's cell. */
  lemma ColWordStep(s: seq<seq<int>>, b: TextBlock, j: int, i: int)
    requires 0 <= b.ymin <= i < |s| && 0 <= j < |s[i]|
    ensures BlockColWordBefore(s, b, j, i + 1) <==> BlockColWordBefore(s, b, j, i) || IsForeground(s[i][j])
  {
    if BlockColWordBefore(s, b, j, i + 1) {
      var r :| b.ymin <= r < i + 1 && 0 <= r < |s| && 0 <= j < |s[r]| && IsForeground(s[r][j]);
      if r < i {
        assert BlockColWordBefore(s, b, j, i);
      }
    }
  }

  /** Row `r` is blanked by the row pass of mark_gaps_within_block. */
  predicate RowGap(vert: array<bool>, b: TextBlock, r: int)
    reads vert
  {
    0 <= r - b.ymin < vert.Length && b.ylen > WORD_BREAK_MIN_LEN && !vert[r - b.ymin]
  }

  /** A cell of a column the column pass of mark_gaps_within_block blanks. */
  predicate ColumnGap(horz: array<bool>, b: TextBlock, r: int, c: int)
    reads horz
  {
    b.ymin <= r <= b.ymax && 0 <= c - b.xmin < horz.Length && b.xlen > WORD_BREAK_MIN_LEN && !horz[c - b.xmin]
  }

  /** mark_gaps_within_block: punch gap rows and columns into one elongated block, in place. */
  method MarkGapsWithinBlock(m: array2<int>, b: TextBlock)
    requires WellFormed(b, m.Length0, m.Length1)
    modifies m
    ensures Contents(m) == Punch(old(Contents(m)), b)
  {
    ghost var s := Contents(m);
    var vert, horz := BlockWordFlags(m, b);
    assert Contents(m) == s;
    BlankRows(m, b, vert);
    ghost var mid := Contents(m);
    BlankColumns(m, b, horz);
    ghost var s' := Contents(m);
    forall i, j | 0 <= i < m.Length0 && 0 <= j < m.Length1
      ensures s'[i][j] == Punch(s, b)[i][j]
    {
      assert s'[i][j] == if ColumnGap(horz, b, i, j) then GAP else mid[i][j];
      assert mid[i][j] == if b.xmin <= j <= b.xmax && RowGap(vert, b, i) then GAP else s[i][j];
      if b.ymin <= i <= b.ymax {
        assert vert[i - b.ymin] <==> BlockRowWordBefore(s, b, i, b.xmax + 1);
      }
      if b.xmin <= j <= b.xmax {
        assert horz[j - b.xmin] <==> BlockColWordBefore(s, b, j, b.ymax + 1);
      }
      assert Punch(s, b)[i][j] == PunchedAt(s, b, i, j);
    }
    assert forall i :: 0 <= i < m.Length0 ==> s'[i] == Punch(s, b)[i];
  }

  /** The row pass of mark_gaps_within_block: blank, within the block's columns, each row without foreground. */
  method BlankRows(m: array2<int>, b: TextBlock, vert: array<bool>)
    requires WellFormed(b, m.Length0, m.Length1) && vert.Length == b.ylen
    modifies m
    ensures forall r, c :: 0 <= r < m.Length0 && 0 <= c < m.Length1 ==>
              m[r, c] == if b.xmin <= c <= b.xmax && RowGap(vert, b, r) then GAP else old(m[r, c])
  {
    if b.ylen > WORD_BREAK_MIN_LEN {
      var i := b.ymin;
      while i <= b.ymax
        invariant b.ymin <= i <= b.ymax + 1
        invariant forall r, c :: 0 <= r < m.Length0 && 0 <= c < m.Length1 ==>
                    m[r, c] == if r < i && b.xmin <= c <= b.xmax && RowGap(vert, b, r) then GAP else old(m[r, c])
      {
        if !vert[i - b.ymin] {
          var j := b.xmin;
          while j <= b.xmax
            invariant b.xmin <= j <= b.xmax + 1
            invariant forall r, c :: 0 <= r < m.Length0 && 0 <= c < m.Length1 ==>
                        m[r, c] == if ((r < i && RowGap(vert, b, r)) || (r == i && c < j)) && b.xmin <= c <= b.xmax
                                   then GAP else old(m[r, c])
          {
            m[i, j] := GAP;
            j := j + 1;
          }
        }
        i := i + 1;
      }
    }
  }

  /** The column pass of mark_gaps_within_block: blank, within the block's rows, each column without foreground. */
  method BlankColumns(m: array2<int>, b: TextBlock, horz: array<bool>)
    requires WellFormed(b, m.Length0, m.Length1) && horz.Length == b.xlen
    modifies m
    ensures forall r, c :: 0 <= r < m.Length0 && 0 <= c < m.Length1 ==>
              m[r, c] == if ColumnGap(horz, b, r, c) then GAP else old(m[r, c])
  {
    if b.xlen > WORD_BREAK_MIN_LEN {
      var j := b.xmin;
      while j <= b.xmax
        invariant b.xmin <= j <= b.xmax + 1
        invariant forall r, c :: 0 <= r < m.Length0 && 0 <= c < m.Length1 ==>
                    m[r, c] == if c < j && ColumnGap(horz, b, r, c) then GAP else old(m[r, c])
      {
        if !horz[j - b.xmin] {
          var i := b.ymin;
          while i <= b.ymax
            invariant b.ymin <= i <= b.ymax + 1
            invariant forall r, c :: 0 <= r < m.Length0 && 0 <= c < m.Length1 ==>
                        m[r, c] == if (c < j && ColumnGap(horz, b, r, c)) || (c == j && b.ymin <= r < i) then GAP else old(m[r, c])
          {
            m[i, j] := GAP;
            i := i + 1;
          }
        }
        j := j + 1;
      }
    }
  }
}
