/** Binarisation of a bubble grid: `apply_threshold`. */
module Threshold {

  /**
   * The value one cell takes: first a value at or above `white` becomes 255,
   * then a value (possibly that 255) at or below `black` becomes 0.
   */
  function Clamp(v: int, white: int, black: int): int
  {
    var v1 := if v >= white then 255 else v;
    if v1 <= black then 0 else v1
  }

  /** With the thresholds ordered, a cell goes white, black or stays as it was. */
  lemma ClampCases(v: int, white: int, black: int)
    requires black < white <= 255 && black < 255
    ensures v >= white ==> Clamp(v, white, black) == 255
    ensures v <= black ==> Clamp(v, white, black) == 0
    ensures black < v < white ==> Clamp(v, white, black) == v
  {
  }

  /** Clamping twice is clamping once. */
  lemma ClampIdempotent(v: int, white: int, black: int)
    requires 0 < white <= 255 && black < white
    ensures Clamp(Clamp(v, white, black), white, black) == Clamp(v, white, black)
  {
  }

  /** apply_threshold: clamp every cell of the grid in place. */
  method ApplyThreshold(m: array2<int>, white: int, black: int)
    modifies m
    ensures forall i, j :: 0 <= i < m.Length0 && 0 <= j < m.Length1 ==>
              m[i, j] == Clamp(old(m[i, j]), white, black)
  {
    var i := 0;
    while i < m.Length0
      invariant 0 <= i <= m.Length0
      invariant forall r, c :: 0 <= r < i && 0 <= c < m.Length1 ==> m[r, c] == Clamp(old(m[r, c]), white, black)
      invariant forall r, c :: i <= r < m.Length0 && 0 <= c < m.Length1 ==> m[r, c] == old(m[r, c])
    {
      var j := 0;
      while j < m.Length1
        invariant 0 <= j <= m.Length1
        invariant forall r, c :: 0 <= r < i && 0 <= c < m.Length1 ==> m[r, c] == Clamp(old(m[r, c]), white, black)
        invariant forall c :: 0 <= c < j ==> m[i, c] == Clamp(old(m[i, c]), white, black)
        invariant forall r, c :: i <= r < m.Length0 && 0 <= c < m.Length1 && (r > i || c >= j) ==> m[r, c] == old(m[r, c])
      {
        if m[i, j] >= white {
          m[i, j] := 255;
        }
        if m[i, j] <= black {
          m[i, j] := 0;
        }
        j := j + 1;
      }
      i := i + 1;
    }
  }
}
