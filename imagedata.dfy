/** The `ImageData` class of lib/readpng.js: a flat RGBA buffer reshaped into a grid of 4-byte pixels. */
module ReadPng {
  import opened Invert

  /** Buffer.slice(a, b) for 0 <= a <= b: the bytes from a to b, both ends cut back to the buffer's length. */
  function Slice(s: seq<byte>, a: nat, b: nat): (r: seq<byte>)
    requires a <= b
    ensures |r| <= b - a
    ensures b <= |s| ==> r == s[a..b]
  {
    var lo := if a <= |s| then a else |s|;
    var hi := if b <= |s| then b else |s|;
    s[lo..hi]
  }

  /** The bytes of pixel number p, counting row-major. */
  function EntryAt(buf: seq<byte>, p: nat): seq<byte>
  {
    Slice(buf, p * 4, p * 4 + 4)
  }

  /** The bytes of pixel (x, y) of a width-wide image. */
  function Entry(buf: seq<byte>, width: nat, y: nat, x: nat): seq<byte>
  {
    EntryAt(buf, y * width + x)
  }

  /** The entries of the n pixels numbered from o on. */
  function Run(buf: seq<byte>, o: nat, n: nat): (r: seq<seq<byte>>)
    ensures |r| == n && forall i :: 0 <= i < n ==> r[i] == EntryAt(buf, o + i)
  {
    seq(n, i requires 0 <= i < n => EntryAt(buf, o + i))
  }

  /** The first n pixels of row y. */
  function RowPrefix(buf: seq<byte>, width: nat, y: nat, n: nat): (r: seq<seq<byte>>)
    ensures |r| == n && forall x :: 0 <= x < n ==> r[x] == Entry(buf, width, y, x)
  {
    Run(buf, y * width, n)
  }

  /** The first n rows of a width-wide image. */
  function Rows(buf: seq<byte>, width: nat, n: nat): (r: seq<seq<seq<byte>>>)
    ensures |r| == n && forall y :: 0 <= y < n ==> r[y] == RowPrefix(buf, width, y, width)
  {
    seq(n, y requires 0 <= y < n => RowPrefix(buf, width, y, width))
  }

  class ImageData {
    var data: seq<seq<seq<byte>>>
    var width: nat
    var height: nat

    /** new ImageData(png): copy the dimensions and push, row by row, each pixel's 4-byte slice. */
    constructor (pngData: seq<byte>, pngWidth: nat, pngHeight: nat)
      ensures width == pngWidth && height == pngHeight
      ensures data == Rows(pngData, pngWidth, pngHeight)
    {
      data := [];
      width := pngWidth;
      height := pngHeight;
      new;
      var y := 0;
      while y < pngHeight
        invariant 0 <= y <= pngHeight
        invariant width == pngWidth && height == pngHeight
        invariant data == Rows(pngData, pngWidth, y)
      {
        data := data + [[]];
        var x := 0;
        while x < pngWidth
          invariant 0 <= x <= pngWidth
          invariant width == pngWidth && height == pngHeight
          invariant data == Rows(pngData, pngWidth, y) + [RowPrefix(pngData, pngWidth, y, x)]
        {
          var idx := (y * pngWidth + x) * 4;
          assert RowPrefix(pngData, pngWidth, y, x + 1) == RowPrefix(pngData, pngWidth, y, x) + [Slice(pngData, idx, idx + 4)];
          data := data[y := data[y] + [Slice(pngData, idx, idx + 4)]];
          x := x + 1;
        }
        y := y + 1;
      }
    }
  }

  /** The entries of a row, concatenated left to right. */
  function FlatRow(r: seq<seq<byte>>): seq<byte>
  {
    if r == [] then [] else FlatRow(r[..|r| - 1]) + r[|r| - 1]
  }

  /** The rows of a grid, concatenated top to bottom. */
  function Flat(g: seq<seq<seq<byte>>>): seq<byte>
  {
    if g == [] then [] else Flat(g[..|g| - 1]) + FlatRow(g[|g| - 1])
  }

  /** When the buffer holds width*height pixels, each entry is its pixel's 4 bytes. */
  lemma EntryBytes(buf: seq<byte>, width: nat, height: nat, y: nat, x: nat)
    requires 4 * (width * height) <= |buf| && y < height && x < width
    ensures |Entry(buf, width, y, x)| == 4
    ensures forall k :: 0 <= k < 4 ==> Entry(buf, width, y, x)[k] == buf[(y * width + x) * 4 + k]
  {
    PixelInside(width, height, x, y);
    assert y * width == width * y;
  }

  /** The entries of n consecutive pixels read back to back are the bytes they were cut from. */
  lemma {:induction false} RunFlat(buf: seq<byte>, o: nat, n: nat)
    requires (o + n) * 4 <= |buf|
    ensures FlatRow(Run(buf, o, n)) == buf[o * 4 .. (o + n) * 4]
  {
    if n > 0 {
      var a, b, c := o * 4, (o + n - 1) * 4, (o + n) * 4;
      assert FlatRow(Run(buf, o, n - 1)) == buf[a..b] by {
        RunFlat(buf, o, n - 1);
      }
      assert Run(buf, o, n) == Run(buf, o, n - 1) + [buf[b..c]];
      FlatRowAppend(Run(buf, o, n - 1), buf[b..c]);
      ConcatRanges(buf, a, b, c);
    }
  }

  /** Adding an entry at the end of a row adds its bytes at the end of the row's bytes. */
  lemma FlatRowAppend(r: seq<seq<byte>>, e: seq<byte>)
    ensures FlatRow(r + [e]) == FlatRow(r) + e
  {
    assert (r + [e])[..|r|] == r;
  }

  lemma ConcatRanges(s: seq<byte>, a: int, b: int, c: int)
    requires 0 <= a <= b <= c <= |s|
    ensures s[a..b] + s[b..c] == s[a..c]
  {
  }

  /** Reshaping keeps the buffer's order: the grid read row-major is the first 4*width*height bytes. */
  lemma {:induction false} RowsFlatten(buf: seq<byte>, width: nat, height: nat)
    requires 4 * (width * height) <= |buf|
    ensures Flat(Rows(buf, width, height)) == buf[..4 * (width * height)]
    decreases height
  {
    if height > 0 {
      var n := height - 1;
      var lo, hi := 4 * (width * n), 4 * (width * height);
      assert 0 <= lo <= hi <= |buf| && (n * width) * 4 == lo && (n * width + width) * 4 == hi by {
        RowEnds(width, n, height);
      }
      assert Flat(Rows(buf, width, n)) == buf[..lo] by {
        RowsFlatten(buf, width, n);
      }
      assert FlatRow(RowPrefix(buf, width, n, width)) == buf[lo..hi] by {
        RunFlat(buf, n * width, width);
      }
      FlatStep(buf, width, n);
      ConcatSlices(buf, lo, hi);
    }
  }

  /** The grid of n + 1 rows reads as the grid of n rows followed by row n. */
  lemma FlatStep(buf: seq<byte>, width: nat, n: nat)
    ensures Flat(Rows(buf, width, n + 1)) == Flat(Rows(buf, width, n)) + FlatRow(RowPrefix(buf, width, n, width))
  {
    var g := Rows(buf, width, n + 1);
    assert g[..n] == Rows(buf, width, n);
  }

  lemma ConcatSlices(s: seq<byte>, lo: int, hi: int)
    requires 0 <= lo <= hi <= |s|
    ensures s[..lo] + s[lo..hi] == s[..hi]
  {
  }

  /** Row n starts at byte 4*width*n and ends at byte 4*width*(n + 1). */
  lemma RowEnds(width: nat, n: nat, height: nat)
    requires height == n + 1
    ensures (n * width) * 4 == 4 * (width * n) && (n * width + width) * 4 == 4 * (width * height)
    ensures 4 * (width * n) <= 4 * (width * height)
  {
    assert n * width == width * n;
    assert width * height == width * n + width;
  }
}
