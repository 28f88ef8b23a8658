/** `processImage` of main.js: inverting the colour channels of an RGBA buffer in place. */
module Invert {

  /** A byte of the image buffer (a Node.js Buffer holds 0..255). */
  newtype byte = b: int | 0 <= b < 256

  /**
   * The buffer after inversion: the red, green and blue bytes of the first width*height pixels
   * become 255 minus their value; alpha bytes and any bytes past the pixels keep theirs.
   */
  function Inverted(s: seq<byte>, width: nat, height: nat): (r: seq<byte>)
    ensures |r| == |s|
  {
    InvertedBelow(s, 4 * (width * height))
  }

  /** The colour bytes before offset n inverted, every other byte kept. */
  function InvertedBelow(s: seq<byte>, n: int): (r: seq<byte>)
    ensures |r| == |s|
  {
    seq(|s|, i requires 0 <= i < |s| => if i < n && i % 4 < 3 then 255 - s[i] else s[i])
  }

  /** Inverting twice restores the buffer. */
  lemma InvertedTwice(s: seq<byte>, width: nat, height: nat)
    ensures Inverted(Inverted(s, width, height), width, height) == s
  {
    var t := Inverted(s, width, height);
    var u := Inverted(t, width, height);
    forall i | 0 <= i < |s| ensures u[i] == s[i] {
      assert t[i] == (if i < 4 * (width * height) && i % 4 < 3 then 255 - s[i] else s[i]);
    }
  }

  /** For pixel (x, y), byte k of the pixel, at 4*(width*y + x) + k, is inverted for the colours k < 3 and kept for alpha. */
  lemma InvertedPixel(s: seq<byte>, width: nat, height: nat, x: nat, y: nat, k: nat)
    requires x < width && y < height && k < 4 && 4 * (width * y + x) + k < |s|
    ensures Inverted(s, width, height)[4 * (width * y + x) + k] ==
            if k < 3 then 255 - s[4 * (width * y + x) + k] else s[4 * (width * y + x) + k]
  {
    PixelInside(width, height, x, y);
    Mod4(width * y + x, k);
  }

  /** Pixel (x, y) of a width-by-height image comes before pixel number width*height. */
  lemma PixelInside(width: nat, height: nat, x: nat, y: nat)
    requires x < width && y < height
    ensures width * y + x < width * height
  {
    assert width * y + x < width * y + width == width * (y + 1);
    assert width * (y + 1) <= width * height;
  }

  lemma Mod4(p: nat, k: nat)
    requires k < 4
    ensures (4 * p + k) % 4 == k
  {
  }

  /**
   * processImage: for every pixel in row-major order, replace each colour byte at
   * idx = (width*y + x) << 2 by 255 minus itself; writes past the end of the buffer are dropped,
   * as a typed array drops them.
   */
  method ProcessImage(data: array<byte>, width: nat, height: nat)
    requires 4 * (width * height) <= 0x8000_0000
    modifies data
    ensures data[..] == Inverted(old(data[..]), width, height)
  {
    ghost var s := data[..];
    var y := 0;
    while y < height
      invariant 0 <= y <= height
      invariant data[..] == InvertedBelow(s, 4 * (width * y))
    {
      var x := 0;
      while x < width
        invariant 0 <= x <= width
        invariant data[..] == InvertedBelow(s, 4 * (width * y + x))
      {
        PixelInside(width, height, x, y);
        Mod4(width * y + x, 0);
        var idx := Shl2(width * y + x);
        InvertPixel(data, idx, s);
        x := x + 1;
      }
      assert width * y + width == width * (y + 1);
      y := y + 1;
    }
  }

  /** JavaScript's `v << 2` on a number: shift the low 32 bits and read the result as a signed 32-bit integer. */
  function Shl2(v: int): (r: int)
    ensures 0 <= v && 4 * v < 0x8000_0000 ==> r == 4 * v
  {
    var u := (4 * v) % 0x1_0000_0000;
    if u >= 0x8000_0000 then u - 0x1_0000_0000 else u
  }

  /** The three colour writes of one pixel at byte offset idx, each dropped when it falls outside the buffer. */
  method InvertPixel(data: array<byte>, idx: int, ghost s: seq<byte>)
    requires 0 <= idx && idx % 4 == 0 && |s| == data.Length && data[..] == InvertedBelow(s, idx)
    modifies data
    ensures data[..] == InvertedBelow(s, idx + 4)
  {
    if idx < data.Length {
      data[idx] := 255 - data[idx];
    }
    if idx + 1 < data.Length {
      data[idx + 1] := 255 - data[idx + 1];
    }
    if idx + 2 < data.Length {
      data[idx + 2] := 255 - data[idx + 2];
    }
    forall i | 0 <= i < data.Length ensures data[i] == InvertedBelow(s, idx + 4)[i] {
      if idx <= i < idx + 4 {
        Mod4(idx / 4, i - idx);
      }
    }
  }
}
