/** Value types of the graphics library: bytes, 32-bit unsigned coordinates,
    RGBA pixels, integer points, and the rule by which Image.SetPixel
    composites a new pixel over the one already stored. */
module Pixels {

  /** An unsigned 8-bit channel value. */
  newtype byte = b: int | 0 <= b < 0x100

  /** The C# `uint` that GetPixel and SetPixel take as coordinates. */
  newtype uint32 = n: int | 0 <= n < 0x1_0000_0000

  /** Bounds of the C# `int` that Width, Height and Vec2 components use. */
  const MinInt32: int := -0x8000_0000
  const MaxInt32: int := 0x7FFF_FFFF

  predicate IsInt32(v: int) { MinInt32 <= v <= MaxInt32 }

  /** A colour with red, green, blue and alpha channels. */
  datatype Pixel = Pixel(R: byte, G: byte, B: byte, A: byte)

  /** A pair of integers, used for locations and sizes. */
  datatype Vec2 = Vec2(X: int, Y: int)

  /** The pixel `new Pixel(true)`: alpha 1 and no colour. GetPixel returns
      it outside the image, and SetPixel stores it verbatim to empty a pixel. */
  const Empty: Pixel := Pixel(0, 0, 0, 1)

  /** The default value of a pixel slot in a freshly allocated array:
      every channel 0. */
  const Zero: Pixel := Pixel(0, 0, 0, 0)

  /** The test SetPixel uses to recognise the empty marker: alpha 1 and a
      channel sum (computed in `int`, so it cannot wrap) of 0. */
  predicate IsEmptyMarker(p: Pixel) {
    p.A == 1 && p.R as int + p.G as int + p.B as int == 0
  }

  /** The empty marker test accepts exactly one pixel, the sentinel. */
  lemma EmptyMarkerIsSentinel(p: Pixel)
    ensures IsEmptyMarker(p) <==> p == Empty
  {
  }

  /** `lo <= c <= hi` with the two bounds in either order. */
  predicate Between(c: byte, a: byte, b: byte) {
    (a <= b ==> a <= c <= b) && (b <= a ==> b <= c <= a)
  }

  /** Dividing by 255 keeps a number that lies between 255 * lo and 255 * hi
      between lo and hi. */
  lemma DivideBounds(n: int, lo: int, hi: int)
    requires 255 * lo <= n <= 255 * hi
    ensures lo <= n / 255 <= hi
  {
  }

  lemma ScaledWeightBounds(k: int, w: int)
    requires 0 <= k && 0 <= w <= 255
    ensures 0 <= k * w <= k * 255
  {
  }

  /** The integer weighted mean of two channel values lies between them. */
  lemma WeightedMeanBounds(s: int, d: int, a: int)
    requires 0 <= s && 0 <= d && 0 <= a <= 255
    ensures var v := (s * a + d * (255 - a)) / 255;
      (s <= d ==> s <= v <= d) && (d <= s ==> d <= v <= s)
  {
    var n := s * a + d * (255 - a);
    if s <= d {
      // n = 255 * s + (d - s) * (255 - a)
      assert n == 255 * s + (d - s) * (255 - a);
      ScaledWeightBounds(d - s, 255 - a);
      DivideBounds(n, s, d);
    } else {
      // n = 255 * d + (s - d) * a
      assert n == 255 * d + (s - d) * a;
      ScaledWeightBounds(s - d, a);
      DivideBounds(n, d, s);
    }
  }

  /** One colour channel of SetPixel's blend branch: the new value weighted
      by alpha/255 plus the current value weighted by the rest, truncated
      toward zero to a byte. The weighted mean is computed exactly here,
      where the source computes it in `double`. */
  function BlendChannel(src: byte, dst: byte, alpha: byte): (c: byte)
  {
    WeightedMeanBounds(src as int, dst as int, alpha as int);
    ((src as int * alpha as int + dst as int * (255 - alpha as int)) / 255) as byte
  }

  /** A blended channel lies between the new and the current value; full
      alpha gives the new value and zero alpha the current one. */
  lemma BlendChannelBounds(src: byte, dst: byte, alpha: byte)
    ensures Between(BlendChannel(src, dst, alpha), src, dst)
    ensures alpha == 255 ==> BlendChannel(src, dst, alpha) == src
    ensures alpha == 0 ==> BlendChannel(src, dst, alpha) == dst
  {
    WeightedMeanBounds(src as int, dst as int, alpha as int);
  }

  /** What SetPixel leaves in a slot that held `dst` when it is asked to
      write `p`, in the order the source tests the cases. */
  function Composite(dst: Pixel, p: Pixel): (r: Pixel)
  {
    if p.A != 255 then
      if IsEmptyMarker(p) then p
      else if p.A != 0 then
        Pixel(BlendChannel(p.R, dst.R, p.A), BlendChannel(p.G, dst.G, p.A), BlendChannel(p.B, dst.B, p.A), 255)
      else dst
    else p
  }

  /** The outcomes of compositing: an opaque pixel or the empty marker is
      stored verbatim, a fully transparent one leaves the slot alone, and
      any other gives an opaque blend whose channels lie between the new
      and the current ones. */
  lemma CompositeCases(dst: Pixel, p: Pixel)
    ensures p.A == 255 ==> Composite(dst, p) == p
    ensures IsEmptyMarker(p) ==> Composite(dst, p) == p
    ensures p.A == 0 ==> Composite(dst, p) == dst
    ensures p.A != 255 && !IsEmptyMarker(p) && p.A != 0 ==>
      var r := Composite(dst, p);
      r.A == 255 && Between(r.R, p.R, dst.R) && Between(r.G, p.G, dst.G) && Between(r.B, p.B, dst.B)
  {
    if p.A != 255 && !IsEmptyMarker(p) && p.A != 0 {
      BlendChannelBounds(p.R, dst.R, p.A);
      BlendChannelBounds(p.G, dst.G, p.A);
      BlendChannelBounds(p.B, dst.B, p.A);
    }
  }
}
