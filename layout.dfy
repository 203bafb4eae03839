/** The contents of an Image as a sequence of pixels: how a coordinate is
    addressed, what a read or a write does to the sequence, the pixels a
    sub-image or an imported bitmap ends up with, and the B,G,R,A byte
    layout of the bitmap export. */
module Layout {
  import opened Pixels

  /** Number of slots an image of the given size allocates: one extra row
      and one extra column beyond the addressed pixels. */
  function Allocation(w: nat, h: nat): (n: nat)
    ensures w * h < n
  {
    assert (h + 1) * (w + 1) == w * h + w + h + 1;
    (h + 1) * (w + 1)
  }

  /** The linear offset of pixel (x, y) in an image of width w. */
  function Offset(w: nat, x: nat, y: nat): (o: nat) { y * w + x }

  /** Multiplication by a natural number is monotonic. */
  lemma {:induction false} MulMonotone(a: nat, b: nat, w: nat)
    requires a <= b
    ensures a * w <= b * w
  {
    if a < b {
      MulMonotone(a, b - 1, w);
      assert (b - 1) * w + w == b * w;
    }
  }

  /** An in-range coordinate addresses a slot below w * h, hence inside the
      allocation. */
  lemma OffsetInRange(w: nat, h: nat, x: nat, y: nat)
    requires x < w && y < h
    ensures Offset(w, x, y) < w * h < Allocation(w, h)
  {
    assert Offset(w, x, y) < y * w + w == (y + 1) * w;
    MulMonotone(y + 1, h, w);
  }

  /** Distinct in-range coordinates address distinct slots. */
  lemma OffsetInjective(w: nat, x1: nat, y1: nat, x2: nat, y2: nat)
    requires x1 < w && x2 < w
    requires Offset(w, x1, y1) == Offset(w, x2, y2)
    ensures x1 == x2 && y1 == y2
  {
    if y1 < y2 {
      MulMonotone(y1 + 1, y2, w);
    } else if y2 < y1 {
      MulMonotone(y2 + 1, y1, w);
    }
  }

  /** The coordinate of a slot is recovered from its offset by division
      and remainder. */
  lemma OffsetCoords(w: nat, x: nat, y: nat)
    requires x < w
    ensures Offset(w, x, y) % w == x && Offset(w, x, y) / w == y
  {
    var i := Offset(w, x, y);
    assert i == Offset(w, i % w, i / w);
    OffsetInjective(w, i % w, i / w, x, y);
  }

  /** Every slot below w * h is the offset of exactly the in-range
      coordinate (i % w, i / w). */
  lemma OffsetCovers(w: nat, h: nat, i: nat)
    requires i < w * h
    ensures w > 0 && i % w < w && i / w < h && Offset(w, i % w, i / w) == i
  {
    assert w > 0;
    assert i == Offset(w, i % w, i / w);
    if i / w >= h {
      MulMonotone(h, i / w, w);
    }
  }

  /** GetPixel on contents `data` of a w x h image: the stored pixel for an
      in-range coordinate, the sentinel Empty for any other. */
  function ReadAt(data: seq<Pixel>, w: nat, h: nat, x: nat, y: nat): (p: Pixel)
    requires w * h <= |data|
  {
    if x < w && y < h then
      OffsetInRange(w, h, x, y);
      data[Offset(w, x, y)]
    else
      Empty
  }

  /** An in-range read is the stored slot. */
  lemma ReadInRange(data: seq<Pixel>, w: nat, h: nat, x: nat, y: nat)
    requires w * h <= |data| && x < w && y < h
    ensures Offset(w, x, y) < |data| && ReadAt(data, w, h, x, y) == data[Offset(w, x, y)]
  {
    OffsetInRange(w, h, x, y);
  }

  /** SetPixel on contents `data` of an image of width w: the slot of
      (x, y) becomes the composite of what it held and p. */
  function WriteAt(data: seq<Pixel>, w: nat, h: nat, x: nat, y: nat, p: Pixel): (s: seq<Pixel>)
    requires w * h <= |data| && x < w && y < h
    ensures |s| == |data|
  {
    OffsetInRange(w, h, x, y);
    data[Offset(w, x, y) := Composite(data[Offset(w, x, y)], p)]
  }

  /** Reads outside the image never fail: they yield the sentinel. */
  lemma ReadOutside(data: seq<Pixel>, w: nat, h: nat, x: nat, y: nat)
    requires w * h <= |data|
    requires !(x < w && y < h)
    ensures ReadAt(data, w, h, x, y) == Empty
  {
  }

  /** An opaque pixel or the empty marker is stored verbatim and read back
      unchanged. */
  lemma ReadAfterWriteVerbatim(data: seq<Pixel>, w: nat, h: nat, x: nat, y: nat, p: Pixel)
    requires w * h <= |data| && x < w && y < h
    requires p.A == 255 || IsEmptyMarker(p)
    ensures ReadAt(WriteAt(data, w, h, x, y, p), w, h, x, y) == p
  {
    OffsetInRange(w, h, x, y);
  }

  /** A fully transparent pixel changes nothing at all. */
  lemma WriteTransparent(data: seq<Pixel>, w: nat, h: nat, x: nat, y: nat, p: Pixel)
    requires w * h <= |data| && x < w && y < h
    requires p.A == 0
    ensures WriteAt(data, w, h, x, y, p) == data
  {
  }

  /** In the blend case the slot ends up opaque, each colour channel between
      the old and the new value. */
  lemma WriteBlend(data: seq<Pixel>, w: nat, h: nat, x: nat, y: nat, p: Pixel)
    requires w * h <= |data| && x < w && y < h
    requires 0 < p.A < 255 && !IsEmptyMarker(p)
    ensures var d, r := ReadAt(data, w, h, x, y), ReadAt(WriteAt(data, w, h, x, y, p), w, h, x, y);
      r.A == 255 && Between(r.R, p.R, d.R) && Between(r.G, p.G, d.G) && Between(r.B, p.B, d.B)
  {
    OffsetInRange(w, h, x, y);
    var o := Offset(w, x, y);
    assert ReadAt(data, w, h, x, y) == data[o];
    assert ReadAt(WriteAt(data, w, h, x, y, p), w, h, x, y) == Composite(data[o], p);
    CompositeCases(data[o], p);
  }

  /** A write changes at most the slot of its own coordinate: the length,
      every other slot, and the pixel at every other coordinate are kept. */
  lemma WriteFrame(data: seq<Pixel>, w: nat, h: nat, x: nat, y: nat, p: Pixel, x': nat, y': nat)
    requires w * h <= |data| && x < w && y < h
    requires x' != x || y' != y
    ensures forall i :: 0 <= i < |data| && i != Offset(w, x, y) ==> WriteAt(data, w, h, x, y, p)[i] == data[i]
    ensures ReadAt(WriteAt(data, w, h, x, y, p), w, h, x', y') == ReadAt(data, w, h, x', y')
  {
    OffsetInRange(w, h, x, y);
    if x' < w && y' < h {
      OffsetInRange(w, h, x', y');
      if Offset(w, x', y') == Offset(w, x, y) {
        OffsetInjective(w, x', y', x, y);
      }
      assert ReadAt(data, w, h, x', y') == data[Offset(w, x', y')];
    }
  }

  /** Every slot of the allocation holds c after Clear(c). */
  function Filled(n: nat, c: Pixel): (s: seq<Pixel>)
    ensures |s| == n && forall i :: 0 <= i < n ==> s[i] == c
  {
    seq(n, _ => c)
  }

  /** After Clear(c) every in-range read yields c, whatever c's alpha. */
  lemma ReadFilled(w: nat, h: nat, c: Pixel, x: nat, y: nat)
    requires x < w && y < h
    ensures ReadAt(Filled(Allocation(w, h), c), w, h, x, y) == c
  {
    OffsetInRange(w, h, x, y);
  }

  /** The C# cast `(uint)v` of an `int`: v reinterpreted modulo 2^32. */
  function ToUint32(v: int): (u: uint32) {
    (v % 0x1_0000_0000) as uint32
  }

  /** For a 32-bit v and a bound that fits in an `int`, the cast value is
      below the bound exactly when v lies in [0, bound): a negative v casts
      to a value of at least 2^31. */
  lemma ToUint32Below(v: int, bound: nat)
    requires IsInt32(v) && bound <= MaxInt32
    ensures ToUint32(v) as int < bound <==> 0 <= v < bound
  {
    if v < 0 {
      assert ToUint32(v) as int == v + 0x1_0000_0000;
    }
  }

  /** The source pixel SubImage reads for destination pixel (dx, dy):
      the pixel at (loc.X + dx, loc.Y + dy), each coordinate cast to `uint`. */
  function CropSource(data: seq<Pixel>, w: nat, h: nat, loc: Vec2, dx: nat, dy: nat): (p: Pixel)
    requires w * h <= |data|
  {
    ReadAt(data, w, h, ToUint32(loc.X + dx) as nat, ToUint32(loc.Y + dy) as nat)
  }

  /** The pixels of f laid out row by row, w to a row, for the first
      `rows` rows: pixel (x, y) at offset y * w + x. */
  function Tabulate(w: nat, rows: nat, f: (nat, nat) -> Pixel): (s: seq<Pixel>)
    ensures |s| == rows * w
    decreases rows
  {
    if rows == 0 then []
    else
      assert rows * w == (rows - 1) * w + w;
      Tabulate(w, rows - 1, f) + seq(w, x requires 0 <= x < w => f(x, rows - 1))
  }

  /** Where slot y * w + x falls when the first `rows` rows are split into
      the rows before the last and the last. */
  lemma RowOfOffset(w: nat, rows: nat, x: nat, y: nat)
    requires x < w && y < rows
    ensures Offset(w, x, y) < rows * w
    ensures y < rows - 1 ==> Offset(w, x, y) < (rows - 1) * w
    ensures y == rows - 1 ==> Offset(w, x, y) == (rows - 1) * w + x
  {
    assert Offset(w, x, y) < (y + 1) * w;
    MulMonotone(y + 1, rows, w);
    if y < rows - 1 {
      MulMonotone(y + 1, rows - 1, w);
    }
  }

  /** The layout puts pixel (x, y) of f at offset y * w + x. */
  lemma {:induction false} TabulateAt(w: nat, rows: nat, f: (nat, nat) -> Pixel, x: nat, y: nat)
    requires x < w && y < rows
    ensures Offset(w, x, y) < rows * w
    ensures Tabulate(w, rows, f)[Offset(w, x, y)] == f(x, y)
    decreases rows
  {
    var prev := Tabulate(w, rows - 1, f);
    var row := seq(w, x requires 0 <= x < w => f(x, rows - 1));
    var o := Offset(w, x, y);
    assert Tabulate(w, rows, f) == prev + row;
    RowOfOffset(w, rows, x, y);
    if y < rows - 1 {
      TabulateAt(w, rows - 1, f, x, y);
      assert (prev + row)[o] == prev[o] == f(x, y);
    } else {
      assert (prev + row)[o] == row[x] == f(x, y);
    }
  }

  /** Destination pixel (dx, dy) of SubImage from `loc`: its source pixel
      written over the zero default. */
  function CropPixels(data: seq<Pixel>, w: nat, h: nat, loc: Vec2): (f: (nat, nat) -> Pixel)
    requires w * h <= |data|
  {
    (dx: nat, dy: nat) => Composite(Zero, CropSource(data, w, h, loc, dx, dy))
  }

  /** The contents of the image SubImage(loc, size) returns: its sh rows,
      filled in row order, followed by the slack, which keeps the zero
      default. */
  function Cropped(data: seq<Pixel>, w: nat, h: nat, loc: Vec2, sw: nat, sh: nat): (s: seq<Pixel>)
    requires w * h <= |data|
    ensures |s| == Allocation(sw, sh)
  {
    Tabulate(sw, sh, CropPixels(data, w, h, loc)) + Filled(Allocation(sw, sh) - sw * sh, Zero)
  }

  /** The slack of a sub-image keeps the zero default. */
  lemma CroppedSlack(data: seq<Pixel>, w: nat, h: nat, loc: Vec2, sw: nat, sh: nat)
    requires w * h <= |data|
    ensures forall i :: sw * sh <= i < Allocation(sw, sh) ==> Cropped(data, w, h, loc, sw, sh)[i] == Zero
  {
  }

  /** The slot of destination pixel (dx, dy) holds its source pixel over
      the default. */
  lemma CroppedIndex(data: seq<Pixel>, w: nat, h: nat, loc: Vec2, sw: nat, sh: nat, dx: nat, dy: nat)
    requires w * h <= |data| && dx < sw && dy < sh
    ensures Offset(sw, dx, dy) < sw * sh
    ensures Cropped(data, w, h, loc, sw, sh)[Offset(sw, dx, dy)] == Composite(Zero, CropSource(data, w, h, loc, dx, dy))
  {
    TabulateAt(sw, sh, CropPixels(data, w, h, loc), dx, dy);
  }

  /** Proof helper: equal signed coordinates cast to the same `uint`. */
  lemma SameCoordinate(a: int, b: int)
    requires a == b
    ensures ToUint32(a) == ToUint32(b)
  {
  }

  /** Proof helper that unfolds CropSource: the source pixel of destination
      pixel (dx, dy) is the one at the source coordinate (sx, sy) the loop
      holds. */
  lemma CropSourceAt(data: seq<Pixel>, w: nat, h: nat, loc: Vec2, dx: nat, dy: nat, sx: int, sy: int)
    requires w * h <= |data|
    requires sx == loc.X + dx && sy == loc.Y + dy
    ensures CropSource(data, w, h, loc, dx, dy) == ReadAt(data, w, h, ToUint32(sx) as nat, ToUint32(sy) as nat)
  {
    SameCoordinate(loc.X + dx, sx);
    SameCoordinate(loc.Y + dy, sy);
  }

  /** A signed coordinate outside the image, cast to `uint` as GetPixel's
      caller does, still reads the sentinel: a negative value wraps to at
      least 2^31, beyond any width or height. */
  lemma ReadWrappedOutside(data: seq<Pixel>, w: nat, h: nat, vx: int, vy: int)
    requires w * h <= |data| && w <= MaxInt32 && h <= MaxInt32
    requires IsInt32(vx) && IsInt32(vy)
    requires !(0 <= vx < w && 0 <= vy < h)
    ensures ReadAt(data, w, h, ToUint32(vx) as nat, ToUint32(vy) as nat) == Empty
  {
    var ux, uy := ToUint32(vx) as nat, ToUint32(vy) as nat;
    if !(0 <= vx < w) {
      ToUint32Below(vx, w);
      assert !(ux < w);
    } else {
      ToUint32Below(vy, h);
      assert !(uy < h);
    }
    ReadOutside(data, w, h, ux, uy);
  }

  /** Pixel (dx, dy) of a sub-image is its source pixel written over the
      default. */
  lemma CroppedRead(data: seq<Pixel>, w: nat, h: nat, loc: Vec2, sw: nat, sh: nat, dx: nat, dy: nat)
    requires w * h <= |data|
    requires dx < sw && dy < sh
    ensures ReadAt(Cropped(data, w, h, loc, sw, sh), sw, sh, dx, dy) == Composite(Zero, CropSource(data, w, h, loc, dx, dy))
  {
    ReadInRange(Cropped(data, w, h, loc, sw, sh), sw, sh, dx, dy);
    CroppedIndex(data, w, h, loc, sw, sh, dx, dy);
  }

  /** A source pixel written over the zero default: the sentinel when the
      source coordinate lies outside the source image, and an opaque source
      pixel unchanged. */
  lemma SourceOverZero(data: seq<Pixel>, w: nat, h: nat, loc: Vec2, dx: nat, dy: nat)
    requires w * h <= |data| && w <= MaxInt32 && h <= MaxInt32
    requires IsInt32(loc.X + dx) && IsInt32(loc.Y + dy)
    ensures var src := CropSource(data, w, h, loc, dx, dy);
      && (!(0 <= loc.X + dx < w && 0 <= loc.Y + dy < h) ==> Composite(Zero, src) == Empty)
      && (src.A == 255 ==> Composite(Zero, src) == src)
  {
    var src := CropSource(data, w, h, loc, dx, dy);
    if !(0 <= loc.X + dx < w && 0 <= loc.Y + dy < h) {
      ReadWrappedOutside(data, w, h, loc.X + dx, loc.Y + dy);
      assert src == Empty;
      EmptyMarkerIsSentinel(src);
    }
    CompositeCases(Zero, src);
  }

  /** Pixel (dx, dy) of a sub-image is the source pixel at (loc.X + dx,
      loc.Y + dy) written over the default; a source coordinate outside the
      source image gives the sentinel, and an opaque source pixel is copied
      exactly. */
  lemma CroppedAt(data: seq<Pixel>, w: nat, h: nat, loc: Vec2, sw: nat, sh: nat, dx: nat, dy: nat)
    requires w * h <= |data| && w <= MaxInt32 && h <= MaxInt32
    requires dx < sw && dy < sh
    requires IsInt32(loc.X + dx) && IsInt32(loc.Y + dy)
    ensures var src := CropSource(data, w, h, loc, dx, dy);
      var dst := ReadAt(Cropped(data, w, h, loc, sw, sh), sw, sh, dx, dy);
      && dst == Composite(Zero, src)
      && (!(0 <= loc.X + dx < w && 0 <= loc.Y + dy < h) ==> dst == Empty)
      && (src.A == 255 ==> dst == src)
  {
    CroppedRead(data, w, h, loc, sw, sh, dx, dy);
    SourceOverZero(data, w, h, loc, dx, dy);
  }

  /** The contents of the image the bitmap import produces from the
      bitmap's pixels `bitmap`, listed row by row: each addressed slot is the
      composite of its bitmap pixel over the zero default, and the slack
      keeps the default. */
  function Imported(bitmap: seq<Pixel>, w: nat, h: nat): (s: seq<Pixel>)
    requires |bitmap| == w * h
    ensures |s| == Allocation(w, h)
  {
    seq(Allocation(w, h), i requires 0 <= i < Allocation(w, h) =>
      if i < w * h then Composite(Zero, bitmap[i]) else Zero)
  }

  /** The bytes of the bitmap export: B, G, R, A of each pixel in turn. */
  function Bgra(px: seq<Pixel>): (bytes: seq<byte>)
    ensures |bytes| == 4 * |px|
  {
    if px == [] then [] else [px[0].B, px[0].G, px[0].R, px[0].A] + Bgra(px[1..])
  }

  /** Pixels from B,G,R,A bytes: what a 32-bit ARGB bitmap reports for the
      bytes in its buffer. */
  function Unpack(bytes: seq<byte>): (px: seq<Pixel>)
    requires |bytes| % 4 == 0
    ensures |px| == |bytes| / 4
  {
    if bytes == [] then [] else [Pixel(bytes[2], bytes[1], bytes[0], bytes[3])] + Unpack(bytes[4..])
  }

  /** A byte sequence with the export's length and the export's layout,
      pixel d at bytes 4d to 4d + 3, is the export. */
  lemma {:induction false} BgraOfLayout(bytes: seq<byte>, px: seq<Pixel>)
    requires |bytes| == 4 * |px|
    requires forall d :: 0 <= d < |px| ==>
      bytes[4 * d] == px[d].B && bytes[4 * d + 1] == px[d].G && bytes[4 * d + 2] == px[d].R && bytes[4 * d + 3] == px[d].A
    ensures bytes == Bgra(px)
  {
    if px != [] {
      assert bytes[0] == px[0].B && bytes[1] == px[0].G && bytes[2] == px[0].R && bytes[3] == px[0].A;
      var rest, tail := bytes[4..], px[1..];
      forall d | 0 <= d < |tail|
        ensures rest[4 * d] == tail[d].B && rest[4 * d + 1] == tail[d].G
        ensures rest[4 * d + 2] == tail[d].R && rest[4 * d + 3] == tail[d].A
      {
        assert tail[d] == px[d + 1];
        assert 4 * (d + 1) == 4 * d + 4;
      }
      BgraOfLayout(rest, tail);
      assert bytes == [bytes[0], bytes[1], bytes[2], bytes[3]] + rest;
    }
  }

  /** Pixel d occupies bytes 4d (blue) to 4d + 3 (alpha) of the export. */
  lemma {:induction false} BgraAt(px: seq<Pixel>, d: nat)
    requires d < |px|
    ensures Bgra(px)[4 * d] == px[d].B && Bgra(px)[4 * d + 1] == px[d].G
    ensures Bgra(px)[4 * d + 2] == px[d].R && Bgra(px)[4 * d + 3] == px[d].A
  {
    if d > 0 {
      BgraAt(px[1..], d - 1);
    }
  }

  /** Reading the exported bytes back gives the pixels exactly. */
  lemma {:induction false} UnpackBgra(px: seq<Pixel>)
    ensures Unpack(Bgra(px)) == px
  {
    if px != [] {
      var b := Bgra(px);
      assert b[4..] == Bgra(px[1..]);
      UnpackBgra(px[1..]);
    }
  }

  /** Exporting unpacked bytes gives the bytes exactly. */
  lemma {:induction false} BgraUnpack(bytes: seq<byte>)
    requires |bytes| % 4 == 0
    ensures Bgra(Unpack(bytes)) == bytes
  {
    if bytes != [] {
      var px := Unpack(bytes);
      assert px[1..] == Unpack(bytes[4..]);
      BgraUnpack(bytes[4..]);
    }
  }

  /** Export followed by import reproduces every addressed pixel of an image
      whose addressed pixels are all opaque. */
  lemma RoundTripOpaque(px: seq<Pixel>, w: nat, h: nat)
    requires |px| == w * h
    requires forall i :: 0 <= i < |px| ==> px[i].A == 255
    ensures Imported(Unpack(Bgra(px)), w, h)[..w * h] == px
  {
    UnpackBgra(px);
  }

  /** The round trip is not the identity for a translucent pixel: the
      import blends it over the zero default, so it comes back opaque. */
  lemma RoundTripTranslucent(px: seq<Pixel>, w: nat, h: nat, i: nat)
    requires |px| == w * h && i < w * h
    requires 0 < px[i].A < 255 && !IsEmptyMarker(px[i])
    ensures Imported(Unpack(Bgra(px)), w, h)[i].A == 255
    ensures Imported(Unpack(Bgra(px)), w, h)[i] != px[i]
  {
    UnpackBgra(px);
    CompositeCases(Zero, px[i]);
  }
}
