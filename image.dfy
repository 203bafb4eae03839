/** The Image class: a fixed-size pixel buffer with fail-soft reads,
    compositing writes, clearing, sub-image extraction and conversion to
    and from a 32-bit B,G,R,A bitmap buffer. */
module Images {
  import opened Pixels
  import opened Layout

  /** True when the bitmap import, having finished every column before x
      and the first y rows of column x, has already written slot i. */
  predicate ImportedBefore(w: nat, i: nat, x: nat, y: nat)
    requires w > 0
  {
    i % w < x || (i % w == x && i / w < y)
  }

  /** s is what the bitmap import has written by the time it reaches
      column x, row y: the slots already visited hold their bitmap pixel
      over the zero default, every other slot the default. */
  ghost predicate ImportedUpTo(s: seq<Pixel>, bitmap: seq<Pixel>, w: nat, h: nat, x: nat, y: nat) {
    && |bitmap| == w * h && |s| == Allocation(w, h)
    && (forall i :: 0 <= i < w * h ==>
          s[i] == if ImportedBefore(w, i, x, y) then Composite(Zero, bitmap[i]) else Zero)
    && (forall i :: w * h <= i < |s| ==> s[i] == Zero)
  }

  /** Writing bitmap pixel (x, y) advances the import by one row. */
  lemma ImportStep(s: seq<Pixel>, bitmap: seq<Pixel>, w: nat, h: nat, x: nat, y: nat)
    requires ImportedUpTo(s, bitmap, w, h, x, y) && x < w && y < h
    ensures Offset(w, x, y) < w * h
    ensures ImportedUpTo(WriteAt(s, w, h, x, y, bitmap[Offset(w, x, y)]), bitmap, w, h, x, y + 1)
  {
    OffsetInRange(w, h, x, y);
    OffsetCoords(w, x, y);
    var o := Offset(w, x, y);
    var s' := WriteAt(s, w, h, x, y, bitmap[o]);
    forall i | 0 <= i < w * h
      ensures s'[i] == if ImportedBefore(w, i, x, y + 1) then Composite(Zero, bitmap[i]) else Zero
    {
      OffsetCovers(w, h, i);
      if i != o {
        assert ImportedBefore(w, i, x, y + 1) == ImportedBefore(w, i, x, y);
      }
    }
  }

  /** A finished column moves the import to the top of the next one. */
  lemma ImportNextColumn(s: seq<Pixel>, bitmap: seq<Pixel>, w: nat, h: nat, x: nat)
    requires ImportedUpTo(s, bitmap, w, h, x, h)
    ensures ImportedUpTo(s, bitmap, w, h, x + 1, 0)
  {
    forall i | 0 <= i < w * h
      ensures s[i] == if ImportedBefore(w, i, x + 1, 0) then Composite(Zero, bitmap[i]) else Zero
    {
      NextColumnVisited(w, h, i, x);
    }
  }

  /** Slot i counts as visited at the top of column x + 1 exactly when it
      did at the bottom of column x. */
  lemma NextColumnVisited(w: nat, h: nat, i: nat, x: nat)
    requires i < w * h
    ensures w > 0 && ImportedBefore(w, i, x + 1, 0) == ImportedBefore(w, i, x, h)
  {
    OffsetCovers(w, h, i);
  }

  /** After the last column every addressed slot has been written. */
  lemma ImportDone(s: seq<Pixel>, bitmap: seq<Pixel>, w: nat, h: nat)
    requires ImportedUpTo(s, bitmap, w, h, w, 0)
    ensures s == Imported(bitmap, w, h)
  {
    forall i | 0 <= i < w * h
      ensures ImportedBefore(w, i, w, 0)
    {
      OffsetCovers(w, h, i);
    }
  }

  /** The first k slots of s agree with target and the rest hold the zero
      default: SubImage has written its first k destination pixels. */
  ghost predicate FilledUpTo(s: seq<Pixel>, target: seq<Pixel>, k: nat) {
    |s| == |target| && forall i :: 0 <= i < |s| ==> s[i] == if i < k then target[i] else Zero
  }

  /** Compositing target's next pixel over the default in slot k advances
      FilledUpTo by one slot. */
  lemma FilledUpToStep(s: seq<Pixel>, target: seq<Pixel>, k: nat, p: Pixel)
    requires FilledUpTo(s, target, k) && k < |s|
    requires target[k] == Composite(Zero, p)
    ensures FilledUpTo(s[k := Composite(s[k], p)], target, k + 1)
  {
  }

  /** Once every slot from k on holds the zero default in target as well,
      FilledUpTo means s is target. */
  lemma FilledUpToDone(s: seq<Pixel>, target: seq<Pixel>, k: nat)
    requires FilledUpTo(s, target, k)
    requires forall i :: k <= i < |target| ==> target[i] == Zero
    ensures s == target
  {
  }

  /** Writing destination pixel (dx, dy) of the sub-image c, with the pixel p
      GetPixel returns at source coordinate (x, y), advances FilledUpTo by
      one slot. */
  lemma CropStep(before: seq<Pixel>, after: seq<Pixel>, c: seq<Pixel>, src: seq<Pixel>, p: Pixel,
                 w: nat, h: nat, loc: Vec2, sw: nat, sh: nat, k: nat, dx: nat, dy: nat, x: int, y: int)
    requires w * h <= |src| && dx < sw && dy < sh
    requires x == loc.X + dx && y == loc.Y + dy && k == Offset(sw, dx, dy)
    requires c == Cropped(src, w, h, loc, sw, sh) && FilledUpTo(before, c, k)
    requires p == ReadAt(src, w, h, ToUint32(x) as nat, ToUint32(y) as nat)
    requires after == WriteAt(before, sw, sh, dx, dy, p)
    ensures FilledUpTo(after, c, k + 1)
  {
    CroppedIndex(src, w, h, loc, sw, sh, dx, dy);
    CropSourceAt(src, w, h, loc, dx, dy, x, y);
    FilledUpToStep(before, c, k, p);
  }

  class Image {
    /** The size of the image, fixed at construction. */
    const Width: nat
    const Height: nat

    /** The pixels, row by row, pixel (x, y) at offset y * Width + x, in an
        array with one row and one column of slack. */
    const Data: array<Pixel>

    /** The allocation has the size the constructor gives it. */
    ghost predicate Valid() {
      Data.Length == Allocation(Width, Height)
    }

    /** A width x height image whose (height + 1) * (width + 1) slots all hold
        the zero default. */
    constructor (width: nat, height: nat)
      ensures Valid() && Width == width && Height == height
      ensures fresh(Data) && Data[..] == Filled(Allocation(width, height), Zero)
    {
      Width := width;
      Height := height;
      Data := new Pixel[Allocation(width, height)](_ => Zero);
      new;
      assert Data[..] == Filled(Allocation(width, height), Zero);
    }

    /** Overwrites every slot, the slack included, with color, bypassing the
        compositing rule. */
    method Clear(color: Pixel)
      requires Valid()
      modifies Data
      ensures Data[..] == Filled(Data.Length, color)
      ensures forall x: uint32, y: uint32 :: (x as int) < Width && (y as int) < Height ==> GetPixel(x, y) == color
    {
      var i := 0;
      while i < Data.Length
        invariant 0 <= i <= Data.Length
        invariant forall k :: 0 <= k < i ==> Data[k] == color
      {
        Data[i] := color;
        i := i + 1;
      }
      assert Data[..] == Filled(Data.Length, color);
      forall x: uint32, y: uint32 | (x as int) < Width && (y as int) < Height
        ensures GetPixel(x, y) == color
      {
        ReadFilled(Width, Height, color, x as nat, y as nat);
      }
    }

    /** The pixel at (x, y), or the sentinel Empty outside the image. */
    function GetPixel(x: uint32, y: uint32): (p: Pixel)
      reads Data
      requires Valid()
      ensures p == ReadAt(Data[..], Width, Height, x as nat, y as nat)
    {
      if (x as int) < Width && (y as int) < Height then
        OffsetInRange(Width, Height, x as nat, y as nat);
        Data[y as int * Width + x as int]
      else
        Empty
    }

    /** Composites p onto the pixel at the in-range coordinate (x, y):
        only that slot can change. */
    method SetPixel(x: uint32, y: uint32, p: Pixel)
      requires Valid() && (x as int) < Width && (y as int) < Height
      modifies Data
      ensures Data[..] == WriteAt(old(Data[..]), Width, Height, x as nat, y as nat, p)
      ensures forall i :: 0 <= i < Data.Length && i != Offset(Width, x as nat, y as nat) ==> Data[i] == old(Data[i])
    {
      OffsetInRange(Width, Height, x as nat, y as nat);
      var o := y as int * Width + x as int;
      if p.A != 255 {
        if p.A == 1 && p.R as int + p.G as int + p.B as int == 0 {
          Data[o] := p;
        } else if p.A != 0 {
          var cur := Data[o];
          Data[o] := Pixel(BlendChannel(p.R, cur.R, p.A), BlendChannel(p.G, cur.G, p.A), BlendChannel(p.B, cur.B, p.A), 255);
        }
      } else {
        Data[o] := p;
      }
    }

    /** A new size.X x size.Y image whose pixel (dx, dy) is this image's
        pixel at (loc.X + dx, loc.Y + dy), read fail-soft and written through
        SetPixel over the zero default. */
    method SubImage(loc: Vec2, size: Vec2) returns (img: Image)
      requires Valid()
      requires 0 <= size.X <= MaxInt32 && 0 <= size.Y <= MaxInt32
      ensures fresh(img) && fresh(img.Data) && img.Valid()
      ensures img.Width == size.X && img.Height == size.Y
      ensures img.Data[..] == Cropped(Data[..], Width, Height, loc, size.X, size.Y)
    {
      var sw, sh := size.X, size.Y;
      img := new Image(sw, sh);
      ghost var src := Data[..];
      ghost var c := Cropped(src, Width, Height, loc, sw, sh);
      ghost var k := 0;
      var y := loc.Y;
      while y < loc.Y + sh
        invariant loc.Y <= y <= loc.Y + sh
        invariant fresh(img.Data)
        invariant Data[..] == src
        invariant k == (y - loc.Y) * sw
        invariant FilledUpTo(img.Data[..], c, k)
        decreases loc.Y + sh - y
      {
        var x := loc.X;
        while x < loc.X + sw
          invariant loc.X <= x <= loc.X + sw
          invariant fresh(img.Data)
          invariant Data[..] == src
          invariant k == (y - loc.Y) * sw + (x - loc.X)
          invariant FilledUpTo(img.Data[..], c, k)
          decreases loc.X + sw - x
        {
          var dx, dy := x - loc.X, y - loc.Y;
          var p := GetPixel(ToUint32(x), ToUint32(y));
          assert p == ReadAt(src, Width, Height, ToUint32(x) as nat, ToUint32(y) as nat);
          ghost var before := img.Data[..];
          img.SetPixel(dx as uint32, dy as uint32, p);
          assert img.Data[..] == WriteAt(before, sw, sh, dx, dy, p);
          CropStep(before, img.Data[..], c, src, p, Width, Height, loc, sw, sh, k, dx, dy, x, y);
          k := k + 1;
          x := x + 1;
        }
        assert k == (y + 1 - loc.Y) * sw;
        y := y + 1;
      }
      assert k == sw * sh;
      CroppedSlack(src, Width, Height, loc, sw, sh);
      FilledUpToDone(img.Data[..], c, k);
    }

    /** The bitmap export: the B, G, R and A bytes of each addressed pixel,
        in offset order. */
    method ToBitmap() returns (bytes: seq<byte>)
      requires Valid()
      ensures bytes == Bgra(Data[..Width * Height])
      ensures forall d :: 0 <= d < Width * Height ==>
        bytes[4 * d] == Data[d].B && bytes[4 * d + 1] == Data[d].G &&
        bytes[4 * d + 2] == Data[d].R && bytes[4 * d + 3] == Data[d].A
    {
      var len := Width * Height;
      ghost var px := Data[..len];
      var rgbValues := new byte[4 * len];
      var d, ind := 0, 0;
      while d < len
        invariant 0 <= d <= len && ind == 4 * d
        invariant forall j :: 0 <= j < d ==>
          rgbValues[4 * j] == px[j].B && rgbValues[4 * j + 1] == px[j].G &&
          rgbValues[4 * j + 2] == px[j].R && rgbValues[4 * j + 3] == px[j].A
      {
        rgbValues[ind] := Data[d].B;
        ind := ind + 1;
        rgbValues[ind] := Data[d].G;
        ind := ind + 1;
        rgbValues[ind] := Data[d].R;
        ind := ind + 1;
        rgbValues[ind] := Data[d].A;
        ind := ind + 1;
        d := d + 1;
      }
      bytes := rgbValues[..];
      BgraOfLayout(bytes, px);
    }

    /** The bitmap import: a width x height image onto which every bitmap
        pixel, given row by row as the bitmap reports it, is written through
        SetPixel, column by column. */
    static method FromBitmap(width: nat, height: nat, bitmap: seq<Pixel>) returns (img: Image)
      requires width <= MaxInt32 && height <= MaxInt32
      requires |bitmap| == width * height
      ensures fresh(img) && fresh(img.Data) && img.Valid()
      ensures img.Width == width && img.Height == height
      ensures img.Data[..] == Imported(bitmap, width, height)
    {
      img := new Image(width, height);
      var x := 0;
      while x < width
        invariant 0 <= x <= width
        invariant fresh(img.Data)
        invariant ImportedUpTo(img.Data[..], bitmap, width, height, x, 0)
      {
        var y := 0;
        while y < height
          invariant 0 <= y <= height
          invariant fresh(img.Data)
          invariant ImportedUpTo(img.Data[..], bitmap, width, height, x, y)
        {
          ImportStep(img.Data[..], bitmap, width, height, x, y);
          img.SetPixel(x as uint32, y as uint32, bitmap[y * width + x]);
          y := y + 1;
        }
        ImportNextColumn(img.Data[..], bitmap, width, height, x);
        x := x + 1;
      }
      ImportDone(img.Data[..], bitmap, width, height);
    }
  }
}
