# Orvid.Graphics Image: a verified model of the pixel buffer

This project models `Image`, the pixel buffer of the Orvid.Graphics library.
An image is a fixed width and height and a flat array of RGBA pixels. The
array holds `(height + 1) * (width + 1)` slots, one row and one column more
than the image addresses. Pixel `(x, y)` lives at offset `y * width + x`.

The model has three modules:

- `Pixels` (`pixels.dfy`) holds the value types: `byte`, the 32-bit unsigned
  coordinate type `uint32`, the `Pixel` and `Vec2` datatypes, the sentinel
  `Empty = Pixel(0, 0, 0, 1)` and the zero default `Zero`. It also holds
  `Composite`, the four-way rule by which `SetPixel` writes a pixel over the one
  already stored. The cases are tested in the source's order: opaque, empty
  marker, fully transparent, blend.
- `Layout` (`layout.dfy`) describes an image's contents as a `seq<Pixel>`:
  - addressing (`Offset`, `Allocation`), a read (`ReadAt`) and a write (`WriteAt`);
  - the contents a sub-image ends up with (`Cropped`) and the contents an imported bitmap ends up with (`Imported`);
  - the B,G,R,A byte layout of the bitmap export (`Bgra`) and its inverse (`Unpack`).

  The lemmas there state what the source promises about these.
- `Images` (`image.dfy`) is the class `Image`. It has `const` fields `Width`
  and `Height` and a `Data` array that `Clear` and `SetPixel` update in place.
  - `GetPixel` is a function that reads `Data`.
  - `SubImage`, the bitmap export and the bitmap import are methods with the
    source's loops.
  - Each method is proved against the `Layout` function that describes its
    result, through loop invariants (`FilledUpTo`, `ImportedUpTo`) and
    one-step lemmas.

The source's `(uint)` cast of a signed coordinate is modelled as reduction
modulo 2^32 (`ToUint32`). A negative source coordinate therefore reads the
sentinel, just as an over-large one does.

## Model

| member | source | states |
|---|---|---|
| Pixels.IsEmptyMarker | Orvid.Graphics/Image.cs:137 | Defines the empty-marker test: alpha 1 and a channel sum of 0, the sum taken in `int` so that it cannot wrap. |
| Pixels.EmptyMarkerIsSentinel | Orvid.Graphics/Image.cs:137 | The empty-marker test (alpha 1, channel sum 0) accepts exactly the sentinel pixel (0, 0, 0, 1). |
| Pixels.BlendChannel | Orvid.Graphics/Image.cs:145-152 | Defines one blended channel: the new value weighted by alpha / 255 plus the current one weighted by the rest, truncated to a byte. The weighted mean is computed exactly in integers, where the source uses `double` (see Left out). |
| Pixels.BlendChannelBounds | Orvid.Graphics/Image.cs:145-152 | A blended channel of the integer blend lies between the new and the current value. Alpha 255 gives the new value and alpha 0 the current one. |
| Pixels.Composite | Orvid.Graphics/Image.cs:135-161 | Defines what SetPixel leaves in a slot that held d when asked to write p, with the cases in the source's order: p when it is not translucent (alpha 255), p when it is the empty marker, the channel blend with alpha 255 for any other nonzero alpha, and d for alpha 0. |
| Pixels.CompositeCases | Orvid.Graphics/Image.cs:135-161 | Writing p over d stores p when p is opaque or the empty marker, and keeps d when p has alpha 0. Any other p gives an opaque pixel whose channels, under the integer blend, lie between p's and d's. |
| Layout.Allocation | Orvid.Graphics/Image.cs:53 | The allocation is larger than width * height, the number of addressed pixels. |
| Layout.Offset | Orvid.Graphics/Image.cs:118 | Defines the slot of pixel (x, y) as y * width + x, the index SetPixel also uses at lines 141, 146, 149 and 160. |
| Layout.OffsetInRange | Orvid.Graphics/Image.cs:117-118 | An in-range coordinate addresses a slot below width * height, and so inside the allocation. |
| Layout.OffsetInjective | Orvid.Graphics/Image.cs:118 | Two in-range coordinates with the same offset are the same coordinate. |
| Layout.OffsetCovers | Orvid.Graphics/Image.cs:118 | Every slot below width * height is the offset of the in-range coordinate (i % w, i / w). |
| Layout.ReadAt | Orvid.Graphics/Image.cs:115-121 | Defines GetPixel on the contents: the slot at Offset(w, x, y) for x < w and y < h, and the sentinel otherwise. |
| Layout.ReadInRange | Orvid.Graphics/Image.cs:117-118 | An in-range read returns the pixel stored at y * w + x. |
| Layout.ReadOutside | Orvid.Graphics/Image.cs:119-120 | An out-of-range read returns the sentinel instead of failing. |
| Layout.WriteAt | Orvid.Graphics/Image.cs:132-162 | A write keeps the length of the contents. |
| Layout.ReadAfterWriteVerbatim | Orvid.Graphics/Image.cs:135-161 | After writing an opaque pixel (the store at lines 158-161) or the empty marker (lines 137-142), an in-range read at the same coordinate returns exactly that pixel. |
| Layout.WriteTransparent | Orvid.Graphics/Image.cs:143-156 | Writing a pixel with alpha 0 leaves the contents entirely unchanged. |
| Layout.WriteBlend | Orvid.Graphics/Image.cs:143-155 | In the blend case the written slot reads back with alpha 255, and each of its colour channels, under the integer blend, lies between the old and the new value. |
| Layout.WriteFrame | Orvid.Graphics/Image.cs:132-162 | A write changes no slot other than y * w + x, and a read at any other coordinate is unchanged. |
| Layout.Filled | Orvid.Graphics/Image.cs:79-82 | Every slot of the filled contents, the slack included, holds the fill colour. |
| Layout.ReadFilled | Orvid.Graphics/Image.cs:77-83 | After a clear, an in-range read returns the fill colour whatever its alpha. |
| Layout.ToUint32 | Orvid.Graphics/Image.cs:102 | Defines the unchecked `(uint)` cast of a signed coordinate as reduction modulo 2^32. |
| Layout.CropSource | Orvid.Graphics/Image.cs:102 | Defines the source pixel SubImage reads for destination pixel (dx, dy): GetPixel at (loc.X + dx, loc.Y + dy), each coordinate cast to `uint`. |
| Layout.ToUint32Below | Orvid.Graphics/Image.cs:102 | For a 32-bit value and a bound that fits in an int, the cast value is below the bound exactly when the value lies in [0, bound). |
| Layout.TabulateAt | Orvid.Graphics/Image.cs:98-104 | Filling row by row puts destination pixel (x, y) at offset y * w + x. |
| Layout.Cropped | Orvid.Graphics/Image.cs:97 | A sub-image has the allocation of a size.X x size.Y image. |
| Layout.CroppedSlack | Orvid.Graphics/Image.cs:97-104 | A sub-image's slack keeps the zero default, because the loops never write it. |
| Layout.CroppedIndex | Orvid.Graphics/Image.cs:98-104 | The slot of destination pixel (dx, dy) holds its source pixel written over the zero default. |
| Layout.ReadWrappedOutside | Orvid.Graphics/Image.cs:102 | A signed 32-bit coordinate outside the image, cast to `uint`, reads the sentinel; a negative value wraps beyond any width or height. |
| Layout.CroppedRead | Orvid.Graphics/Image.cs:102 | Reading destination pixel (dx, dy) of a sub-image gives its source pixel written over the zero default. |
| Layout.SourceOverZero | Orvid.Graphics/Image.cs:102 | A source pixel outside the source image, written over the default, gives the sentinel. An opaque source pixel is written unchanged. |
| Layout.CroppedAt | Orvid.Graphics/Image.cs:95-106 | Sub-image pixel (dx, dy) is source pixel (loc.X + dx, loc.Y + dy) over the default. It is the sentinel when that source coordinate is out of range, and equals the source pixel when that pixel is opaque. |
| Layout.Imported | Orvid.Graphics/Image.cs:192 | The imported contents have the allocation of a width x height image. |
| Layout.Bgra | Orvid.Graphics/Image.cs:172-183 | The export has four bytes for every pixel. |
| Layout.Unpack | Orvid.Graphics/Image.cs:197 | Unpacking a byte buffer gives one pixel for every four bytes. |
| Layout.BgraOfLayout | Orvid.Graphics/Image.cs:173-183 | A byte sequence of the export's length, with pixel d's B, G, R, A at bytes 4d to 4d + 3, is the export. |
| Layout.BgraAt | Orvid.Graphics/Image.cs:175-182 | Pixel d's B, G, R and A are at bytes 4d, 4d + 1, 4d + 2 and 4d + 3 of the export. |
| Layout.UnpackBgra | Orvid.Graphics/Image.cs:165-201 | Unpacking the exported bytes gives back the pixels exactly. |
| Layout.BgraUnpack | Orvid.Graphics/Image.cs:165-201 | Exporting unpacked bytes gives back the bytes exactly. |
| Layout.RoundTripOpaque | Orvid.Graphics/Image.cs:165-201 | Exporting an image whose pixels are all opaque and importing the bytes reproduces every addressed pixel. |
| Layout.RoundTripTranslucent | Orvid.Graphics/Image.cs:165-201 | For a translucent pixel the round trip is not the identity: the import blends it over the default, so it comes back opaque. |
| Images.ImportStep | Orvid.Graphics/Image.cs:195-198 | Writing bitmap pixel (x, y) through SetPixel advances the import state by one row of column x. |
| Images.ImportNextColumn | Orvid.Graphics/Image.cs:193-199 | A finished column moves the import state to the top of the next column. |
| Images.NextColumnVisited | Orvid.Graphics/Image.cs:193-196 | A slot counts as visited at the top of column x + 1 exactly when it did at the bottom of column x. |
| Images.ImportDone | Orvid.Graphics/Image.cs:193-200 | After the last column the contents are exactly the imported contents. |
| Images.FilledUpToStep | Orvid.Graphics/Image.cs:102 | Writing the next destination pixel over the default advances the sub-image state by one slot. |
| Images.FilledUpToDone | Orvid.Graphics/Image.cs:98-105 | Once only default slots remain, the written contents are the whole sub-image. |
| Images.CropStep | Orvid.Graphics/Image.cs:100-103 | One inner-loop iteration of SubImage, a GetPixel followed by a SetPixel, advances the sub-image state by one slot. |
| Images.Image.Valid | Orvid.Graphics/Image.cs:53 | Defines the object invariant: Data has the (height + 1) * (width + 1) slots the constructor allocates. |
| Images.Image.constructor | Orvid.Graphics/Image.cs:49-55 | Width and Height are the given sizes, and Data is a fresh array of exactly (height + 1) * (width + 1) zero pixels. |
| Images.Image.Clear | Orvid.Graphics/Image.cs:77-83 | Every element of Data, the slack included, becomes the colour, and every in-range GetPixel then returns it. |
| Images.Image.GetPixel | Orvid.Graphics/Image.cs:115-121 | Returns Data[y * Width + x] for an in-range coordinate and the sentinel otherwise. |
| Images.Image.SetPixel | Orvid.Graphics/Image.cs:132-162 | Data becomes the written contents, and every element other than y * Width + x is unchanged. |
| Images.Image.SubImage | Orvid.Graphics/Image.cs:95-106 | Returns a fresh size.X x size.Y image whose contents are exactly the sub-image of this image's contents. |
| Images.Image.ToBitmap | Orvid.Graphics/Image.cs:172-183 | The bytes are the export of the first Width * Height pixels, with Data[d].B, .G, .R and .A at bytes 4d to 4d + 3. |
| Images.Image.FromBitmap | Orvid.Graphics/Image.cs:190-201 | Returns a fresh width x height image whose contents are exactly the imported contents of the bitmap's pixels. |

## Left out

- The `Image(Vec2)` constructor overload (Orvid.Graphics/Image.cs:57-60) only forwards to the two-integer constructor, so `SubImage` calls that constructor directly.
- The `Size` property is left out: it only returns the stored size.
- The finalizer and `Dispose` (Orvid.Graphics/Image.cs:65-74) are runtime memory management. They null the array and force a collection. `Data` is a `const` field here.
- The `Clear`, `GetPixel` and `SetPixel` methods are `virtual` (Orvid.Graphics/Image.cs:77, 115, 132), and `SubImage` calls them through `this` and the new image. The model covers the base class only; a subclass override changes what `SubImage`, the clear and the import produce.
- The `System.Drawing` calls are foreign library code: `Bitmap`, `LockBits`, `Marshal.Copy`, `UnlockBits` and `Bitmap.GetPixel`. Because of this:
  - the export is modelled as the byte sequence the loop writes;
  - the import reads an abstract row-major pixel sequence, with `b.GetPixel(x, y)` as element `y * width + x`.
- Layout.Unpack: it assumes that `b.GetPixel` reports the B, G, R and A bytes stored in a 32bpp ARGB buffer unchanged, with no premultiplication; Layout.RoundTripOpaque and Layout.RoundTripTranslucent rest on that assumption.
- Images.Image.ToBitmap: the buffer is modelled with the row stride of exactly 4 * Width that the 32bpp ARGB format gives it. `new Bitmap(i.Width, i.Height)` (Orvid.Graphics/Image.cs:167) throws for a zero width or height; the model instead returns the empty byte sequence.
- BlendChannel: the source blends in `double` and truncates to a byte. The model computes (src * alpha + dst * (255 - alpha)) / 255 exactly in integers and truncates. The two can differ by one at rounding boundaries: with new and current channel both 3 and alpha 5, the double sum is just below 3 and truncates to 2. The source's value lies in [min - 1, max] of the two channels.
- Pixels.BlendChannelBounds: its Between clause holds of the integer blend only; the source's double blend can land one below the smaller of the two channels, even when they are equal.
- Pixels.CompositeCases: the Between clauses of the blend case hold of the integer blend only, for the same reason; the verbatim, no-op and alpha-255 clauses hold of the source as written.
- Layout.WriteBlend: the Between clauses hold of the integer blend only, for the same reason; the alpha-255 clause holds of the source as written.
- Images.Image.constructor: width and height are natural numbers. A negative size and the 32-bit overflow of (height + 1) * (width + 1) are not modelled. The bound `int` puts on the sizes is not part of `Valid()`, so an export followed by an import can only be written on the model's methods for an image whose caller supplies Width, Height <= 2^31 - 1, as `FromBitmap` requires.
- Images.Image.SetPixel: requires an in-range coordinate, because the source does no check. Out-of-range writes into the slack or beyond the array are not modelled.
- Images.Image.SubImage: requires 0 <= size.X, size.Y <= 2^31 - 1. The loop bounds loc + size are computed without 32-bit wrap-around; in the source an overflowing sum changes how often the loops run.
- Layout.CroppedAt: all three clauses require loc.X + dx and loc.Y + dy to be 32-bit values, as the source's `int` loop variables are, and w, h <= 2^31 - 1, as the source's `int` sizes are. Only the sentinel clause needs these bounds; the first clause, the sub-image pixel as its source pixel over the default, holds with no such bound through Layout.CroppedRead.
- The default value of a `Pixel` array slot is taken to be all channels 0. The `Pixel` type is not part of this model's sources.
- The bitmap import's `(uint)` loop over `b.Width` and `b.Height` is modelled with natural-number sizes of at most 2^31 - 1.
- Orvid.Graphics's other classes and ImageManipulatorTester/LabeledImage.cs are UI and drawing code outside the pixel buffer.
