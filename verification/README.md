# Trade::ImageData — a Dafny model

Magnum's `Trade::ImageData<N>` (N = 1, 2, 3) owns the pixel data an importer
plugin produced. It is a manually discriminated union: a `_compressed` flag
selects either the uncompressed fields (pixel storage policy, pixel format,
extra format qualifier, pixel size) or the compressed ones (compressed
storage policy, compressed format); size, data and the importer state are
common to both. The uncompressed constructors check that the buffer is large
enough for the layout, the compressed ones accept any buffer. Objects are
moved, move-assigned by swapping fields, viewed, and can hand their buffer
back out with `release()`.

The model has three modules:

- `PixelFormats` (`formats.dfy`): the collaborator types — pixel and
  compressed pixel formats (generic or implementation-specific), the two
  storage policies, the importer-state handle — and the format lookups
  `pixelSize(format)`, `pixelFormatWrap` and `compressedPixelFormatWrap`.
- `ImageLayout` (`layout.dfy`): the buffer-size and stride arithmetic the
  container calls. `Magnum/Implementation/ImageProperties.h` is not part of
  this model, so this is a stand-in under assumed rules: rows of
  `width * pixelSize` bytes rounded up to the row alignment plus a row skip,
  slices of `rowStride * height` plus an image skip, a leading skip added to
  every size, and no bytes at all for an image without pixels. Its lemmas
  prove that the strides of a pixel view nest and that every byte the view
  addresses lies between the leading skip and that size.
- `Trade` (`imagedata.dfy`): the class `ImageData` with the fields of the
  source, its constructors, move construction, move assignment, accessors,
  views and `Release`, plus a value-level description: `ImageFields` (every
  field, inactive ones included), `ImageValue` (the tagged sum the flag
  selects) and `MoveAssigned`, the function that the move assignment is
  proved against.

The two variants are separate fields rather than a union, so a field of the
inactive variant keeps what it last held. Under that reading move
assignment always gives the assigned-to object the other object's whole
value, and when both flags agree it is an exact swap that undoes itself. When
the flags differ, the assigned-from object gets the assigned-to object's
flag, extra format, pixel size, size, data and importer state, but keeps its
own stale fields of that variant; the model proves this exactly and exhibits
inputs where the result is uncompressed with a layout its buffer is too small
for, and where assigning back does not restore the originals.

`CORRADE_ASSERT`s become `requires` clauses, except in the view
conversions, whose non-aborting fallback (a view without data) is the
modelled behaviour: the result carries data exactly when the variant
matches.

## Model

| member | source | states |
|---|---|---|
| `PixelFormats.PixelFormatWrap` | src/Magnum/Trade/ImageData.cpp:38 | a wrapped raw value is an implementation-specific format that unwraps to the same value |
| `PixelFormats.CompressedPixelFormatWrap` | src/Magnum/Trade/ImageData.cpp:46 | a wrapped raw value is an implementation-specific compressed format that unwraps to the same value |
| `PixelFormats.Zero` | src/Magnum/Trade/ImageData.cpp:60 | the `{}` size an emptied image gets has N components, all zero |
| `ImageLayout.RoundUp` | src/Magnum/Trade/ImageData.cpp:41 | alignment 0 leaves a row as it is; otherwise a padded row is the smallest multiple of the alignment that holds the row: never shorter, a multiple of the alignment, and less than one alignment longer |
| `ImageLayout.StridesNest` | src/Magnum/Trade/ImageData.cpp:123 | the bytes of a pixel are adjacent and each axis steps over at least a whole run of the axis inside it |
| `ImageLayout.ImageDataSizeCoversPixels` | src/Magnum/Trade/ImageData.cpp:41 | the checked size is never smaller than pixel count times pixel size |
| `ImageLayout.NonEmptyImageNeedsData` | src/Magnum/Trade/ImageData.cpp:41 | an image with a pixel of at least one byte needs a non-empty buffer, so a buffer one byte shorter than the checked size is refused |
| `ImageLayout.AddressInjective` | src/Magnum/Trade/ImageData.cpp:123 | two in-range (pixel, byte) pairs of a pixel view with the same address are the same pair: no two pixels share a byte |
| `ImageLayout.AddressInBounds` | src/Magnum/Trade/ImageData.cpp:123 | every byte of every pixel a pixel view addresses lies at or after the leading skip and before the checked size |
| `ImageLayout.ImageDataSizeExample` | src/Magnum/Trade/ImageData.cpp:41 | three-byte pixels, four-byte alignment and a 5x2 extent need 32 bytes |
| `Trade.MoveAssignedFields` | src/Magnum/Trade/ImageData.cpp:69-82 | for any two flags: flag, extra format, pixel size, size, data and importer state are exchanged; of the variant fields exactly those of the assigned-from object's old variant are exchanged and the others stay |
| `Trade.MoveAssignedTakesValue` | src/Magnum/Trade/ImageData.cpp:67-84 | for any two flags the assigned-to object ends with the assigned-from object's whole value |
| `Trade.MoveAssignedSameVariant` | src/Magnum/Trade/ImageData.cpp:67-84 | with equal flags the assigned-from object ends with the assigned-to object's value, and assigning back restores both objects field for field |
| `Trade.MoveAssignedCrossVariant` | src/Magnum/Trade/ImageData.cpp:69-82 | with different flags the assigned-from object's value is the assigned-to object's old one with the variant fields replaced by its own old fields of that variant |
| `Trade.MoveAssignedBufferCoversLayout` | src/Magnum/Trade/ImageData.cpp:67-84 | the assigned-to object keeps the buffer-covers-layout invariant the other object had; the assigned-from object keeps it when the flags were equal |
| `Trade.CrossVariantCanBreakBufferInvariant` | src/Magnum/Trade/ImageData.cpp:69-82 | there are two valid objects of different flags after whose assignment the assigned-from object is uncompressed with a buffer too small for its layout |
| `Trade.CrossVariantAssignBackDiffers` | src/Magnum/Trade/ImageData.cpp:69-82 | there are objects of different flags that assigning and assigning back does not restore |
| `Trade.ImageData.Uncompressed` | src/Magnum/Trade/ImageData.cpp:40-42 | requires the buffer to hold the layout; the image is uncompressed and holds exactly the given storage, format, extra format, pixel size, size, data and importer state |
| `Trade.ImageData.UncompressedWithFormatSize` | src/Magnum/Trade/ImageData.cpp:36 | as the full form with extra format 0 and the pixel size looked up from the (generic) format |
| `Trade.ImageData.UncompressedWrapped` | src/Magnum/Trade/ImageData.cpp:38 | as the full form with the raw format value wrapped as implementation-specific |
| `Trade.ImageData.Compressed` | src/Magnum/Trade/ImageData.cpp:44 | no buffer check; the image is compressed and holds exactly the given storage, format, size, data and importer state |
| `Trade.ImageData.CompressedWrapped` | src/Magnum/Trade/ImageData.cpp:46 | as the compressed form with the raw format value wrapped as implementation-specific |
| `Trade.ImageData.Move` | src/Magnum/Trade/ImageData.cpp:48-61 | the new object has the source's flag and value; the source keeps every field except size (now the zero vector) and data (now empty) |
| `Trade.ImageData.MoveWithImporterState` | src/Magnum/Trade/ImageData.cpp:63-65 | as move construction, except that the importer state is the given one |
| `Trade.ImageData.MoveAssign` | src/Magnum/Trade/ImageData.cpp:67-84 | the new states of both objects are `MoveAssigned` of the old ones; this object receives the other's value; with equal flags the other receives this one's; the buffer invariant carries over as `MoveAssignedBufferCoversLayout` says |
| `Trade.ImageData.SwapFlagAndVariant` | src/Magnum/Trade/ImageData.cpp:69-77 | the flags are exchanged, then the variant fields of the new flag of this object are exchanged and nothing else changes |
| `Trade.ImageData.SwapCommonFields` | src/Magnum/Trade/ImageData.cpp:78-82 | extra format, pixel size, size, data and importer state are exchanged and nothing else changes |
| `Trade.ImageData.Storage` | src/Magnum/Trade/ImageData.cpp:86-89 | requires an uncompressed image; returns the storage of its value |
| `Trade.ImageData.Format` | src/Magnum/Trade/ImageData.cpp:91-94 | requires an uncompressed image; returns the format of its value |
| `Trade.ImageData.FormatExtra` | src/Magnum/Trade/ImageData.cpp:96-99 | requires an uncompressed image; returns the extra format of its value |
| `Trade.ImageData.CompressedStorage` | src/Magnum/Trade/ImageData.cpp:101-104 | requires a compressed image; returns the compressed storage of its value |
| `Trade.ImageData.CompressedFormat` | src/Magnum/Trade/ImageData.cpp:106-109 | requires a compressed image; returns the compressed format of its value |
| `Trade.ImageData.PixelSize` | src/Magnum/Trade/ImageData.cpp:111-114 | requires an uncompressed image; returns the pixel size of its value |
| `Trade.ImageData.DataProperties` | src/Magnum/Trade/ImageData.cpp:116-119 | requires an uncompressed image; the data size it reports is the size the constructors check, so it fits the buffer of a checked image, and for an image with pixels of at least one byte the offset lies before it |
| `Trade.ImageData.Pixels` | src/Magnum/Trade/ImageData.cpp:121-129 | requires an uncompressed image; a view over the image's own data with its extent and pixel size, starting at the offset `DataProperties` reports, with nesting strides, distinct addresses for distinct (pixel, byte) pairs, and every addressed byte between that offset and the reported size, hence inside the buffer when the constructor check held |
| `Trade.ImageData.AsImageView` | src/Magnum/Trade/ImageData.cpp:131-139 | the view refers to data exactly when the image is uncompressed, and then carries the image's whole value; it always carries the size |
| `Trade.ImageData.AsCompressedImageView` | src/Magnum/Trade/ImageData.cpp:141-153 | the view refers to data exactly when the image is compressed, and then carries the image's whole value; it always carries the size |
| `Trade.ImageData.Release` | src/Magnum/Trade/ImageData.cpp:155-159 | returns the stored buffer unchanged; afterwards size is the zero vector, data is empty, every other field is as before |

## Left out

- The layout arithmetic of `Magnum/Implementation/ImageProperties.h` and `PixelStorage` is not part of this model; `ImageLayout` is a stand-in under assumed rules (see above), and `Trade.ImageData.DataProperties` returns the leading offset and the total size rather than the per-axis vectors of the original.
- Two of the stand-in's rules are assumptions, not taken from Magnum's `ImageProperties.h`: the leading skip is added to the size of every non-empty image, and an image without pixels needs no bytes (so its reported offset may exceed its size of 0).
- Trade.ImageData.Move: its `other.BufferCoversLayout()` conclusion for the emptied object rests on the assumed rule that an image without pixels needs no bytes.
- Trade.ImageData.MoveWithImporterState: its `other.BufferCoversLayout()` conclusion for the emptied object rests on the same assumed empty-image rule.
- Trade.ImageData.Release: its `BufferCoversLayout()` conclusion for the emptied object rests on the same assumed empty-image rule.
- Negative size components are treated as empty axes; the original converts them to `std::size_t`.
- `Magnum::pixelSize`, `pixelFormatWrap` and `compressedPixelFormatWrap` live in `Magnum/PixelFormat.h`, which is not part of this model: the lookup multiplies channel count by channel size, and wrapping tags the raw value. The wrap functions' check that the raw value has its top bit clear is not modelled.
- `UnsignedInt` format qualifiers and pixel sizes are unbounded `nat`s; 32-bit wrap-around is not modelled.
- The union overlap of the two variants (and placement-new in the move constructor): the variants are separate fields, so the cross-variant assignment results describe that reading, not the bytes of the union.
- Trade.ImageData.Move: the fields of the inactive variant (and, for compressed images, extra format and pixel size) of the new object are left unspecified, as the original leaves them uninitialised; the same holds for all constructors.
- Trade.ImageData.MoveAssign: is split into the two swap halves for proof size; the order of the individual `std::swap` calls within each half is not observable and not modelled step by step.
- The non-aborting assertion mode, in which a failed accessor check returns a default value: checks are preconditions (the view conversions excepted, see above).
- The mutable and const overloads of `pixels()` and of the two view conversions are one function each; the model does not distinguish mutable from read-only access. `StridedArrayView`, `ImageView` and `CompressedImageView` are records of the fields the container puts into them.
- The importer state is an opaque identifier; nothing reads through it.
- Destruction and the explicit template instantiations for 1, 2 and 3 dimensions (the dimension count is a constant field of the class).
