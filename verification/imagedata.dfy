/**
 The owning container for imported image data, `Trade::ImageData<N>`.

 An image is either uncompressed (storage policy, pixel format, extra
 format qualifier, pixel size) or compressed (compressed storage policy,
 compressed format); a flag says which. Size, data and the importer state
 are common to both. The source keeps the two variants in a union; here they
 are separate fields, so a field of the inactive variant keeps whatever it
 held before rather than aliasing the active one.
 */
module Trade {
  import opened PixelFormats
  import opened ImageLayout

  datatype Option<T> = None | Some(value: T)

  /** What an image means: exactly one variant, with the fields that belong to it. */
  datatype ImageValue =
    | UncompressedImage(storage: PixelStorage, format: PixelFormat, formatExtra: nat, pixelSize: nat,
                        size: seq<int>, data: seq<Byte>, importerState: ImporterState)
    | CompressedImage(compressedStorage: CompressedPixelStorage, compressedFormat: CompressedPixelFormat,
                      size: seq<int>, data: seq<Byte>, importerState: ImporterState)

  /** Every field of an image object, those of the inactive variant included. */
  datatype ImageFields = ImageFields(
    compressed: bool,
    storage: PixelStorage, format: PixelFormat, formatExtra: nat, pixelSize: nat,
    compressedStorage: CompressedPixelStorage, compressedFormat: CompressedPixelFormat,
    size: seq<int>, data: seq<Byte>, importerState: ImporterState)
  {
    /** The fields the flag selects. */
    function Value(): ImageValue
    {
      if compressed then CompressedImage(compressedStorage, compressedFormat, size, data, importerState)
      else UncompressedImage(storage, format, formatExtra, pixelSize, size, data, importerState)
    }

    /** The buffer is large enough for the layout; compressed data is never checked. */
    predicate BufferCoversLayout()
    {
      !compressed ==> ImageDataSize(storage, pixelSize, size) <= |data|
    }
  }

  /** Move assignment `a = std::move(b)`, returning the new (a, b). The flags
      are exchanged first; the variant fields exchanged are those of the flag
      `a` holds afterwards, that is of `b`'s old flag; the remaining fields are
      exchanged unconditionally. */
  function MoveAssigned(a: ImageFields, b: ImageFields): (ImageFields, ImageFields)
  {
    var swapCompressed := b.compressed;
    (ImageFields(b.compressed,
                 if swapCompressed then a.storage else b.storage,
                 if swapCompressed then a.format else b.format,
                 b.formatExtra, b.pixelSize,
                 if swapCompressed then b.compressedStorage else a.compressedStorage,
                 if swapCompressed then b.compressedFormat else a.compressedFormat,
                 b.size, b.data, b.importerState),
     ImageFields(a.compressed,
                 if swapCompressed then b.storage else a.storage,
                 if swapCompressed then b.format else a.format,
                 a.formatExtra, a.pixelSize,
                 if swapCompressed then a.compressedStorage else b.compressedStorage,
                 if swapCompressed then a.compressedFormat else b.compressedFormat,
                 a.size, a.data, a.importerState))
  }

  /** Which fields move assignment exchanges, whatever the two flags are: the
      flag, the extra format, pixel size, size, data and importer state always;
      of the variant fields only those of the assigned-from object's variant,
      while the other variant's fields stay where they were. */
  lemma MoveAssignedFields(a: ImageFields, b: ImageFields)
    ensures var (a', b') := MoveAssigned(a, b);
      a'.compressed == b.compressed && b'.compressed == a.compressed &&
      a'.formatExtra == b.formatExtra && b'.formatExtra == a.formatExtra &&
      a'.pixelSize == b.pixelSize && b'.pixelSize == a.pixelSize &&
      a'.size == b.size && b'.size == a.size &&
      a'.data == b.data && b'.data == a.data &&
      a'.importerState == b.importerState && b'.importerState == a.importerState
    ensures var (a', b') := MoveAssigned(a, b);
      b.compressed ==>
        a'.compressedStorage == b.compressedStorage && b'.compressedStorage == a.compressedStorage &&
        a'.compressedFormat == b.compressedFormat && b'.compressedFormat == a.compressedFormat &&
        a'.storage == a.storage && b'.storage == b.storage &&
        a'.format == a.format && b'.format == b.format
    ensures var (a', b') := MoveAssigned(a, b);
      !b.compressed ==>
        a'.storage == b.storage && b'.storage == a.storage &&
        a'.format == b.format && b'.format == a.format &&
        a'.compressedStorage == a.compressedStorage && b'.compressedStorage == b.compressedStorage &&
        a'.compressedFormat == a.compressedFormat && b'.compressedFormat == b.compressedFormat
  {
  }

  /** Whatever the two flags, the assigned-to object ends up with the
      assigned-from object's whole value. */
  lemma MoveAssignedTakesValue(a: ImageFields, b: ImageFields)
    ensures MoveAssigned(a, b).0.Value() == b.Value()
  {
  }

  /** With equal flags move assignment is a swap of values, and assigning
      back restores both objects field for field. */
  lemma MoveAssignedSameVariant(a: ImageFields, b: ImageFields)
    requires a.compressed == b.compressed
    ensures MoveAssigned(a, b).1.Value() == a.Value()
    ensures MoveAssigned(MoveAssigned(a, b).0, MoveAssigned(a, b).1) == (a, b)
  {
  }

  /** With different flags the assigned-from object keeps the old flag,
      extra format, pixel size, size, data and importer state of the
      assigned-to one, but its variant fields are its own old fields of that
      variant, never those the assigned-to object held. */
  lemma MoveAssignedCrossVariant(a: ImageFields, b: ImageFields)
    requires a.compressed != b.compressed
    ensures MoveAssigned(a, b).1.Value() ==
      a.(storage := b.storage, format := b.format,
         compressedStorage := b.compressedStorage, compressedFormat := b.compressedFormat).Value()
  {
  }

  /** The assigned-to object keeps the buffer invariant whenever the
      assigned-from object had it; the assigned-from object keeps it when the
      flags were equal. */
  lemma MoveAssignedBufferCoversLayout(a: ImageFields, b: ImageFields)
    ensures b.BufferCoversLayout() ==> MoveAssigned(a, b).0.BufferCoversLayout()
    ensures a.compressed == b.compressed && a.BufferCoversLayout() ==>
      MoveAssigned(a, b).1.BufferCoversLayout()
  {
  }

  /** Uncompressed 1D image of one one-byte pixel laid out by `storage`. */
  function OnePixelImage(storage: PixelStorage, compressed: bool): ImageFields
  {
    ImageFields(compressed, storage, Generic(0, 1, 1), 0, 1,
                DefaultCompressedStorage, CompressedGeneric(0), [1], [0], 0)
  }

  /** With different flags the assigned-from object can end up uncompressed
      with a storage policy its new buffer is too small for. */
  lemma CrossVariantCanBreakBufferInvariant()
    ensures exists a: ImageFields, b: ImageFields ::
      a.compressed != b.compressed && a.BufferCoversLayout() && b.BufferCoversLayout() &&
      !MoveAssigned(a, b).1.BufferCoversLayout()
  {
    var a := OnePixelImage(PixelStorage(1, 0, 0, 0), false);
    var b := OnePixelImage(PixelStorage(1, 0, 1, 0), true);
    assert ImageDataSize(a.storage, 1, [1]) == 1;
    assert ImageDataSize(b.storage, 1, [1]) == 2;
    assert !MoveAssigned(a, b).1.BufferCoversLayout();
  }

  /** With different flags, assigning back does not restore the objects. */
  lemma CrossVariantAssignBackDiffers()
    ensures exists a: ImageFields, b: ImageFields ::
      a.compressed != b.compressed &&
      MoveAssigned(MoveAssigned(a, b).0, MoveAssigned(a, b).1) != (a, b)
  {
    var a := OnePixelImage(PixelStorage(1, 0, 0, 0), false);
    var b := OnePixelImage(PixelStorage(1, 0, 1, 0), true);
    assert MoveAssigned(MoveAssigned(a, b).0, MoveAssigned(a, b).1).0.storage == b.storage;
  }

  /** Non-owning view of uncompressed data; without data when the image is compressed. */
  datatype ImageView = ImageView(storage: PixelStorage, format: PixelFormat, formatExtra: nat,
                                 pixelSize: nat, size: seq<int>, data: Option<seq<Byte>>)

  /** Non-owning view of compressed data; without data when the image is uncompressed. */
  datatype CompressedImageView = CompressedImageView(storage: CompressedPixelStorage,
                                                     format: CompressedPixelFormat,
                                                     size: seq<int>, data: Option<seq<Byte>>)

  class ImageData {
    const dimensions: nat
    var compressed: bool
    var storage: PixelStorage
    var format: PixelFormat
    var formatExtra: nat
    var pixelSize: nat
    var compressedStorage: CompressedPixelStorage
    var compressedFormat: CompressedPixelFormat
    var size: seq<int>
    var data: seq<Byte>
    var importerState: ImporterState

    /** An `ImageData<N>` for N in 1..3 has an N-component size. */
    ghost predicate Valid()
      reads this
    {
      1 <= dimensions <= 3 && |size| == dimensions
    }

    function Fields(): ImageFields
      reads this
    {
      ImageFields(compressed, storage, format, formatExtra, pixelSize,
                  compressedStorage, compressedFormat, size, data, importerState)
    }

    function Value(): ImageValue
      reads this
    {
      Fields().Value()
    }

    ghost predicate BufferCoversLayout()
      reads this
    {
      Fields().BufferCoversLayout()
    }

    /** Uncompressed image; the buffer must hold the whole layout. */
    constructor Uncompressed(dimensions: nat, storage: PixelStorage, format: PixelFormat, formatExtra: nat,
                             pixelSize: nat, size: seq<int>, data: seq<Byte>, importerState: ImporterState)
      requires 1 <= dimensions <= 3 && |size| == dimensions
      requires ImageDataSize(storage, pixelSize, size) <= |data|
      ensures Valid() && this.dimensions == dimensions && !compressed && BufferCoversLayout()
      ensures Value() == UncompressedImage(storage, format, formatExtra, pixelSize, size, data, importerState)
    {
      this.dimensions := dimensions;
      this.compressed := false;
      this.storage, this.format, this.formatExtra, this.pixelSize := storage, format, formatExtra, pixelSize;
      this.compressedStorage, this.compressedFormat := DefaultCompressedStorage, CompressedGeneric(0);
      this.size, this.data, this.importerState := size, data, importerState;
    }

    /** Uncompressed image of a generic format: no extra format qualifier and
        the pixel size looked up from the format. */
    constructor UncompressedWithFormatSize(dimensions: nat, storage: PixelStorage, format: PixelFormat,
                                           size: seq<int>, data: seq<Byte>, importerState: ImporterState)
      requires 1 <= dimensions <= 3 && |size| == dimensions
      requires format.Generic?
      requires ImageDataSize(storage, PixelFormatSize(format), size) <= |data|
      ensures Valid() && this.dimensions == dimensions && !compressed && BufferCoversLayout()
      ensures Value() == UncompressedImage(storage, format, 0, PixelFormatSize(format), size, data, importerState)
    {
      this.dimensions := dimensions;
      this.compressed := false;
      this.storage, this.format, this.formatExtra, this.pixelSize := storage, format, 0, PixelFormatSize(format);
      this.compressedStorage, this.compressedFormat := DefaultCompressedStorage, CompressedGeneric(0);
      this.size, this.data, this.importerState := size, data, importerState;
    }

    /** Uncompressed image of an implementation-specific format given as a raw value. */
    constructor UncompressedWrapped(dimensions: nat, storage: PixelStorage, format: nat, formatExtra: nat,
                                    pixelSize: nat, size: seq<int>, data: seq<Byte>, importerState: ImporterState)
      requires 1 <= dimensions <= 3 && |size| == dimensions
      requires ImageDataSize(storage, pixelSize, size) <= |data|
      ensures Valid() && this.dimensions == dimensions && !compressed && BufferCoversLayout()
      ensures Value() == UncompressedImage(storage, PixelFormatWrap(format), formatExtra, pixelSize,
                                           size, data, importerState)
    {
      this.dimensions := dimensions;
      this.compressed := false;
      this.storage, this.format, this.formatExtra, this.pixelSize := storage, PixelFormatWrap(format), formatExtra, pixelSize;
      this.compressedStorage, this.compressedFormat := DefaultCompressedStorage, CompressedGeneric(0);
      this.size, this.data, this.importerState := size, data, importerState;
    }

    /** Compressed image; a buffer of any length, the empty one included, is accepted. */
    constructor Compressed(dimensions: nat, storage: CompressedPixelStorage, format: CompressedPixelFormat,
                           size: seq<int>, data: seq<Byte>, importerState: ImporterState)
      requires 1 <= dimensions <= 3 && |size| == dimensions
      ensures Valid() && this.dimensions == dimensions && compressed && BufferCoversLayout()
      ensures Value() == CompressedImage(storage, format, size, data, importerState)
    {
      this.dimensions := dimensions;
      this.compressed := true;
      this.compressedStorage, this.compressedFormat := storage, format;
      this.storage, this.format, this.formatExtra, this.pixelSize := DefaultStorage, Generic(0, 0, 0), 0, 0;
      this.size, this.data, this.importerState := size, data, importerState;
    }

    /** Compressed image of an implementation-specific format given as a raw value. */
    constructor CompressedWrapped(dimensions: nat, storage: CompressedPixelStorage, format: nat,
                                  size: seq<int>, data: seq<Byte>, importerState: ImporterState)
      requires 1 <= dimensions <= 3 && |size| == dimensions
      ensures Valid() && this.dimensions == dimensions && compressed && BufferCoversLayout()
      ensures Value() == CompressedImage(storage, CompressedPixelFormatWrap(format), size, data, importerState)
    {
      this.dimensions := dimensions;
      this.compressed := true;
      this.compressedStorage, this.compressedFormat := storage, CompressedPixelFormatWrap(format);
      this.storage, this.format, this.formatExtra, this.pixelSize := DefaultStorage, Generic(0, 0, 0), 0, 0;
      this.size, this.data, this.importerState := size, data, importerState;
    }

    /** Move construction: the flag, size, data, importer state and the
        active variant's fields move over; the source keeps its flag and
        variant fields but is left with a zero size and no data. */
    constructor Move(other: ImageData)
      requires other.Valid()
      modifies other
      ensures Valid() && dimensions == other.dimensions
      ensures compressed == old(other.compressed) && Value() == old(other.Value())
      ensures old(other.BufferCoversLayout()) ==> BufferCoversLayout()
      ensures other.Fields() == old(other.Fields()).(size := Zero(other.dimensions), data := [])
      ensures other.Valid() && other.BufferCoversLayout()
    {
      dimensions := other.dimensions;
      compressed := other.compressed;
      size, data, importerState := other.size, other.data, other.importerState;
      if other.compressed {
        compressedStorage, compressedFormat := other.compressedStorage, other.compressedFormat;
        storage, format, formatExtra, pixelSize := DefaultStorage, Generic(0, 0, 0), 0, 0;
      } else {
        storage, format, formatExtra, pixelSize := other.storage, other.format, other.formatExtra, other.pixelSize;
        compressedStorage, compressedFormat := DefaultCompressedStorage, CompressedGeneric(0);
      }
      new;
      other.size := Zero(other.dimensions);
      other.data := [];
    }

    /** Move construction that also replaces the importer state. */
    constructor MoveWithImporterState(other: ImageData, importerState: ImporterState)
      requires other.Valid()
      modifies other
      ensures Valid() && dimensions == other.dimensions
      ensures compressed == old(other.compressed)
      ensures Value() == old(other.Value()).(importerState := importerState)
      ensures old(other.BufferCoversLayout()) ==> BufferCoversLayout()
      ensures other.Fields() == old(other.Fields()).(size := Zero(other.dimensions), data := [])
      ensures other.Valid() && other.BufferCoversLayout()
    {
      dimensions := other.dimensions;
      compressed := other.compressed;
      size, data := other.size, other.data;
      if other.compressed {
        compressedStorage, compressedFormat := other.compressedStorage, other.compressedFormat;
        storage, format, formatExtra, pixelSize := DefaultStorage, Generic(0, 0, 0), 0, 0;
      } else {
        storage, format, formatExtra, pixelSize := other.storage, other.format, other.formatExtra, other.pixelSize;
        compressedStorage, compressedFormat := DefaultCompressedStorage, CompressedGeneric(0);
      }
      this.importerState := importerState;
      new;
      other.size := Zero(other.dimensions);
      other.data := [];
    }

    /** Move assignment by swapping: the flag first, then the variant fields
        the new flag selects, then everything else. */
    method MoveAssign(other: ImageData)
      requires Valid() && other.Valid() && other.dimensions == dimensions
      modifies this, other
      ensures Valid() && other.Valid()
      ensures (Fields(), other.Fields()) == MoveAssigned(old(Fields()), old(other.Fields()))
      ensures Value() == old(other.Value())
      ensures old(compressed == other.compressed) ==> other.Value() == old(Value())
      ensures old(other.BufferCoversLayout()) ==> BufferCoversLayout()
      ensures old(compressed == other.compressed && BufferCoversLayout()) ==> other.BufferCoversLayout()
    {
      ghost var a, b := Fields(), other.Fields();
      SwapFlagAndVariant(other);
      SwapCommonFields(other);
      MoveAssignedTakesValue(a, b);
      if a.compressed == b.compressed {
        MoveAssignedSameVariant(a, b);
      }
      MoveAssignedBufferCoversLayout(a, b);
    }

    /** First half of move assignment: swap the flags, then the fields of
        the variant the new flag selects. */
    method SwapFlagAndVariant(other: ImageData)
      requires Valid() && other.Valid() && other.dimensions == dimensions
      modifies this, other
      ensures Valid() && other.Valid()
      ensures compressed == old(other.compressed) && other.compressed == old(compressed)
      ensures compressed ==>
        compressedStorage == old(other.compressedStorage) && other.compressedStorage == old(compressedStorage) &&
        compressedFormat == old(other.compressedFormat) && other.compressedFormat == old(compressedFormat) &&
        storage == old(storage) && other.storage == old(other.storage) &&
        format == old(format) && other.format == old(other.format)
      ensures !compressed ==>
        storage == old(other.storage) && other.storage == old(storage) &&
        format == old(other.format) && other.format == old(format) &&
        compressedStorage == old(compressedStorage) && other.compressedStorage == old(other.compressedStorage) &&
        compressedFormat == old(compressedFormat) && other.compressedFormat == old(other.compressedFormat)
      ensures formatExtra == old(formatExtra) && other.formatExtra == old(other.formatExtra)
      ensures pixelSize == old(pixelSize) && other.pixelSize == old(other.pixelSize)
      ensures size == old(size) && other.size == old(other.size)
      ensures data == old(data) && other.data == old(other.data)
      ensures importerState == old(importerState) && other.importerState == old(other.importerState)
    {
      compressed, other.compressed := other.compressed, compressed;
      if compressed {
        compressedStorage, other.compressedStorage := other.compressedStorage, compressedStorage;
        compressedFormat, other.compressedFormat := other.compressedFormat, compressedFormat;
      } else {
        storage, other.storage := other.storage, storage;
        format, other.format := other.format, format;
      }
    }

    /** Second half of move assignment: swap the fields outside the union. */
    method SwapCommonFields(other: ImageData)
      requires Valid() && other.Valid() && other.dimensions == dimensions
      modifies this, other
      ensures Valid() && other.Valid()
      ensures Fields() == old(other.Fields()).(compressed := old(compressed), storage := old(storage),
        format := old(format), compressedStorage := old(compressedStorage), compressedFormat := old(compressedFormat))
      ensures other.Fields() == old(Fields()).(compressed := old(other.compressed), storage := old(other.storage),
        format := old(other.format), compressedStorage := old(other.compressedStorage),
        compressedFormat := old(other.compressedFormat))
    {
      formatExtra, other.formatExtra := other.formatExtra, formatExtra;
      pixelSize, other.pixelSize := other.pixelSize, pixelSize;
      size, other.size := other.size, size;
      data, other.data := other.data, data;
      importerState, other.importerState := other.importerState, importerState;
    }

    function Storage(): (s: PixelStorage)
      reads this
      requires !compressed
      ensures Value().UncompressedImage? && Value().storage == s
    {
      storage
    }

    function Format(): (f: PixelFormat)
      reads this
      requires !compressed
      ensures Value().UncompressedImage? && Value().format == f
    {
      format
    }

    function FormatExtra(): (e: nat)
      reads this
      requires !compressed
      ensures Value().UncompressedImage? && Value().formatExtra == e
    {
      formatExtra
    }

    function CompressedStorage(): (s: CompressedPixelStorage)
      reads this
      requires compressed
      ensures Value().CompressedImage? && Value().compressedStorage == s
    {
      compressedStorage
    }

    function CompressedFormat(): (f: CompressedPixelFormat)
      reads this
      requires compressed
      ensures Value().CompressedImage? && Value().compressedFormat == f
    {
      compressedFormat
    }

    function PixelSize(): (p: nat)
      reads this
      requires !compressed
      ensures Value().UncompressedImage? && Value().pixelSize == p
    {
      pixelSize
    }

    /** Leading byte offset and minimum data size of the layout; an image
        that passed the constructor's check holds that many bytes, and an
        image with pixels starts its first pixel inside them. */
    function DataProperties(): (p: (nat, nat))
      reads this
      requires !compressed
      ensures p.1 == ImageDataSize(storage, pixelSize, size)
      ensures BufferCoversLayout() ==> p.1 <= |data|
      ensures !IsEmpty(size) && pixelSize > 0 ==> p.0 < p.1
    {
      (storage.skip, ImageDataSize(storage, pixelSize, size))
    }

    /** A view of the pixel bytes, one axis per dimension plus one over the
        bytes of a pixel. It starts at the offset `DataProperties` reports,
        its strides nest, no two pixels share a byte, and every byte
        it addresses lies between that offset and the reported size. */
    function Pixels(): (v: PixelView)
      reads this
      requires Valid() && !compressed
      ensures v.data == data && v.extent == Extents(size) && v.pixelSize == pixelSize
      ensures v.offset == DataProperties().0
      ensures |v.stride| == |v.extent| && v.stride[0] == pixelSize
      ensures forall k :: 1 <= k < |v.stride| ==> v.stride[k] >= v.extent[k - 1] * v.stride[k - 1]
      ensures forall index, b :: v.Contains(index, b) ==>
        DataProperties().0 <= v.Address(index, b) < DataProperties().1
      ensures BufferCoversLayout() ==> DataProperties().1 <= |v.data|
      ensures forall i, b, j, c :: v.Contains(i, b) && v.Contains(j, c) && v.Address(i, b) == v.Address(j, c) ==>
        i == j && b == c
    {
      var v := PixelView(data, storage.skip, Extents(size), pixelSize, Strides(storage, pixelSize, size));
      StridesNest(storage, pixelSize, size);
      forall index, b | v.Contains(index, b)
        ensures storage.skip <= v.Address(index, b) < ImageDataSize(storage, pixelSize, size)
      {
        AddressInBounds(storage, pixelSize, size, index, b);
      }
      forall i, b, j, c | v.Contains(i, b) && v.Contains(j, c) && v.Address(i, b) == v.Address(j, c)
        ensures i == j && b == c
      {
        AddressInjective(storage, pixelSize, size, i, b, j, c);
      }
      v
    }

    /** Conversion to a non-owning view: it refers to the data only when the
        image is uncompressed, and otherwise carries the metadata alone. */
    function AsImageView(): (v: ImageView)
      reads this
      ensures v.data.Some? <==> !compressed
      ensures !compressed ==>
        Value() == UncompressedImage(v.storage, v.format, v.formatExtra, v.pixelSize, v.size, v.data.value, importerState)
      ensures v.size == size
    {
      if compressed then ImageView(storage, format, formatExtra, pixelSize, size, None)
      else ImageView(storage, format, formatExtra, pixelSize, size, Some(data))
    }

    /** Conversion to a non-owning compressed view: it refers to the data only
        when the image is compressed, and otherwise carries the metadata alone. */
    function AsCompressedImageView(): (v: CompressedImageView)
      reads this
      ensures v.data.Some? <==> compressed
      ensures compressed ==>
        Value() == CompressedImage(v.storage, v.format, v.size, v.data.value, importerState)
      ensures v.size == size
    {
      if compressed then CompressedImageView(compressedStorage, compressedFormat, size, Some(data))
      else CompressedImageView(compressedStorage, compressedFormat, size, None)
    }

    /** Hands the buffer out exactly as stored and leaves a zero size and no
        data; the flag and all variant fields stay. */
    method Release() returns (buffer: seq<Byte>)
      requires Valid()
      modifies this
      ensures buffer == old(data)
      ensures Fields() == old(Fields()).(size := Zero(dimensions), data := [])
      ensures Valid() && BufferCoversLayout()
    {
      buffer := data;
      data := [];
      size := Zero(dimensions);
    }
  }
}
