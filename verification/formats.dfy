/**
 Pixel format tags, storage policies and the other collaborator types an
 imported image refers to. Only their identity matters to the image
 container: the format lookups are stand-ins for Magnum's format tables,
 which are not part of this model.
 */
module PixelFormats {

  /** One byte of image data. */
  type Byte = bv8

  /** Opaque handle of the importer that produced an image; 0 plays the null pointer.
      The container never looks through it. */
  type ImporterState = nat

  /** A generic pixel format is described by its enumeration value and the
      shape of one pixel; an implementation-specific format wraps a raw value
      that this build does not interpret. */
  datatype PixelFormat =
    | Generic(id: nat, channelCount: nat, channelSize: nat)
    | ImplementationSpecific(value: nat)

  /** Compressed formats carry no per-pixel size. */
  datatype CompressedPixelFormat =
    | CompressedGeneric(id: nat)
    | CompressedImplementationSpecific(value: nat)

  /** Layout policy of uncompressed data: row alignment in bytes, bytes
      skipped before the first pixel, after every row and after every
      two-dimensional slice. */
  datatype PixelStorage = PixelStorage(alignment: nat, skip: nat, rowSkip: nat, imageSkip: nat)

  /** Layout policy of compressed data: the block extent and the bytes per block. */
  datatype CompressedPixelStorage = CompressedPixelStorage(blockSize: seq<int>, blockDataSize: nat)

  /** The policy a default-constructed storage object has: four-byte row alignment, no skips. */
  const DefaultStorage := PixelStorage(4, 0, 0, 0)
  const DefaultCompressedStorage := CompressedPixelStorage([0, 0, 0], 0)

  /** Bytes per pixel of a generic format. Implementation-specific formats
      have no size known to this build, so asking for one is refused. */
  function PixelFormatSize(format: PixelFormat): nat
    requires format.Generic?
  {
    format.channelCount * format.channelSize
  }

  /** Marks a raw value as an implementation-specific pixel format. */
  function PixelFormatWrap(value: nat): (format: PixelFormat)
    ensures !format.Generic? && PixelFormatUnwrap(format) == value
  {
    ImplementationSpecific(value)
  }

  function PixelFormatUnwrap(format: PixelFormat): nat
    requires format.ImplementationSpecific?
  {
    format.value
  }

  /** Marks a raw value as an implementation-specific compressed format. */
  function CompressedPixelFormatWrap(value: nat): (format: CompressedPixelFormat)
    ensures !format.CompressedGeneric? && CompressedPixelFormatUnwrap(format) == value
  {
    CompressedImplementationSpecific(value)
  }

  function CompressedPixelFormatUnwrap(format: CompressedPixelFormat): nat
    requires format.CompressedImplementationSpecific?
  {
    format.value
  }

  /** The zero extent `{}` of an n-dimensional size vector. */
  function Zero(n: nat): (z: seq<int>)
    ensures |z| == n && forall i :: 0 <= i < n ==> z[i] == 0
  {
    seq(n, _ => 0)
  }
}
