/**
 Byte layout of uncompressed pixel data: how large a buffer must be for a
 given storage policy, pixel size and extent, and where each pixel byte
 lives. The container calls this arithmetic (`imageDataSize`,
 `imageDataProperties`, `imagePixelView`) but does not define it; the
 definitions below are a stand-in under assumed rules: rows padded to
 the alignment, then row and slice skips, a leading skip added to every
 size, and no bytes at all for an image without pixels. The container's
 own proofs only rely on them through the lemmas here.
 */
module ImageLayout {
  import opened PixelFormats

  /** `n` rounded up to a multiple of `alignment`; alignment 0 means none. */
  function RoundUp(n: nat, alignment: nat): (r: nat)
    ensures n <= r
    ensures alignment == 0 ==> r == n
    ensures alignment > 0 ==> r < n + alignment && r % alignment == 0
  {
    if alignment == 0 then n
    else
      var m := n + alignment - 1;
      DivisionBounds(m, alignment);
      MultipleHasNoRemainder(m / alignment, alignment);
      (m / alignment) * alignment
  }

  /** A multiple of `a` leaves no remainder: the quotient `x / a` of
      `x == q * a` can only be `q`. */
  lemma MultipleHasNoRemainder(q: nat, a: nat)
    requires a > 0
    ensures (q * a) % a == 0
  {
    var x := q * a;
    var d := x / a - q;
    assert d * a == (x / a) * a - q * a;
    assert d * a == -(x % a);
    if d >= 1 {
      MulMonotone(1, d, a);
      assert false;
    } else if d <= -1 {
      MulMonotone(1, -d, a);
      assert false;
    }
  }

  /** Truncating division loses less than one divisor. */
  lemma DivisionBounds(m: nat, d: nat)
    requires d > 0
    ensures m - d < (m / d) * d <= m
  {
    assert m == (m / d) * d + m % d;
  }

  /** Number of pixels along axis `i`; negative components count as empty and
      axes beyond the vector count as one. */
  function Extent(size: seq<int>, i: nat): nat
  {
    if i < |size| then (if size[i] < 0 then 0 else size[i]) else 1
  }

  predicate IsEmpty(size: seq<int>)
  {
    Extent(size, 0) == 0 || Extent(size, 1) == 0 || Extent(size, 2) == 0
  }

  function PixelCount(size: seq<int>): nat
  {
    Extent(size, 0) * Extent(size, 1) * Extent(size, 2)
  }

  /** Bytes from the start of one row to the start of the next. */
  function RowStride(storage: PixelStorage, pixelSize: nat, size: seq<int>): nat
  {
    RoundUp(Extent(size, 0) * pixelSize, storage.alignment) + storage.rowSkip
  }

  /** Bytes from the start of one two-dimensional slice to the next. */
  function SliceStride(storage: PixelStorage, pixelSize: nat, size: seq<int>): nat
  {
    RowStride(storage, pixelSize, size) * Extent(size, 1) + storage.imageSkip
  }

  /** Byte strides of the pixel axes, innermost first. */
  function Strides(storage: PixelStorage, pixelSize: nat, size: seq<int>): (s: seq<nat>)
    requires |size| <= 3
    ensures |s| == |size|
  {
    [pixelSize, RowStride(storage, pixelSize, size), SliceStride(storage, pixelSize, size)][..|size|]
  }

  /** Smallest buffer that holds every pixel: the leading skip plus the
      stride of the outermost axis times its count. An image without pixels
      needs no bytes. */
  function ImageDataSize(storage: PixelStorage, pixelSize: nat, size: seq<int>): nat
  {
    if IsEmpty(size) then 0
    else if |size| <= 1 then storage.skip + RowStride(storage, pixelSize, size)
    else if |size| == 2 then storage.skip + RowStride(storage, pixelSize, size) * Extent(size, 1)
    else storage.skip + SliceStride(storage, pixelSize, size) * Extent(size, 2)
  }

  /** A strided view of pixel bytes: one axis per image dimension plus a
      trailing axis over the bytes of one pixel. */
  datatype PixelView = PixelView(data: seq<Byte>, offset: nat, extent: seq<nat>, pixelSize: nat, stride: seq<nat>)
  {
    /** `index` names a pixel inside the extent and `b` a byte of it. */
    predicate Contains(index: seq<int>, b: int)
    {
      |index| == |extent| && 0 <= b < pixelSize &&
      forall k :: 0 <= k < |index| ==> 0 <= index[k] < extent[k]
    }

    function Address(index: seq<int>, b: int): int
      requires |index| == |stride|
    {
      offset + Dot(index, stride) + b
    }
  }

  function Dot(index: seq<int>, stride: seq<nat>): int
    requires |index| == |stride|
  {
    if |index| == 0 then 0 else index[0] * stride[0] + Dot(index[1..], stride[1..])
  }

  /** The extent as counts of pixels per axis. */
  function Extents(size: seq<int>): (e: seq<nat>)
    ensures |e| == |size| && forall k :: 0 <= k < |size| ==> e[k] == Extent(size, k)
  {
    seq(|size|, k requires 0 <= k < |size| => Extent(size, k))
  }

  lemma MulAddBound(i: int, n: int, j: int, m: int)
    requires 0 <= i < n && 0 <= j < m
    ensures 0 <= i * m + j < n * m
  {
    assert (n - i - 1) * m >= 0;
    assert n * m == i * m + m + (n - i - 1) * m;
  }

  lemma MulMonotone(a: int, b: int, c: int)
    requires 0 <= a <= b && 0 <= c
    ensures a * c <= b * c
  {
    assert b * c - a * c == (b - a) * c;
  }

  /** A buffer of `ImageDataSize` bytes is never smaller than the raw pixel
      bytes: padding and skips only add. */
  lemma ImageDataSizeCoversPixels(storage: PixelStorage, pixelSize: nat, size: seq<int>)
    ensures PixelCount(size) * pixelSize <= ImageDataSize(storage, pixelSize, size)
  {
    var x, y, z := Extent(size, 0), Extent(size, 1), Extent(size, 2);
    var row := RowStride(storage, pixelSize, size);
    if IsEmpty(size) {
      assert x == 0 || y == 0 || z == 0;
      assert PixelCount(size) == 0;
    } else {
      assert x * pixelSize <= row;
      MulMonotone(x * pixelSize, row, y);
      assert x * y * pixelSize == x * pixelSize * y;
      if |size| <= 1 {
        assert y == 1 && z == 1;
      } else if |size| == 2 {
        assert z == 1;
      } else {
        var slice := SliceStride(storage, pixelSize, size);
        assert row * y <= slice;
        MulMonotone(x * pixelSize * y, slice, z);
        assert x * y * z * pixelSize == x * pixelSize * y * z;
      }
    }
  }

  /** An image with at least one pixel of at least one byte needs a non-empty
      buffer, so a buffer one byte shorter than `ImageDataSize` always fails
      the uncompressed size check. */
  lemma NonEmptyImageNeedsData(storage: PixelStorage, pixelSize: nat, size: seq<int>)
    requires !IsEmpty(size) && pixelSize > 0
    ensures ImageDataSize(storage, pixelSize, size) > 0
  {
  }

  /** The strides nest: bytes of a pixel are adjacent, and each axis steps
      over at least a whole run of the axis inside it. `AddressInjective`
      draws the consequence that no two pixels share a byte. */
  lemma StridesNest(storage: PixelStorage, pixelSize: nat, size: seq<int>)
    requires 1 <= |size| <= 3
    ensures Strides(storage, pixelSize, size)[0] == pixelSize
    ensures forall k :: 1 <= k < |size| ==>
      Strides(storage, pixelSize, size)[k] >= Extent(size, k - 1) * Strides(storage, pixelSize, size)[k - 1]
  {
  }

  lemma DotOfThree(index: seq<int>, stride: seq<nat>)
    requires |index| == |stride| == 3
    ensures Dot(index, stride) == index[0] * stride[0] + index[1] * stride[1] + index[2] * stride[2]
  {
    DotOfTwo(index[1..], stride[1..]);
  }

  lemma DotOfTwo(index: seq<int>, stride: seq<nat>)
    requires |index| == |stride| == 2
    ensures Dot(index, stride) == index[0] * stride[0] + index[1] * stride[1]
  {
    assert Dot(index[2..], stride[2..]) == 0;
  }

  /** Every byte a pixel view addresses lies before `ImageDataSize`: a buffer
      that passed the constructor's size check holds all of them. */
  lemma AddressInBounds(storage: PixelStorage, pixelSize: nat, size: seq<int>, index: seq<int>, b: int)
    requires 1 <= |size| <= 3 && |index| == |size|
    requires forall k :: 0 <= k < |index| ==> 0 <= index[k] < Extent(size, k)
    requires 0 <= b < pixelSize
    ensures storage.skip <= storage.skip + Dot(index, Strides(storage, pixelSize, size)) + b
              < ImageDataSize(storage, pixelSize, size)
  {
    var s := Strides(storage, pixelSize, size);
    var x, y, z := Extent(size, 0), Extent(size, 1), Extent(size, 2);
    var row := RowStride(storage, pixelSize, size);
    assert 0 <= index[0] < x;
    assert !IsEmpty(size) by {
      if |size| >= 2 { assert 0 <= index[1] < y; }
      if |size| == 3 { assert 0 <= index[2] < z; }
    }
    MulAddBound(index[0], x, b, pixelSize);
    var inner := index[0] * pixelSize + b;
    assert inner < row;
    if |size| == 1 {
      assert Dot(index, s) == index[0] * pixelSize;
    } else {
      assert 0 <= index[1] < y;
      MulAddBound(index[1], y, inner, row);
      var plane := index[1] * row + inner;
      if |size| == 2 {
        DotOfTwo(index, s);
      } else {
        var slice := SliceStride(storage, pixelSize, size);
        assert plane < slice;
        assert 0 <= index[2] < z;
        MulAddBound(index[2], z, plane, slice);
        DotOfThree(index, s);
      }
    }
  }

  /** Quotient and remainder are unique: a number below `s` added to a
      multiple of `s` determines both. */
  lemma Digit(q1: int, r1: int, q2: int, r2: int, s: int)
    requires 0 <= r1 < s && 0 <= r2 < s
    requires q1 * s + r1 == q2 * s + r2
    ensures q1 == q2 && r1 == r2
  {
    assert (q1 - q2) * s == r2 - r1;
    if q1 - q2 >= 1 {
      MulMonotone(1, q1 - q2, s);
      assert false;
    } else if q2 - q1 >= 1 {
      MulMonotone(1, q2 - q1, s);
      assert false;
    }
  }

  /** Distinct bytes of a pixel view have distinct addresses: an address
      names exactly one pixel and one byte of it. */
  lemma AddressInjective(storage: PixelStorage, pixelSize: nat, size: seq<int>,
                         i: seq<int>, b: int, j: seq<int>, c: int)
    requires 1 <= |size| <= 3 && |i| == |size| && |j| == |size|
    requires forall k :: 0 <= k < |size| ==> 0 <= i[k] < Extent(size, k) && 0 <= j[k] < Extent(size, k)
    requires 0 <= b < pixelSize && 0 <= c < pixelSize
    requires Dot(i, Strides(storage, pixelSize, size)) + b == Dot(j, Strides(storage, pixelSize, size)) + c
    ensures i == j && b == c
  {
    var s := Strides(storage, pixelSize, size);
    var row := RowStride(storage, pixelSize, size);
    var x, y, z := Extent(size, 0), Extent(size, 1), Extent(size, 2);
    assert 0 <= i[0] < x && 0 <= j[0] < x;
    MulAddBound(i[0], x, b, pixelSize);
    MulAddBound(j[0], x, c, pixelSize);
    var innerI, innerJ := i[0] * pixelSize + b, j[0] * pixelSize + c;
    assert innerI < row && innerJ < row;
    if |size| == 1 {
      assert Dot(i, s) == i[0] * pixelSize;
      assert Dot(j, s) == j[0] * pixelSize;
    } else {
      assert 0 <= i[1] < y && 0 <= j[1] < y;
      var planeI, planeJ := i[1] * row + innerI, j[1] * row + innerJ;
      if |size| == 2 {
        DotOfTwo(i, s);
        DotOfTwo(j, s);
      } else {
        var slice := SliceStride(storage, pixelSize, size);
        MulAddBound(i[1], y, innerI, row);
        MulAddBound(j[1], y, innerJ, row);
        assert planeI < slice && planeJ < slice;
        DotOfThree(i, s);
        DotOfThree(j, s);
        Digit(i[2], planeI, j[2], planeJ, slice);
      }
      Digit(i[1], innerI, j[1], innerJ, row);
    }
    Digit(i[0], b, j[0], c, pixelSize);
    assert forall k :: 0 <= k < |i| ==> i[k] == j[k];
  }

  /** A worked example: three-byte pixels, four-byte row alignment and
      a 5x2 extent pad each 15-byte row to 16, so 32 bytes are needed. */
  lemma ImageDataSizeExample()
    ensures ImageDataSize(PixelStorage(4, 0, 0, 0), 3, [5, 2]) == 32
  {
  }
}
