/**
 * Pixel buffers as the filters see them: a flat byte sequence laid out row by
 * row, `rowstride` bytes per row and `nChannels` bytes per pixel, with the red,
 * green and blue channels in the first three bytes of each pixel. Rows may be
 * padded, and the last row need not be.
 */
module Pixbuf {

  /** An 8-bit unsigned channel value. */
  type byte = x: int | 0 <= x < 256

  /** `Math.Clamp(v, lo, hi)`; the library rejects lo > hi, which callers here never pass. */
  function Clamp(v: int, lo: int, hi: int): (r: int)
    requires lo <= hi
    ensures lo <= r <= hi
    ensures lo <= v <= hi ==> r == v
    ensures v < lo ==> r == lo
    ensures hi < v ==> r == hi
  {
    if v < lo then lo else if v > hi then hi else v
  }

  /** One colour as read from or written to a pixel: the first three channels. */
  datatype RGB = RGB(red: byte, green: byte, blue: byte)

  /** The dimensions and byte layout of a buffer. */
  datatype Shape = Shape(width: int, height: int, nChannels: int, rowstride: int)

  datatype Image = Image(shape: Shape, data: seq<byte>)

  /** The number of bytes a buffer of this shape must hold: every row but the last is padded to the stride. */
  function MinLength(s: Shape): int
  {
    if s.height <= 0 then 0 else (s.height - 1) * s.rowstride + s.width * s.nChannels
  }

  predicate ValidShape(s: Shape)
  {
    && 0 <= s.width
    && 0 <= s.height
    && 3 <= s.nChannels
    && s.width * s.nChannels <= s.rowstride
  }

  predicate Valid(img: Image)
  {
    ValidShape(img.shape) && MinLength(img.shape) <= |img.data|
  }

  /** Two buffers with identical dimensions, stride and byte length. */
  predicate SameLayout(a: Image, b: Image)
  {
    a.shape == b.shape && |a.data| == |b.data|
  }

  predicate InBounds(s: Shape, row: int, col: int)
  {
    0 <= row < s.height && 0 <= col < s.width
  }

  /** Byte offset of the pixel at (row, col). */
  function Index(s: Shape, row: int, col: int): int
  {
    row * s.rowstride + col * s.nChannels
  }

  /** Position of pixel (row, col) in raster order (row-major, all columns of a row). */
  function Ordinal(s: Shape, row: int, col: int): (k: int)
    ensures InBounds(s, row, col) ==> 0 <= k
  {
    row * s.width + col
  }

  /** True iff byte i is the red, green or blue byte of some pixel (not alpha, not padding). */
  ghost predicate IsColorByte(s: Shape, i: int)
  {
    exists row, col :: InBounds(s, row, col) && Index(s, row, col) <= i < Index(s, row, col) + 3
  }

  lemma MulLeq(a: int, b: int, k: int)
    requires a <= b && 0 <= k
    ensures a * k <= b * k
  {
  }

  /** Every pixel's channel bytes lie inside the buffer. */
  lemma IndexInRange(img: Image, row: int, col: int)
    requires Valid(img) && InBounds(img.shape, row, col)
    ensures 0 <= Index(img.shape, row, col)
    ensures Index(img.shape, row, col) + img.shape.nChannels <= |img.data|
  {
    var s := img.shape;
    MulLeq(0, row, s.rowstride);
    MulLeq(0, col, s.nChannels);
    MulLeq(col + 1, s.width, s.nChannels);
    MulLeq(row, s.height - 1, s.rowstride);
  }

  /** A pixel earlier in raster order ends before a later one starts. */
  lemma IndexIncreasing(s: Shape, r1: int, c1: int, r2: int, c2: int)
    requires ValidShape(s) && InBounds(s, r1, c1) && InBounds(s, r2, c2)
    requires r1 < r2 || (r1 == r2 && c1 < c2)
    ensures Index(s, r1, c1) + s.nChannels <= Index(s, r2, c2)
  {
    if r1 < r2 {
      // the rest of row r1 fits in its stride, and row r2 starts no earlier than row r1 + 1
      MulLeq(c1 + 1, s.width, s.nChannels);
      assert (c1 + 1) * s.nChannels == c1 * s.nChannels + s.nChannels;
      MulLeq(r1 + 1, r2, s.rowstride);
      assert (r1 + 1) * s.rowstride == r1 * s.rowstride + s.rowstride;
      MulLeq(0, c2, s.nChannels);
    } else {
      MulLeq(c1 + 1, c2, s.nChannels);
      assert (c1 + 1) * s.nChannels == c1 * s.nChannels + s.nChannels;
    }
  }

  /** The channel bytes of two different pixels never overlap. */
  lemma PixelsDisjoint(s: Shape, r1: int, c1: int, r2: int, c2: int)
    requires ValidShape(s) && InBounds(s, r1, c1) && InBounds(s, r2, c2)
    requires r1 != r2 || c1 != c2
    ensures Index(s, r1, c1) + 3 <= Index(s, r2, c2) || Index(s, r2, c2) + 3 <= Index(s, r1, c1)
  {
    if r1 < r2 || (r1 == r2 && c1 < c2) {
      IndexIncreasing(s, r1, c1, r2, c2);
    } else {
      IndexIncreasing(s, r2, c2, r1, c1);
    }
  }

  /** Reads the colour of the pixel at (row, col): the three bytes starting at its offset. */
  function GetPixel(img: Image, row: int, col: int): (color: RGB)
    requires Valid(img) && InBounds(img.shape, row, col)
  {
    IndexInRange(img, row, col);
    var i := Index(img.shape, row, col);
    RGB(img.data[i], img.data[i + 1], img.data[i + 2])
  }

  /**
   * Writes a colour into the pixel at (row, col). Only its red, green and blue
   * bytes change: every other pixel, every alpha byte and every padding byte
   * keeps its value, and reading the pixel back gives the colour written.
   */
  function SetPixel(img: Image, row: int, col: int, color: RGB): (out: Image)
    requires Valid(img) && InBounds(img.shape, row, col)
    ensures SameLayout(out, img) && Valid(out)
    ensures GetPixel(out, row, col) == color
    ensures forall i | 0 <= i < |img.data| && !(Index(img.shape, row, col) <= i < Index(img.shape, row, col) + 3) ::
              out.data[i] == img.data[i]
    ensures forall r, c | InBounds(img.shape, r, c) && (r != row || c != col) ::
              GetPixel(out, r, c) == GetPixel(img, r, c)
    ensures forall i | 0 <= i < |img.data| && !IsColorByte(img.shape, i) :: out.data[i] == img.data[i]
  {
    IndexInRange(img, row, col);
    var i := Index(img.shape, row, col);
    var out := img.(data := img.data[i := color.red][i + 1 := color.green][i + 2 := color.blue]);
    OtherPixelsKept(img, out, row, col);
    NonColorBytesKept(img, out, row, col);
    out
  }

  /** A write confined to the colour bytes of pixel (row, col) keeps every other pixel's colour. */
  lemma OtherPixelsKept(img: Image, out: Image, row: int, col: int)
    requires Valid(img) && SameLayout(out, img) && InBounds(img.shape, row, col)
    requires forall i | 0 <= i < |img.data| && !(Index(img.shape, row, col) <= i < Index(img.shape, row, col) + 3) ::
               out.data[i] == img.data[i]
    ensures forall r, c | InBounds(img.shape, r, c) && (r != row || c != col) ::
              GetPixel(out, r, c) == GetPixel(img, r, c)
  {
    forall r, c | InBounds(img.shape, r, c) && (r != row || c != col)
      ensures GetPixel(out, r, c) == GetPixel(img, r, c)
    {
      PixelsDisjoint(img.shape, row, col, r, c);
      IndexInRange(img, r, c);
    }
  }

  /** A write confined to the colour bytes of pixel (row, col) keeps every alpha and padding byte. */
  lemma NonColorBytesKept(img: Image, out: Image, row: int, col: int)
    requires Valid(img) && SameLayout(out, img) && InBounds(img.shape, row, col)
    requires forall i | 0 <= i < |img.data| && !(Index(img.shape, row, col) <= i < Index(img.shape, row, col) + 3) ::
               out.data[i] == img.data[i]
    ensures forall i | 0 <= i < |img.data| && !IsColorByte(img.shape, i) :: out.data[i] == img.data[i]
  {
    forall i | 0 <= i < |img.data| && !IsColorByte(img.shape, i)
      ensures out.data[i] == img.data[i]
    {
      if Index(img.shape, row, col) <= i < Index(img.shape, row, col) + 3 {
        assert IsColorByte(img.shape, i);
      }
    }
  }

  /**
   * The colour read at (r, c) is exactly the pixel's first three bytes: two
   * buffers of the same layout read the same colour there iff those bytes agree.
   */
  lemma PixelIsItsBytes(a: Image, b: Image, r: int, c: int)
    requires Valid(a) && SameLayout(a, b) && InBounds(a.shape, r, c)
    ensures 0 <= Index(a.shape, r, c) && Index(a.shape, r, c) + 3 <= |a.data|
    ensures GetPixel(a, r, c) == GetPixel(b, r, c) <==>
              forall i | Index(a.shape, r, c) <= i < Index(a.shape, r, c) + 3 :: a.data[i] == b.data[i]
  {
    IndexInRange(a, r, c);
    var i := Index(a.shape, r, c);
    if forall j | i <= j < i + 3 :: a.data[j] == b.data[j] {
      assert a.data[i] == b.data[i] && a.data[i + 1] == b.data[i + 1] && a.data[i + 2] == b.data[i + 2];
    }
  }

  /** Two same-layout buffers whose pixel (r, c) has the same colour agree on that pixel's colour bytes. */
  lemma SameColorSameBytes(a: Image, b: Image, r: int, c: int, i: int)
    requires Valid(a) && SameLayout(a, b) && InBounds(a.shape, r, c)
    requires GetPixel(a, r, c) == GetPixel(b, r, c)
    requires Index(a.shape, r, c) <= i < Index(a.shape, r, c) + 3
    ensures 0 <= i < |a.data| && a.data[i] == b.data[i]
  {
    IndexInRange(a, r, c);
  }

  /**
   * A buffer is determined by its layout, its pixels' colours and its
   * non-colour bytes: two buffers that agree on all three are equal.
   */
  lemma Extensionality(a: Image, b: Image)
    requires Valid(a) && SameLayout(a, b)
    requires forall r, c | InBounds(a.shape, r, c) :: GetPixel(a, r, c) == GetPixel(b, r, c)
    requires forall i | 0 <= i < |a.data| && !IsColorByte(a.shape, i) :: a.data[i] == b.data[i]
    ensures a == b
  {
    forall i | 0 <= i < |a.data|
      ensures a.data[i] == b.data[i]
    {
      if IsColorByte(a.shape, i) {
        var r, c :| InBounds(a.shape, r, c) && Index(a.shape, r, c) <= i < Index(a.shape, r, c) + 3;
        SameColorSameBytes(a, b, r, c, i);
      }
    }
    assert a.data == b.data;
  }

  /** Writing back the colour just read changes nothing. */
  lemma SetOwnColorIsNoOp(img: Image, row: int, col: int)
    requires Valid(img) && InBounds(img.shape, row, col)
    ensures SetPixel(img, row, col, GetPixel(img, row, col)) == img
  {
    var out := SetPixel(img, row, col, GetPixel(img, row, col));
    assert out.data == img.data;
  }
}
