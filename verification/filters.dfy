/**
 * The five pixel filters. Each `Run` copies its input buffer and then visits
 * every pixel in raster order, writing a new colour computed from the input
 * pixel's colour; alpha and padding bytes keep the values of the copy.
 */
module Filters {
  import opened Pixbuf

  /** The filter classes the program ships with, one constructor each. */
  datatype Filter = NoneFilter | GrayscaleFilter | LightenFilter | DarkenFilter | JitterFilter

  /** One draw of `Random.Next(-100, 100)`: the lower bound is inclusive, the upper exclusive. */
  type Offset = x: int | -100 <= x < 100

  /** The random source of the jitter filter, as the sequence of values it yields. */
  type RandomStream = nat -> Offset

  /** `Math.Clamp(v, 0, 255)`: the byte nearest to v. */
  function ClampByte(v: int): (b: byte)
    ensures 0 <= v < 256 ==> b == v
    ensures v < 0 ==> b == 0
    ensures 256 <= v ==> b == 255
  {
    Clamp(v, 0, 255)
  }

  /**
   * The integer average of the three channels, in all three channels. The
   * grey level g is the truncated average: 3g <= r + g + b < 3g + 3, so it
   * lies between the smallest and the largest channel.
   */
  function Gray(p: RGB): (q: RGB)
    ensures q.red == q.green == q.blue
    ensures 3 * q.red <= p.red + p.green + p.blue < 3 * q.red + 3
    ensures q.red <= p.red || q.red <= p.green || q.red <= p.blue
    ensures p.red <= q.red || p.green <= q.red || p.blue <= q.red
  {
    var g := (p.red + p.green + p.blue) / 3;
    RGB(g, g, g)
  }

  /** One channel brightened by 100, saturating at 255. */
  function LightenChannel(c: byte): (r: byte)
    ensures c <= r && r - c <= 100
    ensures r == c + 100 || r == 255
  {
    ClampByte(c + 100)
  }

  /** One channel darkened by 100, saturating at 0. */
  function DarkenChannel(c: byte): (r: byte)
    ensures r <= c && c - r <= 100
    ensures r == c - 100 || r == 0
  {
    ClampByte(c - 100)
  }

  /**
   * One channel moved by a random offset and clamped to a byte: c + o when
   * that is a byte value, else the nearer bound. It therefore stays within
   * 100 below and 99 above c.
   */
  function JitterChannel(c: byte, o: Offset): (r: byte)
    ensures 0 <= c + o < 256 ==> r == c + o
    ensures c + o < 0 ==> r == 0
    ensures 255 < c + o ==> r == 255
    ensures ClampByte(c - 100) <= r <= ClampByte(c + 99)
  {
    ClampByte(c + o)
  }

  /**
   * The colour a filter writes for a pixel of colour p that is the k-th pixel
   * in raster order. The jitter filter draws three values per pixel, red
   * first, so pixel k uses draws 3k, 3k+1 and 3k+2.
   */
  function PixelOut(f: Filter, noise: RandomStream, k: nat, p: RGB): (q: RGB)
    ensures f == NoneFilter ==> q == p
    ensures f == GrayscaleFilter ==> q.red == q.green == q.blue && 3 * q.red <= p.red + p.green + p.blue < 3 * q.red + 3
    ensures f == LightenFilter ==> p.red <= q.red && p.green <= q.green && p.blue <= q.blue
    ensures f == DarkenFilter ==> q.red <= p.red && q.green <= p.green && q.blue <= p.blue
    ensures f == JitterFilter ==>
              && q.red == JitterChannel(p.red, noise(3 * k))
              && q.green == JitterChannel(p.green, noise(3 * k + 1))
              && q.blue == JitterChannel(p.blue, noise(3 * k + 2))
  {
    match f
    case NoneFilter => p
    case GrayscaleFilter => Gray(p)
    case LightenFilter => RGB(LightenChannel(p.red), LightenChannel(p.green), LightenChannel(p.blue))
    case DarkenFilter => RGB(DarkenChannel(p.red), DarkenChannel(p.green), DarkenChannel(p.blue))
    case JitterFilter =>
      RGB(JitterChannel(p.red, noise(3 * k)), JitterChannel(p.green, noise(3 * k + 1)),
          JitterChannel(p.blue, noise(3 * k + 2)))
  }

  /**
   * `dst` is what running f on `src` must produce: the same layout, every
   * pixel's colour replaced by the filter's output for the input pixel, and
   * every byte that is not a colour byte copied from the input.
   */
  ghost predicate Transformed(src: Image, dst: Image, f: Filter, noise: RandomStream)
    requires Valid(src)
  {
    && SameLayout(dst, src)
    && (forall r, c | InBounds(src.shape, r, c) ::
          GetPixel(dst, r, c) == PixelOut(f, noise, Ordinal(src.shape, r, c), GetPixel(src, r, c)))
    && (forall i | 0 <= i < |src.data| && !IsColorByte(src.shape, i) :: dst.data[i] == src.data[i])
  }

  /** The inner loop: filters columns col.. of one row of `src` into `dst`. */
  function MapColumns(src: Image, dst: Image, f: Filter, noise: RandomStream, row: int, col: int): (out: Image)
    requires Valid(src) && SameLayout(dst, src)
    requires 0 <= row < src.shape.height && 0 <= col <= src.shape.width
    ensures SameLayout(out, src)
    ensures forall c | col <= c < src.shape.width ::
              GetPixel(out, row, c) == PixelOut(f, noise, Ordinal(src.shape, row, c), GetPixel(src, row, c))
    ensures forall r, c | InBounds(src.shape, r, c) && (r != row || c < col) :: GetPixel(out, r, c) == GetPixel(dst, r, c)
    ensures forall i | 0 <= i < |src.data| && !IsColorByte(src.shape, i) :: out.data[i] == dst.data[i]
    decreases src.shape.width - col
  {
    if col == src.shape.width then dst
    else
      assert 0 <= Ordinal(src.shape, row, col) by { MulLeq(0, row, src.shape.width); }
      var color := PixelOut(f, noise, Ordinal(src.shape, row, col), GetPixel(src, row, col));
      MapColumns(src, SetPixel(dst, row, col, color), f, noise, row, col + 1)
  }

  /** The outer loop: filters rows row.. of `src` into `dst`. */
  function MapRows(src: Image, dst: Image, f: Filter, noise: RandomStream, row: int): (out: Image)
    requires Valid(src) && SameLayout(dst, src)
    requires 0 <= row <= src.shape.height
    ensures SameLayout(out, src)
    ensures forall r, c | InBounds(src.shape, r, c) && row <= r ::
              GetPixel(out, r, c) == PixelOut(f, noise, Ordinal(src.shape, r, c), GetPixel(src, r, c))
    ensures forall r, c | InBounds(src.shape, r, c) && r < row :: GetPixel(out, r, c) == GetPixel(dst, r, c)
    ensures forall i | 0 <= i < |src.data| && !IsColorByte(src.shape, i) :: out.data[i] == dst.data[i]
    decreases src.shape.height - row
  {
    if row == src.shape.height then dst
    else MapRows(src, MapColumns(src, dst, f, noise, row, 0), f, noise, row + 1)
  }

  /**
   * `Run` of filter f on a buffer: a new buffer of the same layout (the input
   * is a value and is not changed) whose pixels are the filter's outputs and
   * whose other bytes are the input's. The identity filter returns the copy.
   */
  function Run(f: Filter, noise: RandomStream, src: Image): (dst: Image)
    requires Valid(src)
    ensures Valid(dst)
    ensures Transformed(src, dst, f, noise)
  {
    if f == NoneFilter then src else MapRows(src, src, f, noise, 0)
  }

  /** `Transformed` pins the output down completely: a filter has exactly one correct result. */
  lemma TransformedIsUnique(src: Image, a: Image, b: Image, f: Filter, noise: RandomStream)
    requires Valid(src)
    requires Transformed(src, a, f, noise) && Transformed(src, b, f, noise)
    ensures a == b
  {
    forall r, c | InBounds(a.shape, r, c)
      ensures GetPixel(a, r, c) == GetPixel(b, r, c)
    {
      assert InBounds(src.shape, r, c);
    }
    Extensionality(a, b);
  }

  /** The identity filter's output is byte-for-byte its input. */
  lemma IdentityIsCopy(src: Image, noise: RandomStream)
    requires Valid(src)
    ensures Run(NoneFilter, noise, src) == src
  {
  }

  /** A second grayscale pass changes nothing: after the first, all three channels are equal. */
  lemma GrayscaleIdempotent(src: Image, noise1: RandomStream, noise2: RandomStream)
    requires Valid(src)
    ensures Run(GrayscaleFilter, noise2, Run(GrayscaleFilter, noise1, src)) == Run(GrayscaleFilter, noise1, src)
  {
    var once := Run(GrayscaleFilter, noise1, src);
    var twice := Run(GrayscaleFilter, noise2, once);
    forall r, c | InBounds(once.shape, r, c)
      ensures GetPixel(once, r, c) == GetPixel(twice, r, c)
    {
      var p := GetPixel(once, r, c);
      assert GetPixel(twice, r, c) == Gray(p);
      assert Gray(p) == p by {
        assert p.red == p.green == p.blue;
      }
    }
    Extensionality(once, twice);
  }

  /** Per pixel: darkening a lightened colour restores it when no channel exceeds 155. */
  lemma DarkenUndoesLightenPixel(p: RGB, noise1: RandomStream, noise2: RandomStream, k: nat)
    requires p.red <= 155 && p.green <= 155 && p.blue <= 155
    ensures PixelOut(DarkenFilter, noise2, k, PixelOut(LightenFilter, noise1, k, p)) == p
  {
    assert PixelOut(LightenFilter, noise1, k, p) == RGB(p.red + 100, p.green + 100, p.blue + 100);
  }

  /**
   * Lightening and then darkening restores a buffer whose colour channels are
   * all at most 155, since no channel saturated on the way up.
   */
  lemma DarkenUndoesLighten(src: Image, noise1: RandomStream, noise2: RandomStream)
    requires Valid(src)
    requires forall r, c | InBounds(src.shape, r, c) ::
               var p := GetPixel(src, r, c); p.red <= 155 && p.green <= 155 && p.blue <= 155
    ensures Run(DarkenFilter, noise2, Run(LightenFilter, noise1, src)) == src
  {
    var light := Run(LightenFilter, noise1, src);
    var back := Run(DarkenFilter, noise2, light);
    forall r, c | InBounds(src.shape, r, c)
      ensures GetPixel(src, r, c) == GetPixel(back, r, c)
    {
      var p := GetPixel(src, r, c);
      var k := Ordinal(src.shape, r, c);
      assert GetPixel(light, r, c) == PixelOut(LightenFilter, noise1, k, p);
      assert GetPixel(back, r, c) == PixelOut(DarkenFilter, noise2, k, GetPixel(light, r, c));
      DarkenUndoesLightenPixel(p, noise1, noise2, k);
    }
    Extensionality(src, back);
  }

  /**
   * Every channel the jitter filter writes at pixel k (in raster order) is the
   * input channel plus draw 3k, 3k+1 or 3k+2, clamped to a byte; so it stays
   * within [max(0, c-100), min(255, c+99)].
   */
  lemma JitterStaysNear(src: Image, noise: RandomStream, r: int, c: int)
    requires Valid(src) && InBounds(src.shape, r, c)
    ensures var p := GetPixel(src, r, c);
            var q := GetPixel(Run(JitterFilter, noise, src), r, c);
            var k := Ordinal(src.shape, r, c);
            && q.red == ClampByte(p.red + noise(3 * k))
            && q.green == ClampByte(p.green + noise(3 * k + 1))
            && q.blue == ClampByte(p.blue + noise(3 * k + 2))
    ensures var p := GetPixel(src, r, c);
            var q := GetPixel(Run(JitterFilter, noise, src), r, c);
            && ClampByte(p.red - 100) <= q.red <= ClampByte(p.red + 99)
            && ClampByte(p.green - 100) <= q.green <= ClampByte(p.green + 99)
            && ClampByte(p.blue - 100) <= q.blue <= ClampByte(p.blue + 99)
  {
  }

  /** A buffer whose every pixel has colour p. */
  ghost predicate Uniform(img: Image, p: RGB)
    requires Valid(img)
  {
    forall r, c | InBounds(img.shape, r, c) :: GetPixel(img, r, c) == p
  }

  /** A buffer filled with (200,100,50) darkens to (100,0,0) and lightens to (255,200,150). */
  lemma LightenDarkenExample(src: Image, noise: RandomStream)
    requires Valid(src) && Uniform(src, RGB(200, 100, 50))
    ensures Uniform(Run(DarkenFilter, noise, src), RGB(100, 0, 0))
    ensures Uniform(Run(LightenFilter, noise, src), RGB(255, 200, 150))
  {
  }
}
