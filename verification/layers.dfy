/**
 * A layer: an overlay image that is never changed, a display name that is
 * fixed at construction, and a mutable placement (centre x, y and a uniform
 * scale). This module computes where a layer lands on a target buffer and
 * whether a point hits it; the pixel blending itself is an abstract function.
 */
module Layers {
  import opened Results
  import opened Pixbuf

  datatype Layer = Layer(original: Image, name: string, size: real, x: real, y: real)

  /** The rectangle a layer is drawn into: top-left corner and extent, in target pixels. */
  datatype Placement = Placement(x: int, y: int, width: int, height: int)

  /**
   * The library call that draws the scaled original into the placement
   * rectangle of the target, given the original, the target, the rectangle
   * and the scale.
   */
  type Blender = (Image, Image, Placement, real) -> Image

  /** The blend returns a buffer with the target's dimensions and layout. */
  ghost predicate PreservesLayout(blend: Blender)
  {
    forall src, dst, p, s :: SameLayout(blend(src, dst, p, s), dst)
  }

  /** A new layer: scale 1, centred at the origin. */
  function NewLayer(pixels: Image, name: string): (l: Layer)
    ensures l.original == pixels && l.name == name
    ensures l.size == 1.0 && l.x == 0.0 && l.y == 0.0
  {
    Layer(pixels, name, 1.0, 0.0, 0.0)
  }

  /** The C# `(int)` conversion of a double: rounds toward zero. */
  function Trunc(v: real): (n: int)
    ensures 0.0 <= v ==> 0 <= n && n as real <= v < n as real + 1.0
    ensures v < 0.0 ==> n <= 0 && n as real - 1.0 < v <= n as real
  {
    if v >= 0.0 then v.Floor else -((-v).Floor)
  }

  /** C# integer division by two, which rounds toward zero (Dafny's `/` rounds down). */
  function HalfTowardZero(n: int): (h: int)
    ensures 0 <= n ==> 2 * h <= n <= 2 * h + 1
    ensures n < 0 ==> 2 * h - 1 <= n <= 2 * h
  {
    if n >= 0 then n / 2 else -((-n) / 2)
  }

  function Abs(v: int): int
  {
    if v < 0 then -v else v
  }

  /** The scaled footprint's width, truncated toward zero. */
  function LayerWidth(l: Layer): int
  {
    Trunc(l.size * l.original.shape.width as real)
  }

  /** The scaled footprint's height, truncated toward zero. */
  function LayerHeight(l: Layer): int
  {
    Trunc(l.size * l.original.shape.height as real)
  }

  /** The top-left corner the layer asks for before clamping: its centre minus half its footprint. */
  function IdealX(l: Layer): int
  {
    Trunc(l.x - HalfTowardZero(LayerWidth(l)) as real)
  }

  function IdealY(l: Layer): int
  {
    Trunc(l.y - HalfTowardZero(LayerHeight(l)) as real)
  }

  /**
   * The placement part of `Layer.Apply`. A footprint wider or taller than the
   * target is not drawn at all. Otherwise the rectangle has the footprint's
   * extent and lies entirely inside the target: its corner is the ideal
   * corner, moved the least distance needed to keep the rectangle inside.
   */
  function Place(l: Layer, target: Shape): (p: Option<Placement>)
    ensures p.None? <==> LayerWidth(l) > target.width || LayerHeight(l) > target.height
    ensures p.Some? ==> p.value.width == LayerWidth(l) && p.value.height == LayerHeight(l)
    ensures p.Some? ==> 0 <= p.value.x && p.value.x + p.value.width <= target.width
    ensures p.Some? ==> 0 <= p.value.y && p.value.y + p.value.height <= target.height
    ensures p.Some? && 0 <= IdealX(l) && IdealX(l) + LayerWidth(l) <= target.width ==> p.value.x == IdealX(l)
    ensures p.Some? && 0 <= IdealY(l) && IdealY(l) + LayerHeight(l) <= target.height ==> p.value.y == IdealY(l)
  {
    var layerWidth := LayerWidth(l);
    var layerHeight := LayerHeight(l);
    if layerWidth > target.width || layerHeight > target.height then None
    else
      var startx := Trunc(l.x - HalfTowardZero(layerWidth) as real);
      var starty := Trunc(l.y - HalfTowardZero(layerHeight) as real);
      var width := Trunc(l.original.shape.width as real * l.size);
      var height := Trunc(l.original.shape.height as real * l.size);
      Some(Placement(Clamp(startx, 0, target.width - layerWidth), Clamp(starty, 0, target.height - layerHeight),
                     width, height))
  }

  /** No other in-bounds corner is closer to the ideal one than the corner `Place` picks. */
  lemma PlacementIsNearest(l: Layer, target: Shape, sx: int, sy: int)
    requires Place(l, target).Some?
    requires 0 <= sx && sx + LayerWidth(l) <= target.width
    requires 0 <= sy && sy + LayerHeight(l) <= target.height
    ensures Abs(Place(l, target).value.x - IdealX(l)) <= Abs(sx - IdealX(l))
    ensures Abs(Place(l, target).value.y - IdealY(l)) <= Abs(sy - IdealY(l))
  {
  }

  /** Truncating or flooring the ideal corner makes no difference once it is clamped at zero. */
  lemma ClampedTruncIsClampedFloor(v: real, hi: int)
    requires 0 <= hi
    ensures Clamp(Trunc(v), 0, hi) == Clamp(v.Floor, 0, hi)
  {
  }

  /**
   * `Layer.Apply`: composes the layer onto the target. A layer too large for
   * the target leaves it exactly as it was; either way the result keeps the
   * target's layout. The layer itself is a value and is not changed.
   */
  function Apply(l: Layer, target: Image, blend: Blender): (out: Image)
    requires Valid(target) && PreservesLayout(blend)
    ensures SameLayout(out, target) && Valid(out)
    ensures Place(l, target.shape).None? ==> out == target
  {
    match Place(l, target.shape)
    case None => target
    case Some(p) => blend(l.original, target, p, l.size)
  }

  function AbsReal(v: real): real
  {
    if v < 0.0 then -v else v
  }

  /**
   * True iff (px, py) lies in the closed box of the scaled footprint centred
   * on the layer's position: within half the scaled width of the centre
   * horizontally and half the scaled height vertically.
   */
  predicate Hits(l: Layer, px: real, py: real): (b: bool)
    ensures b <==>
              && AbsReal(px - l.x) <= l.size * l.original.shape.width as real / 2.0
              && AbsReal(py - l.y) <= l.size * l.original.shape.height as real / 2.0
  {
    var minX := l.x - l.size * l.original.shape.width as real / 2.0;
    var maxX := l.x + l.size * l.original.shape.width as real / 2.0;
    var minY := l.y - l.size * l.original.shape.height as real / 2.0;
    var maxY := l.y + l.size * l.original.shape.height as real / 2.0;
    minX <= px && px <= maxX && minY <= py && py <= maxY
  }

  /**
   * The box is closed: for a non-negative scale its four edges hit, and a
   * point one unit beyond any edge does not.
   */
  lemma HitsBoundary(l: Layer)
    requires 0.0 <= l.size && Valid(l.original)
    ensures var hw := l.size * l.original.shape.width as real / 2.0;
            var hh := l.size * l.original.shape.height as real / 2.0;
            && Hits(l, l.x - hw, l.y - hh) && Hits(l, l.x + hw, l.y + hh)
            && Hits(l, l.x - hw, l.y + hh) && Hits(l, l.x + hw, l.y - hh)
            && !Hits(l, l.x - hw - 1.0, l.y) && !Hits(l, l.x + hw + 1.0, l.y)
            && !Hits(l, l.x, l.y - hh - 1.0) && !Hits(l, l.x, l.y + hh + 1.0)
  {
    assert 0.0 <= l.size * l.original.shape.width as real;
    assert 0.0 <= l.size * l.original.shape.height as real;
  }

  /** A 20x20 layer at scale 1 centred at (50, 50) on a 100x100 target is drawn from (40, 40) to (60, 60). */
  lemma CenteredPlacementExample(l: Layer, target: Shape)
    requires l.original.shape.width == 20 && l.original.shape.height == 20
    requires l.size == 1.0 && l.x == 50.0 && l.y == 50.0
    requires target.width == 100 && target.height == 100
    ensures Place(l, target) == Some(Placement(40, 40, 20, 20))
  {
  }
}
