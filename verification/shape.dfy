/**
 * Shapes and placed shapes (src/geom/shape/mod.rs).  A `Shape` can only be
 * built through `Shape::new`, whose assertion makes every shape consistent:
 * a circle's width equals its height.  The subset type `Shape` carries that
 * fact, so every operation below that goes through `Shape::new` is proved
 * never to trip the assertion.
 */
module Shape {
  import opened Prelude
  import opened Vec

  datatype ShapeKind = Circle | Rect

  datatype ShapeData = ShapeData(kind: ShapeKind, width: real, height: real)

  /** The condition asserted by `Shape::new`. */
  predicate Consistent(kind: ShapeKind, width: real, height: real)
  {
    kind == Rect || width == height
  }

  type Shape = s: ShapeData | Consistent(s.kind, s.width, s.height) witness ShapeData(Rect, 0.0, 0.0)

  /** `Shape::new`: `None` stands for the panic on a circle whose width differs from its height. */
  function New(kind: ShapeKind, width: real, height: real): (r: Option<Shape>)
    ensures r.Some? <==> Consistent(kind, width, height)
    ensures r.Some? ==> r.value.kind == kind && r.value.width == width && r.value.height == height
  {
    if Consistent(kind, width, height) then Some(ShapeData(kind, width, height)) else None
  }

  /** `Shape::new_circle`: never panics. */
  function NewCircle(diam: real): (r: Shape)
    ensures New(Circle, diam, diam) == Some(r)
  {
    ShapeData(Circle, diam, diam)
  }

  /** `Shape::new_rect`: never panics, whatever the dimensions. */
  function NewRect(width: real, height: real): (r: Shape)
    ensures New(Rect, width, height) == Some(r)
  {
    ShapeData(Rect, width, height)
  }

  /** `Mul<f64> for Shape`: the inner `Shape::new` never panics. */
  function Scale(s: Shape, k: real): (r: Shape)
    ensures New(s.kind, s.width * k, s.height * k) == Some(r)
  {
    ShapeData(s.kind, s.width * k, s.height * k)
  }

  /**
   * `Add for Shape`: `None` stands for the "cannot add circle with rect"
   * panic; otherwise the inner `Shape::new` never panics.
   */
  function Add(a: Shape, b: Shape): (r: Option<Shape>)
    ensures r.Some? <==> a.kind == b.kind
    ensures r.Some? ==> New(a.kind, a.width + b.width, a.height + b.height) == r
  {
    if a.kind == b.kind then Some(ShapeData(a.kind, a.width + b.width, a.height + b.height)) else None
  }

  /** `Sub for Shape`: the same kind check as `Add`, and it undoes `Add`. */
  function Sub(a: Shape, b: Shape): (r: Option<Shape>)
    ensures r.Some? <==> a.kind == b.kind
    ensures r.Some? ==> New(a.kind, a.width - b.width, a.height - b.height) == r
    ensures r.Some? ==> Add(r.value, b) == Some(a)
  {
    if a.kind == b.kind then Some(ShapeData(a.kind, a.width - b.width, a.height - b.height)) else None
  }

  /** `Neg for Shape`: the inner `Shape::new` never panics, and `a - b` is `a + -b`. */
  function Neg(s: Shape): (r: Shape)
    ensures New(s.kind, -s.width, -s.height) == Some(r)
    ensures forall a: Shape :: Sub(a, s) == Add(a, r)
  {
    ShapeData(s.kind, -s.width, -s.height)
  }

  /** Subtraction undoes addition, and negation is an involution. */
  lemma SubUndoesAdd(a: Shape, b: Shape)
    requires a.kind == b.kind
    ensures Add(a, b).Some? && Sub(Add(a, b).value, b) == Some(a)
    ensures Neg(Neg(a)) == a
  {
  }

  datatype PlacedShape = PlacedShape(pos: Vec2, shape: Shape)
  {
    function Kind(): ShapeKind { shape.kind }
    function Width(): real { shape.width }
    function Height(): real { shape.height }

    /** `bottom`: half the height below the centre. */
    function Bottom(): (r: real)
      ensures pos.y - r == 0.5 * shape.height
    {
      pos.y - 0.5 * shape.height
    }

    /** `left`: half the width left of the centre. */
    function Left(): (r: real)
      ensures pos.x - r == 0.5 * shape.width
    {
      pos.x - 0.5 * shape.width
    }

    /** `top`: one height above the bottom edge. */
    function Top(): (r: real)
      ensures r - Bottom() == shape.height
    {
      pos.y + 0.5 * shape.height
    }

    /** `right`: one width right of the left edge. */
    function Right(): (r: real)
      ensures r - Left() == shape.width
    {
      pos.x + 0.5 * shape.width
    }
  }

  /** `Mul<f64> for PlacedShape`: position and dimensions scale together, so every edge scales. */
  function PlacedScale(p: PlacedShape, k: real): (r: PlacedShape)
    ensures r.Kind() == p.Kind()
    ensures r.Left() == p.Left() * k && r.Right() == p.Right() * k
    ensures r.Bottom() == p.Bottom() * k && r.Top() == p.Top() * k
  {
    var r := PlacedShape(Vec.Scale(p.pos, k), Scale(p.shape, k));
    assert r.Left() == p.Left() * k by {
      assert (p.pos.x - 0.5 * p.shape.width) * k == p.pos.x * k - 0.5 * (p.shape.width * k);
    }
    assert r.Right() == p.Right() * k by {
      assert (p.pos.x + 0.5 * p.shape.width) * k == p.pos.x * k + 0.5 * (p.shape.width * k);
    }
    assert r.Bottom() == p.Bottom() * k by {
      assert (p.pos.y - 0.5 * p.shape.height) * k == p.pos.y * k - 0.5 * (p.shape.height * k);
    }
    assert r.Top() == p.Top() * k by {
      assert (p.pos.y + 0.5 * p.shape.height) * k == p.pos.y * k + 0.5 * (p.shape.height * k);
    }
    r
  }

  /** `Add for PlacedShape`: `None` stands for the kind-mismatch panic; edges add up. */
  function PlacedAdd(a: PlacedShape, b: PlacedShape): (r: Option<PlacedShape>)
    ensures r.Some? <==> a.Kind() == b.Kind()
    ensures r.Some? ==> r.value.Kind() == a.Kind()
    ensures r.Some? ==> r.value.Left() == a.Left() + b.Left() && r.value.Right() == a.Right() + b.Right()
    ensures r.Some? ==> r.value.Bottom() == a.Bottom() + b.Bottom() && r.value.Top() == a.Top() + b.Top()
  {
    match Add(a.shape, b.shape)
    case None => None
    case Some(s) => Some(PlacedShape(Vec.Add(a.pos, b.pos), s))
  }

  /** `Sub for PlacedShape`: `None` stands for the kind-mismatch panic; it undoes `PlacedAdd`. */
  function PlacedSub(a: PlacedShape, b: PlacedShape): (r: Option<PlacedShape>)
    ensures r.Some? <==> a.Kind() == b.Kind()
    ensures r.Some? ==> PlacedAdd(r.value, b) == Some(a)
  {
    match Sub(a.shape, b.shape)
    case None => None
    case Some(s) => Some(PlacedShape(Vec.Sub(a.pos, b.pos), s))
  }

  /**
   * `Neg for PlacedShape`: position and dimensions are both negated, so each
   * edge is negated in place (the dimensions become negative, so `left` is
   * then right of `right`).
   */
  function PlacedNeg(p: PlacedShape): (r: PlacedShape)
    ensures r.Kind() == p.Kind()
    ensures r.Left() == -p.Left() && r.Right() == -p.Right()
    ensures r.Bottom() == -p.Bottom() && r.Top() == -p.Top()
    ensures PlacedAdd(p, r) == Some(PlacedShape(Zero(), ShapeData(p.Kind(), 0.0, 0.0)))
  {
    var r := PlacedShape(Vec.Neg(p.pos), Neg(p.shape));
    assert r.pos.x == -p.pos.x && r.pos.y == -p.pos.y;
    assert r.shape.width == -p.shape.width && r.shape.height == -p.shape.height;
    r
  }
}
