/**
 * Axis-aligned helpers on placed shapes (src/geom_ext.rs): which of the
 * nine sectors around a shape's box a point falls in, the box corner of a
 * corner sector, how far two boxes overlap along a direction, and the box
 * that bounds two shapes.  Every shape is treated as its box
 * (`left`..`right` by `bottom`..`top`).
 */
module GeomExt {
  import opened Prelude
  import opened Vec
  import opened Shape
  import opened Geom

  /** Where a point lies relative to a box, one `Ordering` per axis. */
  datatype Sector = Sector(x: Ordering, y: Ordering)
  {
    /** `Sector::is_corner`: outside the box's extent on both axes. */
    predicate IsCorner()
    {
      x != Equal && y != Equal
    }
  }

  /** `interval_sector`: below, inside or above the closed interval `[left, right]`. */
  function IntervalSector(left: real, right: real, val: real): (r: Ordering)
    ensures r == Less <==> val < left
    ensures r == Greater <==> left <= val && right < val
    ensures r == Equal <==> left <= val <= right
  {
    if val < left then Less
    else if val > right then Greater
    else Equal
  }

  /** The closed box of a shape contains a point. */
  predicate InBox(s: PlacedShape, p: Vec2)
  {
    s.Left() <= p.x <= s.Right() && s.Bottom() <= p.y <= s.Top()
  }

  /** `sector`: a point is in the middle sector exactly when it lies in the closed box. */
  function SectorOf(s: PlacedShape, point: Vec2): (r: Sector)
    ensures r == Sector(Equal, Equal) <==> InBox(s, point)
    ensures r.x == Less <==> point.x < s.Left()
    ensures r.y == Less <==> point.y < s.Bottom()
    ensures r.x == Greater <==> s.Left() <= point.x && s.Right() < point.x
    ensures r.y == Greater <==> s.Bottom() <= point.y && s.Top() < point.y
  {
    Sector(IntervalSector(s.Left(), s.Right(), point.x), IntervalSector(s.Bottom(), s.Top(), point.y))
  }

  /**
   * `corner`: the box corner facing a corner sector.  A non-corner sector
   * panics in the library ("expected corner sector"); here it is excluded.
   */
  function Corner(s: PlacedShape, sector: Sector): (r: Vec2)
    requires sector.IsCorner()
    ensures r.x == s.Left() || r.x == s.Right()
    ensures r.y == s.Bottom() || r.y == s.Top()
    ensures s.Width() >= 0.0 && s.Height() >= 0.0 ==> InBox(s, r)
  {
    var x := if sector.x == Less then s.Left() else s.Right();
    var y := if sector.y == Less then s.Bottom() else s.Top();
    Vec2(x, y)
  }

  /**
   * For a point in a corner sector, the corner lies between the point and any
   * point of the box on both axes: it is the box point nearest to it.
   */
  lemma CornerIsNearest(s: PlacedShape, p: Vec2, q: Vec2)
    requires SectorOf(s, p).IsCorner()
    requires InBox(s, q)
    ensures var c := Corner(s, SectorOf(s, p));
      (p.x <= c.x <= q.x || q.x <= c.x <= p.x) && (p.y <= c.y <= q.y || q.y <= c.y <= p.y)
  {
  }

  /** `edge`: the box's extent along a direction, measured outwards from the origin. */
  function Edge(s: PlacedShape, card: Card): (r: real)
    ensures card == Right ==> r == s.pos.x + 0.5 * s.Width()
    ensures card == Left ==> r == -s.pos.x + 0.5 * s.Width()
    ensures card == Top ==> r == s.pos.y + 0.5 * s.Height()
    ensures card == Bottom ==> r == -s.pos.y + 0.5 * s.Height()
  {
    match card
    case Bottom => -s.Bottom()
    case Left => -s.Left()
    case Top => s.Top()
    case Right => s.Right()
  }

  /**
   * `card_overlap`: how far `src` reaches past `self`'s opposite edge
   * along `card`; e.g. for `Right`, `src.right - self.left`.
   */
  function CardOverlap(self: PlacedShape, src: PlacedShape, card: Card): (r: real)
    ensures card == Right ==> r == src.Right() - self.Left()
    ensures card == Left ==> r == self.Right() - src.Left()
    ensures card == Top ==> r == src.Top() - self.Bottom()
    ensures card == Bottom ==> r == self.Top() - src.Bottom()
  {
    Edge(src, card) + Edge(self, card.Flip())
  }

  /** Two closed boxes intersect: their extents meet on both axes. */
  predicate BoxesIntersect(a: PlacedShape, b: PlacedShape)
  {
    a.Left() <= b.Right() && b.Left() <= a.Right() && a.Bottom() <= b.Top() && b.Bottom() <= a.Top()
  }

  /**
   * The overlap seen from one box along a direction is the overlap seen from
   * the other along the opposite direction.
   */
  lemma CardOverlapSymmetric(a: PlacedShape, b: PlacedShape, card: Card)
    ensures CardOverlap(a, b, card) == CardOverlap(b, a, card.Flip())
  {
    match card
    case Bottom =>
    case Left =>
    case Top =>
    case Right =>
  }

  /** All four directional overlaps are non-negative exactly when the boxes intersect. */
  lemma CardOverlapsIffIntersect(a: PlacedShape, b: PlacedShape)
    ensures BoxesIntersect(a, b) <==> forall c: Card :: CardOverlap(a, b, c) >= 0.0
  {
    if BoxesIntersect(a, b) {
      forall c: Card
        ensures CardOverlap(a, b, c) >= 0.0
      {
        match c
        case Bottom =>
        case Left =>
        case Top =>
        case Right =>
      }
    }
    if forall c: Card :: CardOverlap(a, b, c) >= 0.0 {
      var l, r, t, bo := CardOverlap(a, b, Left), CardOverlap(a, b, Right), CardOverlap(a, b, Top), CardOverlap(a, b, Bottom);
      assert l >= 0.0 && r >= 0.0 && t >= 0.0 && bo >= 0.0;
    }
  }

  /** `is_zero`: all four edges sit at the origin. */
  function IsZero(s: PlacedShape): (r: bool)
    ensures r <==> s.Left() == 0.0 && s.Right() == 0.0 && s.Bottom() == 0.0 && s.Top() == 0.0
  {
    s.pos == Zero() && s.Width() == 0.0 && s.Height() == 0.0
  }

  /** `as_rect`: the same box, as a rectangle. */
  function AsRect(s: PlacedShape): (r: PlacedShape)
    ensures r.Kind() == Rect
    ensures r.Left() == s.Left() && r.Right() == s.Right() && r.Bottom() == s.Bottom() && r.Top() == s.Top()
  {
    PlacedShape(s.pos, NewRect(s.Width(), s.Height()))
  }

  /** `f64::max`. */
  function Max(a: real, b: real): real
  {
    if a < b then b else a
  }

  /** `f64::min`. */
  function Min(a: real, b: real): real
  {
    if a < b then a else b
  }

  /**
   * `bounding_box`: the rectangle whose edges are the outermost edges of the
   * two shapes.
   */
  function BoundingBox(a: PlacedShape, b: PlacedShape): (r: PlacedShape)
    ensures r.Kind() == Rect
    ensures r.Left() == Min(a.Left(), b.Left()) && r.Right() == Max(a.Right(), b.Right())
    ensures r.Bottom() == Min(a.Bottom(), b.Bottom()) && r.Top() == Max(a.Top(), b.Top())
  {
    var right := Max(a.Right(), b.Right());
    var top := Max(a.Top(), b.Top());
    var left := Min(a.Left(), b.Left());
    var bottom := Min(a.Bottom(), b.Bottom());
    var shape := NewRect(right - left, top - bottom);
    PlacedShape(Vec2(left + 0.5 * shape.width, bottom + 0.5 * shape.height), shape)
  }

  /** Each shape's box lies inside the bounding box of the two. */
  lemma BoundingBoxContains(a: PlacedShape, b: PlacedShape, p: Vec2)
    requires InBox(a, p) || InBox(b, p)
    ensures InBox(BoundingBox(a, b), p)
  {
  }
}
