/**
 * The four cardinal directions of src/geom/mod.rs.  src/geom_ext.rs
 * declares the same enum with the same `flip`, `vals` and conversion to a
 * vector; it is modelled once, here.
 */
module Geom {
  import Vec

  datatype Card = Bottom | Left | Top | Right
  {
    /** `Card::flip`: the opposite direction, never the same one, pointing the other way. */
    function Flip(): (r: Card)
      ensures r != this
    {
      match this
      case Bottom => Top
      case Top => Bottom
      case Left => Right
      case Right => Left
    }

    /** `Into<Vec2> for Card`: a unit vector along one axis. */
    function ToVec2(): (r: Vec.Vec2)
      ensures (r.x == 0.0) != (r.y == 0.0)
      ensures r.x + r.y == 1.0 || r.x + r.y == -1.0
    {
      match this
      case Bottom => Vec.Vec2(0.0, -1.0)
      case Left => Vec.Vec2(-1.0, 0.0)
      case Top => Vec.Vec2(0.0, 1.0)
      case Right => Vec.Vec2(1.0, 0.0)
    }
  }

  /** `Card::vals`: every direction exactly once. */
  function Vals(): (r: seq<Card>)
    ensures |r| == 4
    ensures forall c: Card :: c in r
    ensures forall i, j :: 0 <= i < j < |r| ==> r[i] != r[j]
  {
    var r := [Bottom, Left, Top, Right];
    EveryCardListed(r);
    r
  }

  lemma EveryCardListed(r: seq<Card>)
    requires r == [Bottom, Left, Top, Right]
    ensures forall c: Card :: c in r
  {
    forall c: Card
      ensures c in r
    {
      match c
      case Bottom => assert r[0] == c;
      case Left => assert r[1] == c;
      case Top => assert r[2] == c;
      case Right => assert r[3] == c;
    }
  }

  /** Flipping is an involution and points the unit vector the other way. */
  lemma FlipInvolution(c: Card)
    ensures c.Flip().Flip() == c
    ensures c.Flip().ToVec2() == Vec.Neg(c.ToVec2())
  {
    match c
    case Bottom =>
    case Left =>
    case Top =>
    case Right =>
  }
}
