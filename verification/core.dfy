/**
 * Moving hitboxes (src/core/mod.rs): a placed shape, a velocity expressed
 * as a placed shape (the rate of change of position and of size), and how
 * long that motion stays valid.  `advance` moves a hitbox forward in time and
 * `bounding_box_for` gives the box it sweeps.
 */
module Core {
  import opened Prelude
  import opened Vec
  import opened Shape
  import opened GeomExt

  /** `HIGH_TIME`: times at or beyond this are treated as never. */
  const HIGH_TIME: real := 100000000000000000000000000000000000000000000000000.0

  /** `HitboxId` is a `u64` chosen by the user. */
  type HitboxId = nat

  /**
   * An interactivity group.  The interactivity module is not part of this
   * model; groups are only compared for equality.
   */
  type Group = nat

  datatype Hitbox = Hitbox(
    shape: PlacedShape,
    vel: PlacedShape,
    group: Option<Group>,
    interactivityChange: bool,
    duration: XReal)
  {
    /** Adding `vel * t` to `shape` needs both to be of the same kind. */
    predicate WellKinded()
    {
      vel.Kind() == shape.Kind()
    }
  }

  /** `PlacedShape::zero(kind)`: no displacement and no change of size. */
  function ZeroVel(kind: ShapeKind): (r: PlacedShape)
    ensures r.Kind() == kind && IsZero(r)
  {
    PlacedShape(Zero(), ShapeData(kind, 0.0, 0.0))
  }

  /** `Hitbox::new`: a stationary hitbox in group 0 that stays valid forever. */
  function New(shape: PlacedShape): (r: Hitbox)
    ensures r.shape == shape && r.WellKinded() && IsZero(r.vel)
    ensures r.group == Some(0) && !r.interactivityChange && r.duration == PosInf
  {
    Hitbox(shape, ZeroVel(shape.Kind()), Some(0), false, PosInf)
  }

  /**
   * `advanced_shape`: where the shape is after `time`; each edge moves
   * linearly with the matching edge of the velocity.  The library asserts
   * `time <= HIGH_TIME`.
   */
  function AdvancedShape(h: Hitbox, time: real): (r: PlacedShape)
    requires h.WellKinded() && time <= HIGH_TIME
    ensures r.Kind() == h.shape.Kind()
    ensures r.Left() == h.shape.Left() + h.vel.Left() * time
    ensures r.Right() == h.shape.Right() + h.vel.Right() * time
    ensures r.Bottom() == h.shape.Bottom() + h.vel.Bottom() * time
    ensures r.Top() == h.shape.Top() + h.vel.Top() * time
  {
    PlacedAdd(h.shape, PlacedScale(h.vel, time)).value
  }

  /** What `advance` asserts: time does not run backwards or past the hitbox's duration. */
  predicate CanAdvance(h: Hitbox, origTime: real, newTime: real)
  {
    && h.WellKinded()
    && origTime <= newTime
    && (newTime - origTime != 0.0 ==>
          newTime - origTime <= HIGH_TIME && Fin(newTime).Le(Plus(origTime, h.duration)))
  }

  /**
   * `advance`, which updates the hitbox in place; here it returns the
   * updated value.  The hitbox's end time (`orig_time + duration`) is kept,
   * the velocity, group and kind are untouched, and advancing by nothing
   * changes nothing.
   */
  function Advance(h: Hitbox, origTime: real, newTime: real): (r: Hitbox)
    requires CanAdvance(h, origTime, newTime)
    ensures Plus(newTime, r.duration) == Plus(origTime, h.duration)
    ensures r.vel == h.vel && r.group == h.group && r.interactivityChange == h.interactivityChange
    ensures r.WellKinded() && r.shape.Kind() == h.shape.Kind()
    ensures newTime == origTime ==> r == h
    ensures r.shape == AdvancedShape(h, newTime - origTime)
  {
    var delta := newTime - origTime;
    if delta != 0.0 then
      var endTime := Plus(origTime, h.duration);
      h.(shape := AdvancedShape(h, delta), duration := Minus(endTime, newTime))
    else
      h
  }

  lemma Distribute(a: real, b: real, c: real)
    ensures a * b + a * c == a * (b + c)
  {
  }

  /** The centre and the dimensions of the advanced shape, one by one. */
  lemma AdvancedParts(h: Hitbox, d: real)
    requires h.WellKinded() && d <= HIGH_TIME
    ensures AdvancedShape(h, d).pos == Vec2(h.shape.pos.x + h.vel.pos.x * d, h.shape.pos.y + h.vel.pos.y * d)
    ensures AdvancedShape(h, d).shape.kind == h.shape.shape.kind
    ensures AdvancedShape(h, d).shape.width == h.shape.shape.width + h.vel.shape.width * d
    ensures AdvancedShape(h, d).shape.height == h.shape.shape.height + h.vel.shape.height * d
  {
  }

  /** Moving by `d1` and then by `d2` at the same velocity is moving by `d1 + d2`. */
  lemma {:induction false} AdvancedShapeTwice(h: Hitbox, h1: Hitbox, d1: real, d2: real)
    requires h.WellKinded() && d1 <= HIGH_TIME && d2 <= HIGH_TIME && d1 + d2 <= HIGH_TIME
    requires h1.vel == h.vel && h1.shape == AdvancedShape(h, d1)
    ensures h1.WellKinded() && AdvancedShape(h1, d2) == AdvancedShape(h, d1 + d2)
  {
    var v := h.vel;
    AdvancedParts(h, d1);
    AdvancedParts(h1, d2);
    AdvancedParts(h, d1 + d2);
    Distribute(v.pos.x, d1, d2);
    Distribute(v.pos.y, d1, d2);
    Distribute(v.shape.width, d1, d2);
    Distribute(v.shape.height, d1, d2);
  }

  /**
   * Advancing in two steps is advancing in one: the same shape, velocity and
   * end time.
   */
  lemma {:induction false} AdvanceTwice(h: Hitbox, t0: real, t1: real, t2: real)
    requires CanAdvance(h, t0, t1) && CanAdvance(Advance(h, t0, t1), t1, t2)
    requires t2 - t0 <= HIGH_TIME
    ensures CanAdvance(h, t0, t2)
    ensures Advance(Advance(h, t0, t1), t1, t2) == Advance(h, t0, t2)
  {
    var h1 := Advance(h, t0, t1);
    if t1 - t0 == 0.0 {
      assert h1 == h && t1 == t0;
    } else if t2 - t1 == 0.0 {
      assert Advance(h1, t1, t2) == h1 && t2 == t1;
    } else {
      var endTime := Plus(t0, h.duration);
      assert h1.shape == AdvancedShape(h, t1 - t0);
      AdvancedShapeTwice(h, h1, t1 - t0, t2 - t1);
      assert (t1 - t0) + (t2 - t1) == t2 - t0;
      assert Plus(t1, h1.duration) == endTime;
      var h2 := Advance(h1, t1, t2);
      assert h2.shape == AdvancedShape(h, t2 - t0);
      assert h2.duration == Minus(endTime, t2);
    }
  }

  /** `bounding_box_for` asserts what `advanced_shape` needs unless the hitbox is stationary. */
  predicate CanBound(h: Hitbox, duration: XReal)
  {
    h.WellKinded() && (IsZero(h.vel) || (duration.Fin? && duration.val <= HIGH_TIME))
  }

  /**
   * `bounding_box_for`: a rectangle holding the shape now and at the end
   * of `duration`.
   */
  function BoundingBoxFor(h: Hitbox, duration: XReal): (r: PlacedShape)
    requires CanBound(h, duration)
    ensures r.Kind() == Rect
    ensures r.Left() <= h.shape.Left() && h.shape.Right() <= r.Right()
    ensures r.Bottom() <= h.shape.Bottom() && h.shape.Top() <= r.Top()
    ensures !IsZero(h.vel) ==> BoxContains(r, AdvancedShape(h, duration.val))
    ensures IsZero(h.vel) ==> r.Left() == h.shape.Left() && r.Right() == h.shape.Right()
    ensures IsZero(h.vel) ==> SameBox(r, h.shape)
    ensures !IsZero(h.vel) ==> IsHull(r, h.shape, AdvancedShape(h, duration.val))
  {
    if IsZero(h.vel) then AsRect(h.shape)
    else BoundingBox(h.shape, AdvancedShape(h, duration.val))
  }

  /** One box lies inside another. */
  predicate BoxContains(outer: PlacedShape, inner: PlacedShape)
  {
    outer.Left() <= inner.Left() && inner.Right() <= outer.Right()
    && outer.Bottom() <= inner.Bottom() && inner.Top() <= outer.Top()
  }

  /** Two boxes with the same four edges. */
  predicate SameBox(a: PlacedShape, b: PlacedShape)
  {
    a.Left() == b.Left() && a.Right() == b.Right() && a.Bottom() == b.Bottom() && a.Top() == b.Top()
  }

  /** `r` is the smallest box holding both `a` and `b`. */
  predicate IsHull(r: PlacedShape, a: PlacedShape, b: PlacedShape)
  {
    && r.Left() == Min(a.Left(), b.Left()) && r.Right() == Max(a.Right(), b.Right())
    && r.Bottom() == Min(a.Bottom(), b.Bottom()) && r.Top() == Max(a.Top(), b.Top())
  }

  /** `bounding_box`: the box swept over the hitbox's own duration. */
  function BoundingBoxOf(h: Hitbox): (r: PlacedShape)
    requires CanBound(h, h.duration)
    ensures r.Kind() == Rect && BoxContains(r, h.shape)
    ensures IsZero(h.vel) ==> SameBox(r, h.shape)
    ensures !IsZero(h.vel) ==> IsHull(r, h.shape, AdvancedShape(h, h.duration.val))
  {
    BoundingBoxFor(h, h.duration)
  }

  lemma MulNonNegative(a: real, b: real)
    requires a >= 0.0 && b >= 0.0
    ensures a * b >= 0.0
  {
  }

  /**
   * An edge moving at a constant rate `v` stays, over `[0, d]`, between where
   * it starts and where it ends; with `AdvancedShape`, whose edges move
   * linearly, and `BoundingBoxFor`, which spans both ends, this is why the
   * bounding box covers the whole motion.
   */
  lemma {:induction false} LinearMotionBetween(e: real, v: real, d: real, t: real)
    requires 0.0 <= t <= d
    ensures Min(e, e + v * d) <= e + v * t <= Max(e, e + v * d)
  {
    if v >= 0.0 {
      MulNonNegative(v, t);
      MulNonNegative(v, d - t);
      assert v * (d - t) == v * d - v * t;
    } else {
      MulNonNegative(-v, t);
      MulNonNegative(-v, d - t);
      assert (-v) * t == -(v * t);
      assert (-v) * (d - t) == v * t - v * d;
    }
  }

  /**
   * The box `bounding_box_for` gives over `[0, d]` holds the shape at every
   * moment of that interval, not only at both ends.
   */
  lemma {:induction false} SweptBoxCovers(h: Hitbox, d: real, t: real)
    requires h.WellKinded() && 0.0 <= t <= d <= HIGH_TIME
    ensures BoxContains(BoundingBoxFor(h, Fin(d)), AdvancedShape(h, t))
  {
    if !IsZero(h.vel) {
      SweptLeft(h, d, t);
      SweptRight(h, d, t);
      SweptBottom(h, d, t);
      SweptTop(h, d, t);
    }
  }

  /** The edges of `SweptBoxCovers`, one at a time: each lies between its two ends. */
  lemma {:induction false} SweptLeft(h: Hitbox, d: real, t: real)
    requires h.WellKinded() && 0.0 <= t <= d <= HIGH_TIME
    ensures Min(h.shape.Left(), AdvancedShape(h, d).Left()) <= AdvancedShape(h, t).Left()
  {
    var e, m := AdvancedShape(h, d), AdvancedShape(h, t);
    EdgeSwept(h.shape.Left(), e.Left(), m.Left(), h.vel.Left(), d, t);
  }

  lemma {:induction false} SweptRight(h: Hitbox, d: real, t: real)
    requires h.WellKinded() && 0.0 <= t <= d <= HIGH_TIME
    ensures AdvancedShape(h, t).Right() <= Max(h.shape.Right(), AdvancedShape(h, d).Right())
  {
    var e, m := AdvancedShape(h, d), AdvancedShape(h, t);
    EdgeSwept(h.shape.Right(), e.Right(), m.Right(), h.vel.Right(), d, t);
  }

  lemma {:induction false} SweptBottom(h: Hitbox, d: real, t: real)
    requires h.WellKinded() && 0.0 <= t <= d <= HIGH_TIME
    ensures Min(h.shape.Bottom(), AdvancedShape(h, d).Bottom()) <= AdvancedShape(h, t).Bottom()
  {
    var e, m := AdvancedShape(h, d), AdvancedShape(h, t);
    EdgeSwept(h.shape.Bottom(), e.Bottom(), m.Bottom(), h.vel.Bottom(), d, t);
  }

  lemma {:induction false} SweptTop(h: Hitbox, d: real, t: real)
    requires h.WellKinded() && 0.0 <= t <= d <= HIGH_TIME
    ensures AdvancedShape(h, t).Top() <= Max(h.shape.Top(), AdvancedShape(h, d).Top())
  {
    var e, m := AdvancedShape(h, d), AdvancedShape(h, t);
    EdgeSwept(h.shape.Top(), e.Top(), m.Top(), h.vel.Top(), d, t);
  }

  /** One edge of `SweptBoxCovers`: `m0` lies between the edge's two ends. */
  lemma EdgeSwept(s0: real, e0: real, m0: real, v: real, d: real, t: real)
    requires 0.0 <= t <= d && e0 == s0 + v * d && m0 == s0 + v * t
    ensures Min(s0, e0) <= m0 <= Max(s0, e0)
  {
    LinearMotionBetween(s0, v, d, t);
  }
}
