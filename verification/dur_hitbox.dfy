/**
 * The hitbox form used by the time-of-impact solvers
 * (src/core/dur_hitbox/mod.rs): a placed shape, its velocity and the
 * duration for which that motion holds.  Unlike `Core.AdvancedShape`, it
 * refuses a time equal to `HIGH_TIME`.
 */
module DurationHitbox {
  import opened Prelude
  import opened Vec
  import opened Shape
  import opened GeomExt
  import Core

  datatype DurHitbox = DurHitbox(shape: PlacedShape, vel: PlacedShape, duration: XReal)
  {
    predicate WellKinded()
    {
      vel.Kind() == shape.Kind()
    }
  }

  /**
   * `DurHitbox::new`: stationary (zero position, zero dimensions, same kind)
   * for ever.
   */
  function New(shape: PlacedShape): (r: DurHitbox)
    ensures r.shape == shape && r.WellKinded() && IsZero(r.vel)
    ensures r.duration == PosInf
  {
    DurHitbox(shape, PlacedShape(Zero(), ShapeData(shape.Kind(), 0.0, 0.0)), PosInf)
  }

  /** `advanced_shape`: asserts `time < HIGH_TIME`, strictly; each edge moves linearly. */
  function AdvancedShape(h: DurHitbox, time: real): (r: PlacedShape)
    requires h.WellKinded() && time < Core.HIGH_TIME
    ensures r.Kind() == h.shape.Kind()
    ensures r.Left() == h.shape.Left() + h.vel.Left() * time
    ensures r.Right() == h.shape.Right() + h.vel.Right() * time
    ensures r.Bottom() == h.shape.Bottom() + h.vel.Bottom() * time
    ensures r.Top() == h.shape.Top() + h.vel.Top() * time
  {
    PlacedAdd(h.shape, PlacedScale(h.vel, time)).value
  }

  /** A moving hitbox can only be bounded over a finite duration below `HIGH_TIME`. */
  predicate CanBound(h: DurHitbox, duration: XReal)
  {
    h.WellKinded() && (IsZero(h.vel) || (duration.Fin? && duration.val < Core.HIGH_TIME))
  }

  /**
   * `bounding_box_for`: a stationary hitbox is bounded by its own box;
   * a moving one by the box spanning its start and end shapes.
   */
  function BoundingBoxFor(h: DurHitbox, duration: XReal): (r: PlacedShape)
    requires CanBound(h, duration)
    ensures r.Kind() == Rect
    ensures Core.BoxContains(r, h.shape)
    ensures !IsZero(h.vel) ==> Core.BoxContains(r, AdvancedShape(h, duration.val))
    ensures IsZero(h.vel) ==> r.Left() == h.shape.Left() && r.Right() == h.shape.Right()
                              && r.Bottom() == h.shape.Bottom() && r.Top() == h.shape.Top()
    ensures !IsZero(h.vel) ==> Core.IsHull(r, h.shape, AdvancedShape(h, duration.val))
  {
    if IsZero(h.vel) then AsRect(h.shape)
    else BoundingBox(h.shape, AdvancedShape(h, duration.val))
  }

  /** `bounding_box`: the box over the hitbox's own duration. */
  function BoundingBoxOf(h: DurHitbox): (r: PlacedShape)
    requires CanBound(h, h.duration)
    ensures r.Kind() == Rect && Core.BoxContains(r, h.shape)
    ensures !IsZero(h.vel) ==> Core.BoxContains(r, AdvancedShape(h, h.duration.val))
    ensures IsZero(h.vel) ==> Core.SameBox(r, h.shape)
    ensures !IsZero(h.vel) ==> Core.IsHull(r, h.shape, AdvancedShape(h, h.duration.val))
  {
    BoundingBoxFor(h, h.duration)
  }

  /**
   * Only a moving hitbox is limited by `HIGH_TIME`: a fresh hitbox can be
   * bounded over any duration, and its box is its own.
   */
  lemma NewBoundsAnywhere(shape: PlacedShape, duration: XReal)
    ensures CanBound(New(shape), duration)
    ensures BoundingBoxFor(New(shape), duration) == AsRect(shape)
  {
  }

  /** As for `Core.SweptBoxCovers`: the box holds the shape throughout `[0, d]`. */
  lemma {:induction false} SweptBoxCovers(h: DurHitbox, d: real, t: real)
    requires h.WellKinded() && 0.0 <= t <= d < Core.HIGH_TIME
    ensures Core.BoxContains(BoundingBoxFor(h, Fin(d)), AdvancedShape(h, t))
  {
    if !IsZero(h.vel) {
      SweptLeft(h, d, t);
      SweptRight(h, d, t);
      SweptBottom(h, d, t);
      SweptTop(h, d, t);
    }
  }

  /** The edges of `SweptBoxCovers`, one at a time. */
  lemma {:induction false} SweptLeft(h: DurHitbox, d: real, t: real)
    requires h.WellKinded() && 0.0 <= t <= d < Core.HIGH_TIME
    ensures Min(h.shape.Left(), AdvancedShape(h, d).Left()) <= AdvancedShape(h, t).Left()
  {
    var e, m := AdvancedShape(h, d), AdvancedShape(h, t);
    Core.EdgeSwept(h.shape.Left(), e.Left(), m.Left(), h.vel.Left(), d, t);
  }

  lemma {:induction false} SweptRight(h: DurHitbox, d: real, t: real)
    requires h.WellKinded() && 0.0 <= t <= d < Core.HIGH_TIME
    ensures AdvancedShape(h, t).Right() <= Max(h.shape.Right(), AdvancedShape(h, d).Right())
  {
    var e, m := AdvancedShape(h, d), AdvancedShape(h, t);
    Core.EdgeSwept(h.shape.Right(), e.Right(), m.Right(), h.vel.Right(), d, t);
  }

  lemma {:induction false} SweptBottom(h: DurHitbox, d: real, t: real)
    requires h.WellKinded() && 0.0 <= t <= d < Core.HIGH_TIME
    ensures Min(h.shape.Bottom(), AdvancedShape(h, d).Bottom()) <= AdvancedShape(h, t).Bottom()
  {
    var e, m := AdvancedShape(h, d), AdvancedShape(h, t);
    Core.EdgeSwept(h.shape.Bottom(), e.Bottom(), m.Bottom(), h.vel.Bottom(), d, t);
  }

  lemma {:induction false} SweptTop(h: DurHitbox, d: real, t: real)
    requires h.WellKinded() && 0.0 <= t <= d < Core.HIGH_TIME
    ensures AdvancedShape(h, t).Top() <= Max(h.shape.Top(), AdvancedShape(h, d).Top())
  {
    var e, m := AdvancedShape(h, d), AdvancedShape(h, t);
    Core.EdgeSwept(h.shape.Top(), e.Top(), m.Top(), h.vel.Top(), d, t);
  }
}
