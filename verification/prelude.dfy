/** Small helper types shared by every module of the model. */
module Prelude {

  datatype Option<+T> = None | Some(value: T)

  /** The three-way result of a comparison (Rust's `Ordering`). */
  datatype Ordering = Less | Equal | Greater

  /**
   * A non-NaN f64 that is either finite or positive infinity.  Times,
   * durations and cell periods use `PosInf` where the library uses
   * `f64::INFINITY`.
   */
  datatype XReal = Fin(val: real) | PosInf
  {
    /** `self <= other` on f64, infinity included. */
    predicate Le(other: XReal)
    {
      other.PosInf? || (Fin? && val <= other.val)
    }

    /** `self < other` on f64, infinity included (infinity is not below itself). */
    predicate Lt(other: XReal)
    {
      Fin? && (other.PosInf? || val < other.val)
    }
  }

  /** `t + d` where `d` may be infinite. */
  function Plus(t: real, d: XReal): (r: XReal)
    ensures r.PosInf? <==> d.PosInf?
    ensures d.Fin? ==> r.val - t == d.val
  {
    if d.PosInf? then PosInf else Fin(t + d.val)
  }

  /** `a - t` where `a` may be infinite. */
  function Minus(a: XReal, t: real): (r: XReal)
    ensures Plus(t, r) == a
  {
    if a.PosInf? then PosInf else Fin(a.val - t)
  }

  /** Durations that the solvers hand back: non-negative or infinite. */
  type Delay = d: XReal | d.PosInf? || d.val >= 0.0 witness PosInf
}
