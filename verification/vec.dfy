/**
 * Two-dimensional vectors (src/geom/vec.rs).  Components are reals; the
 * square root behind `len`, `dist` and `normalize` is not modelled, only
 * the squared quantities and the precondition of `normalize`.
 */
module Vec {

  datatype Vec2 = Vec2(x: real, y: real)

  /** `Vec2::zero`, the default vector. */
  function Zero(): Vec2
  {
    Vec2(0.0, 0.0)
  }

  /** `Add for Vec2`: component-wise sum. */
  function Add(a: Vec2, b: Vec2): Vec2
  {
    Vec2(a.x + b.x, a.y + b.y)
  }

  /** Zero is the identity of `Add`, and `Add` commutes and associates. */
  lemma AddLaws(a: Vec2, b: Vec2, c: Vec2)
    ensures Add(a, Zero()) == a
    ensures Add(a, b) == Add(b, a)
    ensures Add(Add(a, b), c) == Add(a, Add(b, c))
  {
  }

  /** `Sub for Vec2`: the inverse of `Add`. */
  function Sub(a: Vec2, b: Vec2): (r: Vec2)
    ensures Add(r, b) == a
  {
    Vec2(a.x - b.x, a.y - b.y)
  }

  /** `Neg for Vec2`: the additive inverse. */
  function Neg(v: Vec2): (r: Vec2)
    ensures Add(v, r) == Zero()
  {
    Vec2(-v.x, -v.y)
  }

  /** `Mul<f64> for Vec2`: scaling by a factor. */
  function Scale(v: Vec2, k: real): (r: Vec2)
    ensures k == 1.0 ==> r == v
    ensures k == 0.0 ==> r == Zero()
    ensures k == -1.0 ==> r == Neg(v)
  {
    Vec2(v.x * k, v.y * k)
  }

  /** `Mul<Vec2> for Vec2`: the dot product. */
  function Dot(a: Vec2, b: Vec2): real
  {
    a.x * b.x + a.y * b.y
  }

  lemma DotSymmetric(a: Vec2, b: Vec2)
    ensures Dot(a, b) == Dot(b, a)
  {
  }

  /** `len_sq`: the dot product of a vector with itself, never negative. */
  function LenSq(v: Vec2): (r: real)
    ensures r == Dot(v, v)
    ensures r >= 0.0
    ensures v == Zero() ==> r == 0.0
  {
    SquareNonNegative(v.x);
    SquareNonNegative(v.y);
    v.x * v.x + v.y * v.y
  }

  lemma SquareNonNegative(a: real)
    ensures a * a >= 0.0
  {
    if a < 0.0 {
      assert a * a == (-a) * (-a);
    }
  }

  /** `dist_sq`: the squared length of the difference, never negative and zero between equal points. */
  function DistSq(a: Vec2, b: Vec2): (r: real)
    ensures r >= 0.0
    ensures a == b ==> r == 0.0
  {
    LenSq(Sub(a, b))
  }

  lemma DistSqSymmetric(a: Vec2, b: Vec2)
    ensures DistSq(a, b) == DistSq(b, a)
  {
    var d := Sub(a, b);
    assert Sub(b, a) == Vec2(-d.x, -d.y);
    assert (-d.x) * (-d.x) == d.x * d.x;
    assert (-d.y) * (-d.y) == d.y * d.y;
  }

  /**
   * The assertion of `normalize`: a vector can be normalized only when its
   * length `sqrt(len_sq)` is positive.  The zero vector never can.
   */
  predicate CanNormalize(v: Vec2)
  {
    LenSq(v) > 0.0
  }

  /** A direction paired with a length (`DirVec2`). */
  datatype DirVec2 = DirVec2(dir: Vec2, len: real)

  /** `Into<Vec2> for DirVec2`: the direction scaled by the length. */
  function ToVec2(d: DirVec2): (r: Vec2)
    ensures d.len == 0.0 ==> r == Zero()
    ensures r == Scale(d.dir, d.len)
  {
    Vec2(d.dir.x * d.len, d.dir.y * d.len)
  }

  /** `DirVec2::flip`: the opposite direction with the same length. */
  function Flip(d: DirVec2): (r: DirVec2)
    ensures r.len == d.len
    ensures Add(r.dir, d.dir) == Zero()
  {
    DirVec2(Neg(d.dir), d.len)
  }

  /** Flipping twice gives back the original, and flipping negates the vector. */
  lemma FlipLaws(d: DirVec2)
    ensures Flip(Flip(d)) == d
    ensures ToVec2(Flip(d)) == Neg(ToVec2(d))
  {
    assert (-d.dir.x) * d.len == -(d.dir.x * d.len);
    assert (-d.dir.y) * d.len == -(d.dir.y * d.len);
  }
}
