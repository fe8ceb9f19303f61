/**
 * Numbers shared by the three branch-and-bound solvers: the tolerance,
 * Python's rounding functions on exact reals, and the extended reals that
 * stand for the `math.inf` / `-math.inf` sentinels of the LP oracles.
 */
module Numeric {

  datatype Option<+T> = None | Some(value: T)

  /** The fixed tolerance `1e-6` used by every comparison of the solvers. */
  const Eps: real := 0.000001

  function Abs(v: real): real {
    if v < 0.0 then -v else v
  }

  function Max(a: real, b: real): real {
    if a < b then b else a
  }

  /** `math.floor`: the largest integer not above `v`. */
  function Floor(v: real): int {
    v.Floor
  }

  /** `math.ceil`: the smallest integer not below `v`. */
  function Ceil(v: real): int {
    -((-v).Floor)
  }

  /** Python's `round` on a float: the nearest integer, halves go to the even one. */
  function Round(v: real): int {
    var f := v.Floor;
    var d := v - f as real;
    if d < 0.5 then f
    else if d > 0.5 then f + 1
    else if f % 2 == 0 then f
    else f + 1
  }

  /**
   * The distance of `v` to the nearest integer: its fractional part, or one
   * minus it above one half. `DistIsRoundingError` shows it is Python's
   * `abs(v - round(v))`.
   */
  function Dist(v: real): real {
    var d := v - v.Floor as real;
    if d <= 0.5 then d else 1.0 - d
  }

  /** `abs(v - round(v))` is the distance to the nearest integer, whichever way a half rounds. */
  lemma DistIsRoundingError(v: real)
    ensures Dist(v) == Abs(v - Round(v) as real)
    ensures 0.0 <= Dist(v) <= 0.5
  {
  }

  /** `abs(v - round(v)) < 1e-6`, the solvers' test for an integral LP value. */
  predicate NearInteger(v: real) {
    Dist(v) < Eps
  }

  predicate IsIntegral(v: real) {
    v == v.Floor as real
  }

  /** A value at distance 0 from its rounding is an integer, and an integer is at distance 0. */
  lemma DistZeroIffIntegral(v: real)
    ensures Dist(v) == 0.0 <==> IsIntegral(v)
  {
    var f := v.Floor;
    if IsIntegral(v) {
      assert v - f as real == 0.0;
      assert Round(v) == f;
    } else {
      assert f as real < v < f as real + 1.0;
    }
  }

  /** For a value that is not an integer, `math.ceil` is one above `math.floor`. */
  lemma CeilOfFraction(v: real)
    requires !IsIntegral(v)
    ensures Ceil(v) == Floor(v) + 1
    ensures Floor(v) as real < v < Ceil(v) as real
  {
    var f := v.Floor;
    assert f as real < v < f as real + 1.0;
    var g := (-v).Floor;
    assert g as real <= -v < g as real + 1.0;
    assert -g - 1 < f + 1 && f < -g;
  }

  /** The reals and the two infinities: the bound an LP oracle reports. */
  datatype ExtReal = NegInf | Finite(r: real) | PosInf

  /** `a + d` for a finite shift `d` (an infinity absorbs it, as in IEEE arithmetic). */
  function Shift(a: ExtReal, d: real): ExtReal {
    if a.Finite? then Finite(a.r + d) else a
  }

  /** `a <= b` on extended reals. */
  predicate AtMost(a: ExtReal, b: ExtReal) {
    a.NegInf? || b.PosInf? || (a.Finite? && b.Finite? && a.r <= b.r)
  }

  /** `a < b` on extended reals. */
  predicate Below(a: ExtReal, b: ExtReal) {
    !AtMost(b, a)
  }

  /** `AtMost` is a total preorder and `Below` is its strict part. */
  lemma ExtOrderFacts(a: ExtReal, b: ExtReal, c: ExtReal)
    ensures AtMost(a, a)
    ensures AtMost(a, b) || AtMost(b, a)
    ensures AtMost(a, b) && AtMost(b, c) ==> AtMost(a, c)
    ensures Below(a, b) && AtMost(b, c) ==> Below(a, c)
    ensures AtMost(a, b) && Below(b, c) ==> Below(a, c)
    ensures Below(a, b) ==> AtMost(a, b)
    ensures AtMost(a, b) && AtMost(b, a) ==> a == b
  {
  }

  /** Shifting by a fixed amount preserves the order. */
  lemma ShiftMonotone(a: ExtReal, b: ExtReal, d: real)
    ensures AtMost(a, b) <==> AtMost(Shift(a, d), Shift(b, d))
    ensures AtMost(a, Shift(a, Eps)) && AtMost(Shift(a, -Eps), a)
  {
  }
}
