/**
 * Plane vectors for the engine's `Vec3` values. Every vector the two scripts
 * build has z == 0, so only x and y are kept. Coordinates are exact reals:
 * the model keeps the list bookkeeping and the rules, not floating point.
 */
module Geometry {

  datatype Vec = Vec(x: real, y: real)

  const Zero := Vec(0.0, 0.0)
  const Up := Vec(0.0, 1.0)
  const Down := Vec(0.0, -1.0)
  const Left := Vec(-1.0, 0.0)
  const Right := Vec(1.0, 0.0)

  function Add(a: Vec, b: Vec): Vec { Vec(a.x + b.x, a.y + b.y) }

  function Sub(a: Vec, b: Vec): Vec { Vec(a.x - b.x, a.y - b.y) }

  function Neg(a: Vec): Vec { Vec(-a.x, -a.y) }

  function Scale(a: Vec, k: real): Vec { Vec(a.x * k, a.y * k) }

  /** Squared Euclidean length (the model has no square root). */
  function Len2(a: Vec): real { a.x * a.x + a.y * a.y }

  /** One of the four axis-aligned unit vectors a direction may take. */
  predicate IsAxisUnit(d: Vec) {
    d == Up || d == Down || d == Left || d == Right
  }

  /** The point `spacing` behind `p` along the heading `d`. */
  function Behind(p: Vec, d: Vec, spacing: real): Vec
  {
    Sub(p, Scale(d, spacing))
  }

  /**
   * The point behind steps back onto `p` when moved forward by `d * spacing`,
   * and lies at squared distance `spacing^2 * |d|^2` from `p`.
   */
  lemma BehindDistance(p: Vec, d: Vec, spacing: real)
    ensures Add(Behind(p, d, spacing), Scale(d, spacing)) == p
    ensures Len2(Sub(p, Behind(p, d, spacing))) == spacing * spacing * Len2(d)
  {
    assert Sub(p, Behind(p, d, spacing)) == Scale(d, spacing);
    assert (d.x * spacing) * (d.x * spacing) == spacing * spacing * (d.x * d.x);
    assert (d.y * spacing) * (d.y * spacing) == spacing * spacing * (d.y * d.y);
  }

  /** Scaling the reversed heading is reversing the scaled heading. */
  lemma NegScale(d: Vec, k: real)
    ensures Scale(Neg(d), k) == Neg(Scale(d, k))
  {
    assert (-d.x) * k == -(d.x * k);
    assert (-d.y) * k == -(d.y * k);
  }

  /** Behind an axis heading, the point lies exactly `spacing` away. */
  lemma BehindAxisSpacing(p: Vec, d: Vec, spacing: real)
    requires IsAxisUnit(d)
    ensures Len2(Sub(p, Behind(p, d, spacing))) == spacing * spacing
  {
    BehindDistance(p, d, spacing);
    assert Len2(d) == 1.0;
  }
}
