/**
 * The two helpers both scripts define identically: the hyperbolic rotation
 * matrix of an angle and the one-step logistic ("chaotic") map that turns
 * the time sample into an angle.
 *
 * cosh and sinh are not computed: a `Trig` supplies them, and the proofs
 * assume only the identity cosh²(x) − sinh²(x) = 1.
 */
module Hyperbolic {
  import opened Wrappers
  import opened Linear

  /** The evaluations of math.cosh and math.sinh. */
  datatype Trig = Trig(cosh: real -> real, sinh: real -> real)

  /** cosh² − sinh² = 1 at every angle. */
  ghost predicate Pythagorean(trig: Trig)
  {
    forall x :: trig.cosh(x) * trig.cosh(x) - trig.sinh(x) * trig.sinh(x) == 1.0
  }

  /** Default growth rate of the chaotic map. */
  const R: real := 3.8

  /** Default initial rotation angle of encrypt and decrypt. */
  const InitialTheta: real := 0.5

  /** create_hyperbolic_matrix(theta) = [[cosh θ, sinh θ], [sinh θ, cosh θ]]. */
  function CreateHyperbolicMatrix(trig: Trig, theta: real): (m: Mat2)
    ensures m.b == m.c && m.a == m.d
    ensures m.a == trig.cosh(theta) && m.b == trig.sinh(theta)
  {
    Mat2(trig.cosh(theta), trig.sinh(theta), trig.sinh(theta), trig.cosh(theta))
  }

  /** chaotic_map(t, r) = r·t·(1 − t). */
  function ChaoticMap(t: real, r: real := R): (c: real)
    ensures r >= 0.0 ==> c <= r / 4.0
    ensures r >= 0.0 && 0.0 <= t <= 1.0 ==> 0.0 <= c
  {
    LogisticBounds(t, r);
    r * t * (1.0 - t)
  }

  /** t·(1 − t) never exceeds 1/4, and is non-negative on [0, 1]; scaling by r >= 0 keeps both. */
  lemma LogisticBounds(t: real, r: real)
    ensures r >= 0.0 ==> r * t * (1.0 - t) <= r / 4.0
    ensures r >= 0.0 && 0.0 <= t <= 1.0 ==> 0.0 <= r * t * (1.0 - t)
  {
    var p := t * (1.0 - t);
    assert 0.25 - p == (t - 0.5) * (t - 0.5);
    ProductNonNegative(t - 0.5, t - 0.5);
    assert r * t * (1.0 - t) == r * p;
    if r >= 0.0 {
      ProductNonNegative(r, 0.25 - p);
      assert r / 4.0 - r * p == r * (0.25 - p);
      if 0.0 <= t <= 1.0 {
        ProductNonNegative(t, 1.0 - t);
        ProductNonNegative(r, p);
      }
    }
  }

  lemma ProductNonNegative(x: real, y: real)
    requires (x >= 0.0 && y >= 0.0) || x == y
    ensures x * y >= 0.0
  {
  }

  /** The time sample lies in [0, 1), so the chaotic angle lies in [0, 0.95]. */
  lemma ChaoticAngleRange(t: real)
    requires 0.0 <= t < 1.0
    ensures 0.0 <= ChaoticMap(t) <= 0.95
  {
  }

  /** A hyperbolic matrix has determinant cosh² − sinh² = 1, so it is invertible. */
  lemma HyperbolicDeterminant(trig: Trig, theta: real)
    requires Pythagorean(trig)
    ensures Det(CreateHyperbolicMatrix(trig, theta)) == 1.0
  {
  }

  /**
   * np.linalg.inv of a hyperbolic matrix is [[cosh θ, −sinh θ], [−sinh θ, cosh θ]],
   * and applying it after the matrix gives back the original 2-row matrix.
   */
  lemma HyperbolicInverse(trig: Trig, theta: real, g: Grid)
    requires Pythagorean(trig) && g.Rectangular()
    ensures var m := CreateHyperbolicMatrix(trig, theta);
      && Inverse(m) == Some(Mat2(m.a, -m.b, -m.c, m.d))
      && Apply(Inverse(m).value, Apply(m, g)) == g
  {
    var m := CreateHyperbolicMatrix(trig, theta);
    HyperbolicDeterminant(trig, theta);
    InverseIsInverse(m);
    ApplyMul(Inverse(m).value, m, g);
    ApplyIdentity(g);
  }
}
