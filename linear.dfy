/**
 * The numpy operations the transform uses, over exact reals: 2×2 matrices,
 * 2-row matrices held as two rows, np.dot, np.linalg.inv, and the
 * reshape/flatten pair that moves between a 2-row matrix and a flat vector.
 */
module Linear {
  import opened Wrappers

  /** The 2×2 matrix [[a, b], [c, d]]. */
  datatype Mat2 = Mat2(a: real, b: real, c: real, d: real)

  /** A 2×N matrix, held as its two rows. */
  datatype Grid = Grid(top: seq<real>, bottom: seq<real>)
  {
    /** Both rows have the same length, as every numpy 2-D array does. */
    predicate Rectangular() { |top| == |bottom| }

    function Cols(): nat { |top| }
  }

  const Identity := Mat2(1.0, 0.0, 0.0, 1.0)

  function Det(m: Mat2): real { m.a * m.d - m.b * m.c }

  /** The product m·n: applying n and then m applies this single matrix. */
  function Mul(m: Mat2, n: Mat2): Mat2
  {
    Mat2(m.a * n.a + m.b * n.c, m.a * n.b + m.b * n.d,
         m.c * n.a + m.d * n.c, m.c * n.b + m.d * n.d)
  }

  /** np.dot(m, g): each column of g is multiplied by m. */
  function Apply(m: Mat2, g: Grid): (r: Grid)
    requires g.Rectangular()
    ensures r.Rectangular() && r.Cols() == g.Cols()
    ensures forall j :: 0 <= j < g.Cols() ==>
      r.top[j] == m.a * g.top[j] + m.b * g.bottom[j] &&
      r.bottom[j] == m.c * g.top[j] + m.d * g.bottom[j]
  {
    Grid(seq(|g.top|, j requires 0 <= j < |g.top| => m.a * g.top[j] + m.b * g.bottom[j]),
         seq(|g.top|, j requires 0 <= j < |g.top| => m.c * g.top[j] + m.d * g.bottom[j]))
  }

  /**
   * np.linalg.inv of a 2×2 matrix: the adjugate divided by the determinant,
   * and no result (numpy raises LinAlgError) when the matrix is singular.
   */
  function Inverse(m: Mat2): (r: Option<Mat2>)
    ensures r.Some? <==> Det(m) != 0.0
  {
    var det := Det(m);
    if det == 0.0 then None
    else
      var k := 1.0 / det;
      Some(Mat2(m.d * k, -m.b * k, -m.c * k, m.a * k))
  }

  /** Row-major flatten of a 2×N matrix (ndarray.flatten()). */
  function Flatten(g: Grid): (v: seq<real>)
    requires g.Rectangular()
    ensures |v| == 2 * g.Cols()
    ensures v[..g.Cols()] == g.top && v[g.Cols()..] == g.bottom
  {
    g.top + g.bottom
  }

  /** reshape(2, -1) of an even-length vector: first half row 0, second half row 1. */
  function Reshape2(v: seq<real>): (g: Grid)
    requires |v| % 2 == 0
    ensures g.Rectangular() && 2 * g.Cols() == |v|
    ensures Flatten(g) == v
  {
    Grid(v[..|v| / 2], v[|v| / 2..])
  }

  /** reshape(2, -1) undoes the row-major flatten of a 2-row matrix. */
  lemma ReshapeFlatten(g: Grid)
    requires g.Rectangular()
    ensures |Flatten(g)| % 2 == 0 && Reshape2(Flatten(g)) == g
  {
  }

  /** Applying n and then m is applying the product m·n. */
  lemma ApplyMul(m: Mat2, n: Mat2, g: Grid)
    requires g.Rectangular()
    ensures Apply(m, Apply(n, g)) == Apply(Mul(m, n), g)
  {
    var lhs, rhs := Apply(m, Apply(n, g)), Apply(Mul(m, n), g);
    forall j | 0 <= j < g.Cols()
      ensures lhs.top[j] == rhs.top[j] && lhs.bottom[j] == rhs.bottom[j]
    {
      var x, y := g.top[j], g.bottom[j];
      calc {
        lhs.top[j];
        m.a * (n.a * x + n.b * y) + m.b * (n.c * x + n.d * y);
        (m.a * n.a + m.b * n.c) * x + (m.a * n.b + m.b * n.d) * y;
        rhs.top[j];
      }
      calc {
        lhs.bottom[j];
        m.c * (n.a * x + n.b * y) + m.d * (n.c * x + n.d * y);
        (m.c * n.a + m.d * n.c) * x + (m.c * n.b + m.d * n.d) * y;
        rhs.bottom[j];
      }
    }
  }

  /** The identity matrix leaves every 2-row matrix unchanged. */
  lemma ApplyIdentity(g: Grid)
    requires g.Rectangular()
    ensures Apply(Identity, g) == g
  {
  }

  /** The computed inverse is a two-sided inverse whenever it exists. */
  lemma InverseIsInverse(m: Mat2)
    requires Det(m) != 0.0
    ensures Inverse(m).Some?
    ensures Mul(Inverse(m).value, m) == Identity
    ensures Mul(m, Inverse(m).value) == Identity
  {
  }
}
