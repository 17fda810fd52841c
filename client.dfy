/**
 * The client's forward transform (`encrypt` and its helper
 * `fractal_transformation`): characters to codes, zero padding to even
 * length, pairing into a 2-row matrix, two hyperbolic rotations, key
 * scaling and a row-major flatten.
 */
module Client {
  import opened Linear
  import opened Hyperbolic

  /** What encrypt returns: the flat ciphertext, the padding flag and the time sample t. */
  datatype Encrypted = Encrypted(values: seq<real>, padding: int, t: real)

  /** [ord(char) for char in plaintext]. */
  function Codes(plaintext: string): (codes: seq<int>)
    ensures |codes| == |plaintext|
    ensures forall i :: 0 <= i < |codes| ==> codes[i] == plaintext[i] as int
  {
    seq(|plaintext|, i requires 0 <= i < |plaintext| => plaintext[i] as int)
  }

  /** The codes as a float array (dtype=float). */
  function AsReals(codes: seq<int>): (v: seq<real>)
    ensures |v| == |codes|
    ensures forall i :: 0 <= i < |v| ==> v[i] == codes[i] as real
  {
    seq(|codes|, i requires 0 <= i < |codes| => codes[i] as real)
  }

  /**
   * An odd-length code list gets one 0 appended and the padding flag 1;
   * an even-length one is left as it is, with flag 0.
   */
  function PadCodes(codes: seq<int>): (r: (seq<int>, int))
    ensures |r.0| % 2 == 0
    ensures r.1 == (if |codes| % 2 != 0 then 1 else 0)
    ensures |r.0| == |codes| + r.1 && r.0[..|codes|] == codes
    ensures r.1 == 1 ==> r.0[|codes|] == 0
  {
    if |codes| % 2 != 0 then (codes + [0], 1) else (codes, 0)
  }

  /** reshape(-1, 2).T: code 2j goes to row 0, column j and code 2j + 1 to row 1, column j. */
  function PairColumns(p: seq<real>): (g: Grid)
    requires |p| % 2 == 0
    ensures g.Rectangular() && 2 * g.Cols() == |p|
    ensures forall j :: 0 <= j < g.Cols() ==> g.top[j] == p[2 * j] && g.bottom[j] == p[2 * j + 1]
    decreases |p|
  {
    if p == [] then Grid([], [])
    else
      var rest := PairColumns(p[2..]);
      Grid([p[0]] + rest.top, [p[1]] + rest.bottom)
  }

  /** fractal_transformation(E_t, S) = E_t * S: every entry multiplied by the key. */
  function FractalTransformation(eT: Grid, s: real): (r: Grid)
    requires eT.Rectangular()
    ensures r.Rectangular() && r.Cols() == eT.Cols()
    ensures forall j :: 0 <= j < eT.Cols() ==> r.top[j] == eT.top[j] * s && r.bottom[j] == eT.bottom[j] * s
  {
    Grid(seq(|eT.top|, j requires 0 <= j < |eT.top| => eT.top[j] * s),
         seq(|eT.top|, j requires 0 <= j < |eT.top| => eT.bottom[j] * s))
  }

  /** `timestamp % 1` on a float: the fractional part, in [0, 1). */
  function FracPart(x: real): (t: real)
    ensures 0.0 <= t < 1.0
    ensures (x - t).Floor as real == x - t
  {
    x - x.Floor as real
  }

  /** The 2-row matrix encrypt builds from a plaintext before any rotation. */
  function Layout(plaintext: string): (g: Grid)
    ensures g.Rectangular()
  {
    PairColumns(AsReals(PadCodes(Codes(plaintext)).0))
  }

  /**
   * encrypt(plaintext, key, initial_theta): the wall-clock reading is the
   * parameter `timestamp`, and cosh/sinh come from `trig`.
   */
  function Encrypt(plaintext: string, key: real, timestamp: real, trig: Trig,
                   initialTheta: real := InitialTheta): (e: Encrypted)
    ensures |e.values| % 2 == 0 && |e.values| == |plaintext| + e.padding
    ensures e.padding == (if |plaintext| % 2 != 0 then 1 else 0)
    ensures e.t == FracPart(timestamp) && 0.0 <= e.t < 1.0
  {
    var p := Layout(plaintext);
    var m0 := CreateHyperbolicMatrix(trig, initialTheta);
    var e0 := Apply(m0, p);
    var t := FracPart(timestamp);
    var mT := CreateHyperbolicMatrix(trig, ChaoticMap(t));
    var eT := Apply(mT, e0);
    var eFinal := FractalTransformation(eT, key);
    Encrypted(Flatten(eFinal), PadCodes(Codes(plaintext)).1, t)
  }
}
