/**
 * The server's inverse transform (`decrypt` and its helper
 * `fractal_transformation`): reshape to two rows, divide by the key, undo
 * the two hyperbolic rotations with np.linalg.inv, flatten row-major, keep
 * the values in [0, 127] as characters, and apply the padding step.
 */
module Server {
  import opened Wrappers
  import opened Linear
  import opened Hyperbolic

  /** The ways decrypt fails instead of returning text. */
  datatype DecryptError =
    | OddLength   // reshape(2, -1) of an odd-length vector raises ValueError
    | ZeroKey     // the key division is undefined for a zero key
    | Singular    // np.linalg.inv raises LinAlgError on a singular matrix

  /** fractal_transformation(E_t, S) = E_t / S: every entry divided by the key. */
  function FractalTransformation(eT: Grid, s: real): (r: Grid)
    requires eT.Rectangular() && s != 0.0
    ensures r.Rectangular() && r.Cols() == eT.Cols()
    ensures forall j :: 0 <= j < eT.Cols() ==> r.top[j] * s == eT.top[j] && r.bottom[j] * s == eT.bottom[j]
  {
    Grid(seq(|eT.top|, j requires 0 <= j < |eT.top| => eT.top[j] / s),
         seq(|eT.top|, j requires 0 <= j < |eT.top| => eT.bottom[j] / s))
  }

  /** Python's round() of a float: the nearest integer, ties to the even one. */
  function Round(x: real): (r: int)
    ensures r as real - 0.5 <= x <= r as real + 0.5
    ensures (x == r as real - 0.5 || x == r as real + 0.5) ==> r % 2 == 0
  {
    var f := x.Floor;
    var frac := x - f as real;
    if frac < 0.5 then f
    else if frac > 0.5 then f + 1
    else if f % 2 == 0 then f
    else f + 1
  }

  /** An integer-valued float rounds to itself. */
  lemma RoundInteger(k: int)
    ensures Round(k as real) == k
  {
  }

  /**
   * ''.join(chr(int(round(v))) for v in vals if 0 <= v <= 127): values outside
   * [0, 127] are dropped, the others become characters in their order.
   */
  function KeepChars(vals: seq<real>): (s: string)
    ensures |s| <= |vals|
    ensures forall i :: 0 <= i < |s| ==> 0 <= s[i] as int <= 127
  {
    if vals == [] then []
    else
      var head := if 0.0 <= vals[0] <= 127.0 then [Round(vals[0]) as char] else [];
      head + KeepChars(vals[1..])
  }

  /** The filter keeps order: it works on a concatenation piece by piece. */
  lemma {:induction false} KeepCharsAppend(u: seq<real>, v: seq<real>)
    ensures KeepChars(u + v) == KeepChars(u) + KeepChars(v)
    decreases |u|
  {
    if u != [] {
      assert (u + v)[1..] == u[1..] + v;
      KeepCharsAppend(u[1..], v);
    } else {
      assert u + v == v;
    }
  }

  /** Every value in [0, 127] is kept, as the character whose code is its rounding. */
  lemma {:induction false} KeepCharsInRange(vals: seq<real>)
    requires forall i :: 0 <= i < |vals| ==> 0.0 <= vals[i] <= 127.0
    ensures |KeepChars(vals)| == |vals|
    ensures forall i :: 0 <= i < |vals| ==> KeepChars(vals)[i] as int == Round(vals[i])
  {
    if vals != [] {
      KeepCharsInRange(vals[1..]);
    }
  }

  /** A value outside [0, 127] is dropped, so the text is strictly shorter than the values. */
  lemma {:induction false} KeepCharsDrops(vals: seq<real>, k: nat)
    requires k < |vals| && !(0.0 <= vals[k] <= 127.0)
    ensures |KeepChars(vals)| < |vals|
  {
    if k > 0 {
      KeepCharsDrops(vals[1..], k - 1);
    }
  }

  /** Python's s[:k], including negative k counted from the end. */
  function PrefixSlice(s: string, k: int): (r: string)
    ensures |r| <= |s| && r == s[..|r|]
    ensures k >= 0 ==> |r| == (if k <= |s| then k else |s|)
    ensures k < 0 ==> |r| == (if |s| + k >= 0 then |s| + k else 0)
  {
    if k >= 0 then (if k <= |s| then s[..k] else s)
    else if |s| + k >= 0 then s[..|s| + k]
    else []
  }

  /**
   * `if padding: plaintext += plaintext[:padding]`: a non-zero flag appends a
   * prefix of the decoded text to itself.
   */
  function AppendPadding(s: string, padding: int): (r: string)
    ensures |s| <= |r| <= 2 * |s| && r[..|s|] == s
    ensures r[|s|..] == s[..|r| - |s|]
    ensures padding != 0 ==> r == s + PrefixSlice(s, padding)
    ensures padding == 0 || s == [] ==> r == s
    ensures padding == 1 && s != [] ==> r == s + [s[0]]
    ensures padding >= |s| ==> r == s + s
  {
    if padding != 0 then s + PrefixSlice(s, padding) else s
  }

  /**
   * decrypt(E_final, key, padding, t, initial_theta): cosh/sinh come from
   * `trig`; the failures numpy would raise, and the zero key, are results.
   */
  function Decrypt(eFinal: seq<real>, key: real, padding: int, t: real, trig: Trig,
                   initialTheta: real := InitialTheta): (r: Result<string, DecryptError>)
    ensures |eFinal| % 2 != 0 ==> r == Failure(OddLength)
    ensures |eFinal| % 2 == 0 && key == 0.0 ==> r == Failure(ZeroKey)
    ensures |eFinal| % 2 == 0 && key != 0.0 && Pythagorean(trig) ==> r.Success?
    ensures r.Success? ==> |r.value| <= 2 * |eFinal|
    ensures r.Success? ==> forall i :: 0 <= i < |r.value| ==> 0 <= r.value[i] as int <= 127
  {
    if |eFinal| % 2 != 0 then Failure(OddLength)
    else
      var eF := Reshape2(eFinal);
      if key == 0.0 then Failure(ZeroKey)
      else
        var eT := FractalTransformation(eF, key);
        var mT := CreateHyperbolicMatrix(trig, ChaoticMap(t));
        var m0 := CreateHyperbolicMatrix(trig, initialTheta);
        if Det(mT) == 0.0 || Det(m0) == 0.0 then
          assert Pythagorean(trig) ==> Det(mT) == 1.0 && Det(m0) == 1.0 by {
            if Pythagorean(trig) {
              HyperbolicDeterminant(trig, ChaoticMap(t));
              HyperbolicDeterminant(trig, initialTheta);
            }
          }
          Failure(Singular)
        else
          var e0 := Apply(Inverse(mT).value, eT);
          var p := Apply(Inverse(m0).value, e0);
          var plaintext := KeepChars(Flatten(p));
          Success(AppendPadding(plaintext, padding))
  }
}
