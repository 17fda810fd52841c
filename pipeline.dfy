/**
 * The client's encrypt followed by the server's decrypt, in exact
 * arithmetic. The server flattens the recovered 2-row matrix row-major, so
 * the codes come back as all even-index codes followed by all odd-index
 * codes; for an odd-length message the padded 0 is kept and the first
 * character is appended. The lemmas state that literal behaviour.
 */
module Pipeline {
  import opened Wrappers
  import opened Linear
  import opened Hyperbolic
  import Client
  import Server
  import Wire

  /** The even-index entries of an even-length list followed by its odd-index entries. */
  function Deinterleave<T>(p: seq<T>): (r: seq<T>)
    requires |p| % 2 == 0
    ensures |r| == |p|
  {
    seq(|p| / 2, j requires 0 <= j < |p| / 2 => p[2 * j])
      + seq(|p| / 2, j requires 0 <= j < |p| / 2 => p[2 * j + 1])
  }

  /** The codes in [0, 127], as characters, in their order. */
  function KeepAscii(codes: seq<int>): (s: string)
    ensures |s| <= |codes|
  {
    if codes == [] then []
    else (if 0 <= codes[0] <= 127 then [codes[0] as char] else []) + KeepAscii(codes[1..])
  }

  /** The text decrypt returns for a message encrypted with the same key, t and trig. */
  function LiteralDecode(m: string): string
  {
    var (padded, padding) := Client.PadCodes(Client.Codes(m));
    Server.AppendPadding(KeepAscii(Deinterleave(padded)), padding)
  }

  predicate IsAscii(m: string)
  {
    forall i :: 0 <= i < |m| ==> m[i] as int <= 127
  }

  /** Row-major flatten of the reshape(-1, 2).T layout is the even/odd split. */
  lemma {:induction false} FlattenPairColumns(p: seq<real>)
    requires |p| % 2 == 0
    ensures Flatten(Client.PairColumns(p)) == Deinterleave(p)
  {
  }

  /** Dividing by the key undoes the client's multiplication by it. */
  lemma UnscaleScale(g: Grid, key: real)
    requires g.Rectangular() && key != 0.0
    ensures Server.FractalTransformation(Client.FractalTransformation(g, key), key) == g
  {
    var r := Server.FractalTransformation(Client.FractalTransformation(g, key), key);
    forall j | 0 <= j < g.Cols()
      ensures r.top[j] == g.top[j] && r.bottom[j] == g.bottom[j]
    {
      assert r.top[j] * key == g.top[j] * key;
      assert r.bottom[j] * key == g.bottom[j] * key;
    }
  }

  /** On integer-valued floats the round-and-filter step is the integer filter. */
  lemma {:induction false} KeepCharsIntegers(codes: seq<int>)
    ensures Server.KeepChars(Client.AsReals(codes)) == KeepAscii(codes)
  {
    if codes != [] {
      var v := Client.AsReals(codes);
      Server.RoundInteger(codes[0]);
      assert v[1..] == Client.AsReals(codes[1..]);
      KeepCharsIntegers(codes[1..]);
    }
  }

  lemma DeinterleaveAsReals(codes: seq<int>)
    requires |codes| % 2 == 0
    ensures Client.AsReals(Deinterleave(codes)) == Deinterleave(Client.AsReals(codes))
  {
  }

  /**
   * In exact arithmetic, decrypting what encrypt produced, with the same key,
   * padding flag and t, yields the even-index codes of the padded message
   * followed by its odd-index codes, filtered to [0, 127], with the padding
   * step applied.
   */
  lemma DecryptEncrypt(m: string, key: real, timestamp: real, trig: Trig)
    requires key != 0.0 && Pythagorean(trig)
    ensures var e := Client.Encrypt(m, key, timestamp, trig);
      Server.Decrypt(e.values, key, e.padding, e.t, trig) == Success(LiteralDecode(m))
  {
    var e := Client.Encrypt(m, key, timestamp, trig);
    var padded := Client.PadCodes(Client.Codes(m)).0;
    var p := Client.Layout(m);
    var m0 := CreateHyperbolicMatrix(trig, InitialTheta);
    var mT := CreateHyperbolicMatrix(trig, ChaoticMap(e.t));
    var e0 := Apply(m0, p);
    var eT := Apply(mT, e0);
    var eFinal := Client.FractalTransformation(eT, key);
    assert e.values == Flatten(eFinal);
    ReshapeFlatten(eFinal);
    UnscaleScale(eT, key);
    HyperbolicDeterminant(trig, ChaoticMap(e.t));
    HyperbolicDeterminant(trig, InitialTheta);
    HyperbolicInverse(trig, ChaoticMap(e.t), e0);
    HyperbolicInverse(trig, InitialTheta, p);
    FlattenPairColumns(Client.AsReals(padded));
    DeinterleaveAsReals(padded);
    KeepCharsIntegers(Deinterleave(padded));
  }

  /**
   * The whole session: the server parses the client's byte stream (with n
   * known) and decrypts what it read, and gets LiteralDecode of the message.
   */
  lemma SessionEndToEnd(m: string, key: real, timestamp: real, trig: Trig, q: Wire.QuantumState)
    requires key != 0.0 && Pythagorean(trig)
    ensures var e := Client.Encrypt(m, key, timestamp, trig);
      var received := Wire.ServerReceive(Wire.ClientStream(e.values, key, e.padding, e.t, q), |e.values|);
      && received.Success?
      && received.value.state == Wire.TokenBytes(q)
      && Server.Decrypt(received.value.ciphertext, received.value.key, received.value.padding,
                        received.value.t, trig) == Success(LiteralDecode(m))
  {
    var e := Client.Encrypt(m, key, timestamp, trig);
    Wire.ClientServerRoundTrip(e.values, key, e.padding, e.t, q);
    DecryptEncrypt(m, key, timestamp, trig);
  }

  /** ASCII text survives the code round trip through the filter. */
  lemma {:induction false} KeepAsciiText(s: string)
    requires IsAscii(s)
    ensures KeepAscii(Client.Codes(s)) == s
  {
    if s != [] {
      assert Client.Codes(s)[1..] == Client.Codes(s[1..]);
      KeepAsciiText(s[1..]);
    }
  }

  /** The filter is strictly shorter than its input when one code lies outside [0, 127]. */
  lemma {:induction false} KeepAsciiDrops(codes: seq<int>, k: nat)
    requires k < |codes| && !(0 <= codes[k] <= 127)
    ensures |KeepAscii(codes)| < |codes|
  {
    if k > 0 {
      KeepAsciiDrops(codes[1..], k - 1);
    }
  }

  /** Entry i of an even-length list sits at i/2 (i even) or n/2 + i/2 (i odd) after the split. */
  lemma DeinterleaveAt<T>(p: seq<T>, i: nat)
    requires |p| % 2 == 0 && i < |p|
    ensures i % 2 == 0 ==> Deinterleave(p)[i / 2] == p[i]
    ensures i % 2 == 1 ==> Deinterleave(p)[|p| / 2 + i / 2] == p[i]
  {
  }

  /** The decoded codes of an ASCII message are its characters, even/odd split. */
  lemma DecodeCodesAscii(m: string)
    requires IsAscii(m) && |m| % 2 == 0
    ensures KeepAscii(Deinterleave(Client.Codes(m))) == Deinterleave(m)
  {
    var d := Deinterleave(m);
    assert Deinterleave(Client.Codes(m)) == Client.Codes(d);
    assert IsAscii(d) by {
      forall i | 0 <= i < |d| ensures d[i] as int <= 127 {
        if i < |m| / 2 { assert d[i] == m[2 * i]; } else { assert d[i] == m[2 * (i - |m| / 2) + 1]; }
      }
    }
    KeepAsciiText(d);
  }

  /**
   * An even-length ASCII message decodes to its even-index characters
   * followed by its odd-index characters.
   */
  lemma LiteralDecodeEven(m: string)
    requires IsAscii(m) && |m| % 2 == 0
    ensures LiteralDecode(m) == Deinterleave(m)
  {
    DecodeCodesAscii(m);
  }

  /**
   * An odd-length ASCII message decodes to the even/odd split of the message
   * with its padded NUL, whose last character is that NUL, followed by the
   * message's first character.
   */
  lemma LiteralDecodeOdd(m: string)
    requires IsAscii(m) && |m| % 2 == 1
    ensures LiteralDecode(m) == Deinterleave(m + ['\0']) + [m[0]]
    ensures |LiteralDecode(m)| == |m| + 2
    ensures LiteralDecode(m)[|m|] == '\0' && LiteralDecode(m)[|m| + 1] == m[0]
  {
    var padded := m + ['\0'];
    assert Client.PadCodes(Client.Codes(m)).0 == Client.Codes(padded);
    assert IsAscii(padded);
    DecodeCodesAscii(padded);
    var d := Deinterleave(padded);
    DeinterleaveAt(padded, |m|);
    assert d[0] == m[0];
  }

  /** Order survives only for messages of at most two characters. */
  lemma ShortMessagesKeepOrder(m: string)
    requires IsAscii(m) && (|m| == 0 || |m| == 2)
    ensures LiteralDecode(m) == m
  {
    LiteralDecodeEven(m);
  }

  /**
   * From four characters on the order changes: the second decoded character
   * is the third of the message and the first odd-index character moves to
   * the middle.
   */
  lemma LongerMessagesReorder(m: string)
    requires IsAscii(m) && |m| % 2 == 0 && |m| >= 4
    ensures |LiteralDecode(m)| == |m|
    ensures LiteralDecode(m)[1] == m[2] && LiteralDecode(m)[|m| / 2] == m[1]
  {
    LiteralDecodeEven(m);
    DeinterleaveAt(m, 2);
    DeinterleaveAt(m, 1);
  }

  /** A character with a code above 127 is dropped, so an even-length message comes back shorter. */
  lemma NonAsciiDropped(m: string, i: nat)
    requires |m| % 2 == 0 && i < |m| && m[i] as int > 127
    ensures |LiteralDecode(m)| < |m|
  {
    var codes := Client.Codes(m);
    var d := Deinterleave(codes);
    DeinterleaveAt(codes, i);
    KeepAsciiDrops(d, if i % 2 == 0 then i / 2 else |m| / 2 + i / 2);
  }

  /** "HI" comes back as "HI". */
  lemma ExampleHI()
    ensures LiteralDecode("HI") == "HI"
  {
    ShortMessagesKeepOrder("HI");
  }

  /** "ABCD" comes back as "ACBD". */
  lemma ExampleABCD()
    ensures LiteralDecode("ABCD") == "ACBD"
  {
    LiteralDecodeEven("ABCD");
    assert Deinterleave("ABCD") == "AC" + "BD";
  }

  /** "ABC" is padded to "ABC\0" and comes back as "ACB\0A". */
  lemma ExampleABC()
    ensures LiteralDecode("ABC") == "ACB\0A"
  {
    LiteralDecodeOdd("ABC");
    assert Deinterleave("ABC\0") == "AC" + "B\0";
  }
}
