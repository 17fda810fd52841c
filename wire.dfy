/**
 * The client→server byte stream: the ciphertext as float64 values, the key
 * as one float64, the padding flag as one int32, t as one float64 and the
 * quantum-state token as one UTF-8 byte, with no framing between fields.
 *
 * Integer and text bytes are concrete. The bytes of a float64 are left
 * abstract: DoubleByte(x, k) stands for byte k of the binary64 encoding of x.
 */
module Wire {
  import opened Wrappers

  newtype uint8 = x: int | 0 <= x < 256

  datatype Octet = Byte(b: uint8) | DoubleByte(x: real, k: nat)

  /** Byte widths of np.float64 and np.int32. */
  const DoubleWidth: nat := 8
  const Int32Width: nat := 4

  const Int32Min: int := -0x8000_0000
  const Int32Max: int := 0x7FFF_FFFF

  /** np.array([x], dtype=np.float64).tobytes(). */
  function DoubleBytes(x: real): (bs: seq<Octet>)
    ensures |bs| == DoubleWidth
  {
    seq(DoubleWidth, k requires 0 <= k < DoubleWidth => DoubleByte(x, k))
  }

  /**
   * np.frombuffer(bs, dtype=np.float64)[0] of one 8-byte read. None when the
   * 8 bytes are not the encoding of a single double as it was written
   * (a read that straddles two fields).
   */
  function ReadDouble(bs: seq<Octet>): (r: Option<real>)
    requires |bs| == DoubleWidth
    ensures r.Some? ==> DoubleBytes(r.value) == bs
    ensures r.None? ==> forall x :: DoubleBytes(x) != bs
  {
    if bs[0].DoubleByte? && bs == DoubleBytes(bs[0].x) then Some(bs[0].x) else None
  }

  /** An array of doubles, back to back (ndarray.tobytes()). */
  function DoublesBytes(v: seq<real>): (bs: seq<Octet>)
    ensures |bs| == DoubleWidth * |v|
  {
    if v == [] then [] else DoubleBytes(v[0]) + DoublesBytes(v[1..])
  }

  /** np.frombuffer(bs, dtype=float) of n doubles' worth of bytes. */
  function ReadDoubles(bs: seq<Octet>, n: nat): (r: Option<seq<real>>)
    requires |bs| == DoubleWidth * n
    ensures r.Some? ==> |r.value| == n
  {
    if n == 0 then Some([])
    else
      match (ReadDouble(bs[..DoubleWidth]), ReadDoubles(bs[DoubleWidth..], n - 1))
      case (Some(x), Some(rest)) => Some([x] + rest)
      case _ => None
  }

  /** np.array([v], dtype=np.int32).tobytes(): little-endian two's complement, wrapping modulo 2^32. */
  function Int32Bytes(v: int): (bs: seq<Octet>)
    ensures |bs| == Int32Width && forall i :: 0 <= i < |bs| ==> bs[i].Byte?
  {
    var u := v % 0x1_0000_0000;
    var u1 := u / 0x100;
    var u2 := u1 / 0x100;
    [Byte((u % 0x100) as uint8), Byte((u1 % 0x100) as uint8),
     Byte((u2 % 0x100) as uint8), Byte((u2 / 0x100) as uint8)]
  }

  /** np.frombuffer(bs, dtype=np.int32)[0] of one 4-byte read. */
  function ReadInt32(bs: seq<Octet>): (r: Option<int>)
    requires |bs| == Int32Width
    ensures r.Some? <==> forall i :: 0 <= i < |bs| ==> bs[i].Byte?
    ensures r.Some? ==> Int32Min <= r.value <= Int32Max
  {
    if bs[0].Byte? && bs[1].Byte? && bs[2].Byte? && bs[3].Byte? then
      var u := bs[0].b as int + 0x100 * bs[1].b as int
             + 0x1_0000 * bs[2].b as int + 0x100_0000 * bs[3].b as int;
      Some(if u > Int32Max then u - 0x1_0000_0000 else u)
    else None
  }

  /** The quantum-state token str(random.randint(0, 1)). */
  datatype QuantumState = Zero | One

  /** quantum_state.encode('utf-8'): the single byte of "0" or "1". */
  function TokenBytes(q: QuantumState): (bs: seq<Octet>)
    ensures |bs| == 1 && bs[0].Byte?
    ensures bs[0].b == (if q == Zero then '0' else '1') as int as uint8
  {
    [Byte(if q == Zero then 0x30 else 0x31)]
  }

  /** The five sendall calls of the client, in order. */
  function ClientStream(ciphertext: seq<real>, key: real, padding: int, t: real, q: QuantumState): (bs: seq<Octet>)
    ensures |bs| == 8 * |ciphertext| + 21
    ensures var o := 8 * |ciphertext|;
      && bs[..o] == DoublesBytes(ciphertext)
      && bs[o..o + 8] == DoubleBytes(key)
      && bs[o + 8..o + 12] == Int32Bytes(padding)
      && bs[o + 12..o + 20] == DoubleBytes(t)
      && bs[o + 20..] == TokenBytes(q)
  {
    var values, k, flag, sample, token :=
      DoublesBytes(ciphertext), DoubleBytes(key), Int32Bytes(padding), DoubleBytes(t), TokenBytes(q);
    assert |values| == 8 * |ciphertext| && |k| == 8 && |flag| == 4 && |sample| == 8 && |token| == 1;
    values + k + flag + sample + token
  }

  /** What the server's reads produce. `state` holds the bytes it decodes as UTF-8 for display. */
  datatype Received = Received(ciphertext: seq<real>, key: real, padding: int, t: real, state: seq<Octet>)

  datatype WireError =
    | ShortRead    // fewer bytes than the fixed-width reads need
    | Misaligned   // a fixed-width read does not line up with a field as written

  /**
   * The server's reads with the ciphertext length n given: 8n bytes of
   * doubles, then 8 (key), 4 (padding), 8 (t), and the rest (the token).
   */
  function ServerReceive(stream: seq<Octet>, n: nat): (r: Result<Received, WireError>)
    ensures r == Failure(ShortRead) <==> |stream| < 8 * n + 20
    ensures r.Success? ==> |r.value.ciphertext| == n && Int32Min <= r.value.padding <= Int32Max
    ensures r.Success? ==> r.value.state == stream[8 * n + 20..]
  {
    if |stream| < 8 * n + 20 then Failure(ShortRead)
    else
      var o := 8 * n;
      match (ReadDoubles(stream[..o], n), ReadDouble(stream[o..o + 8]),
             ReadInt32(stream[o + 8..o + 12]), ReadDouble(stream[o + 12..o + 20]))
      case (Some(v), Some(key), Some(padding), Some(t)) =>
        Success(Received(v, key, padding, t, stream[o + 20..]))
      case _ => Failure(Misaligned)
  }

  /** Reading back the bytes of an array of doubles gives the array. */
  lemma {:induction false} ReadDoublesBytes(v: seq<real>)
    ensures ReadDoubles(DoublesBytes(v), |v|) == Some(v)
  {
    if v != [] {
      var bs := DoublesBytes(v);
      assert bs[..DoubleWidth] == DoubleBytes(v[0]);
      assert bs[DoubleWidth..] == DoublesBytes(v[1..]);
      ReadDoublesBytes(v[1..]);
      assert [v[0]] + v[1..] == v;
    }
  }

  /** Reading back the bytes of an int32 gives the integer. */
  lemma ReadInt32Bytes(v: int)
    requires Int32Min <= v <= Int32Max
    ensures ReadInt32(Int32Bytes(v)) == Some(v)
  {
  }

  /**
   * The server reads every field in the order and width the client writes
   * it: with n known, parsing the client's stream recovers each field.
   */
  lemma ClientServerRoundTrip(ciphertext: seq<real>, key: real, padding: int, t: real, q: QuantumState)
    requires Int32Min <= padding <= Int32Max
    ensures ServerReceive(ClientStream(ciphertext, key, padding, t, q), |ciphertext|)
         == Success(Received(ciphertext, key, padding, t, TokenBytes(q)))
  {
    ReadDoublesBytes(ciphertext);
    ReadInt32Bytes(padding);
  }
}
