# Hyperbolic message transform and wire layout of the QKD client/server scripts

This project models, in Dafny, the deterministic core of the two scripts
`qkd_client.py` and `qkd_server.py`:

- the client's `encrypt`: characters to codes, a trailing `0` and a padding
  flag for odd lengths, the `reshape(-1, 2).T` layout into a 2-row matrix,
  two hyperbolic rotations `[[cosh θ, sinh θ], [sinh θ, cosh θ]]` (the
  initial angle 0.5 and the chaotic angle `3.8·t·(1 − t)`), scaling by the
  shared key and a row-major flatten;
- the server's `decrypt`: `reshape(2, -1)`, division by the key, the two
  inverses from `np.linalg.inv`, a row-major flatten, Python's `round`, the
  `0 <= v <= 127` filter and the `plaintext += plaintext[:padding]` step;
- the byte stream between them: the ciphertext as float64 values, the key
  (8 bytes), the padding flag (4-byte int32), `t` (8 bytes) and the
  quantum-state token (1 byte), 8n + 21 bytes in all, and the server's
  fixed-width reads of it.

Floats are exact `real`s. `cosh` and `sinh` are supplied as a `Trig` value,
and the proofs assume only `cosh²(x) − sinh²(x) = 1`. `np.linalg.inv` is the
general 2×2 inverse, which fails on a zero determinant. Python's `round` is
modelled exactly: nearest integer, ties to the even one.

Modules, one file each: `Wrappers` (Option, Result), `Linear` (the numpy
matrix operations), `Hyperbolic` (`create_hyperbolic_matrix` and
`chaotic_map`, identical in both scripts), `Client`, `Server`, `Wire`, and
`Pipeline`, which holds the end-to-end lemmas.

## What decrypt(encrypt(m)) is

The server flattens the recovered 2×(n/2) matrix row-major. So in exact
arithmetic the codes come back as all even-index codes of the padded
message, then all its odd-index codes (`Pipeline.DecryptEncrypt`,
`Pipeline.LiteralDecode`). The model states this literal behaviour. It does
not claim that decryption preserves the message order:

- "HI" comes back as "HI". Any ASCII message of 0 or 2 characters keeps its order.
- "ABCD" comes back as "ACBD". From 4 characters on the order changes.
- "ABC" is padded to "ABC\0". It comes back as "ACB\0A": the padded `0`
  passes the filter, because `0 <= 0`, and ends up last. The padding step
  then appends the first character instead of removing the `0`.
- Characters with a code above 127 are dropped.

Decoding is not the inverse of encoding: the code reorders the codes, and
this model follows the code.

## Model

| member | source | states |
|---|---|---|
| Linear.Apply | qkd_client.py:31 | np.dot of a 2×2 matrix with a 2×N matrix keeps the shape; column j of the result is the matrix times column j |
| Linear.Inverse | qkd_server.py:20 | np.linalg.inv yields a matrix exactly when the determinant is non-zero |
| Linear.InverseIsInverse | qkd_server.py:20-24 | when it exists, that matrix is a left and right inverse of its argument |
| Linear.Flatten | qkd_client.py:36 | a row-major flatten of a 2×N matrix has 2N entries: the first N are row 0 and the last N are row 1 |
| Linear.Reshape2 | qkd_server.py:17 | reshape(2, -1) of an even-length vector gives a 2-row matrix whose flatten is that vector |
| Linear.ReshapeFlatten | qkd_server.py:17 | reshape(2, -1) of the flatten of a 2-row matrix gives back the exact matrix |
| Linear.ApplyMul | qkd_server.py:21-24 | applying one matrix and then another equals applying their product |
| Linear.ApplyIdentity | qkd_server.py:24 | the identity matrix leaves a 2-row matrix unchanged |
| Hyperbolic.CreateHyperbolicMatrix | qkd_client.py:13-15 | the matrix is symmetric and has equal diagonal entries, cosh θ on the diagonal and sinh θ off it |
| Hyperbolic.ChaoticMap | qkd_client.py:17-18 | for r ≥ 0 the value is at most r/4 for every t; for t in [0, 1] it is non-negative |
| Hyperbolic.LogisticBounds | qkd_client.py:17-18 | r·t·(1 − t) ≤ r/4 for r ≥ 0, and it is ≥ 0 when t is also in [0, 1] |
| Hyperbolic.ChaoticAngleRange | qkd_client.py:32-33 | for t in [0, 1), the range of `timestamp % 1`, the chaotic angle lies in [0, 0.95] |
| Hyperbolic.HyperbolicDeterminant | qkd_client.py:13-15 | with cosh² − sinh² = 1 the hyperbolic matrix has determinant 1, so it is invertible |
| Hyperbolic.HyperbolicInverse | qkd_server.py:19-24 | np.linalg.inv of the hyperbolic matrix is [[cosh, −sinh], [−sinh, cosh]], and applying it after the matrix returns the original 2-row matrix |
| Client.Codes | qkd_client.py:24 | one code per character, equal to its ord |
| Client.AsReals | qkd_client.py:24 | the codes as a float array of the same length, entry by entry |
| Client.PadCodes | qkd_client.py:25-28 | the padded list has even length; the flag is 1 exactly when the length is odd; the codes are an unchanged prefix, followed by a single 0 when padded |
| Client.PairColumns | qkd_client.py:29 | reshape(-1, 2).T puts entry 2j in row 0, column j and entry 2j + 1 in row 1, column j, for every j < n/2 |
| Client.FractalTransformation | qkd_client.py:20-21 | key scaling keeps the shape and multiplies every entry by the key |
| Client.FracPart | qkd_client.py:32 | `timestamp % 1` lies in [0, 1) and differs from the timestamp by an integer |
| Client.Layout | qkd_client.py:24-29 | the code matrix encrypt builds is a well-formed 2-row matrix |
| Client.Encrypt | qkd_client.py:23-36 | the ciphertext has the padded length (even, the message length plus the flag); the flag is 1 exactly for odd lengths; t is `timestamp % 1`, in [0, 1) |
| Server.FractalTransformation | qkd_server.py:13-14 | division by a non-zero key keeps the shape, and each result times the key is the original entry |
| Server.Round | qkd_server.py:25 | round() gives an integer within 1/2 of its argument, and the even one on a tie |
| Server.RoundInteger | qkd_server.py:25 | an integer-valued float rounds to itself |
| Server.KeepChars | qkd_server.py:25 | the filtered text is no longer than the flat matrix, and every kept character has a code in [0, 127] |
| Server.KeepCharsAppend | qkd_server.py:25 | the filter keeps order: the filter of a concatenation is the concatenation of the filters |
| Server.KeepCharsInRange | qkd_server.py:25 | when every value is in [0, 127], every value is kept, and character i has the code round(value i) |
| Server.KeepCharsDrops | qkd_server.py:25 | a value outside [0, 127] is dropped: the text is strictly shorter than the values |
| Server.PrefixSlice | qkd_server.py:27 | Python's s[:k] is a prefix of s, of length min(k, len s) for k ≥ 0 and max(len s + k, 0) for k < 0 |
| Server.AppendPadding | qkd_server.py:26-27 | a non-zero flag appends exactly Python's s[:padding] (negative flags counted from the end), and the text stays a prefix; flag 0 or empty text leave it unchanged; flag 1 on non-empty text appends its first character; a flag ≥ its length doubles it |
| Server.Decrypt | qkd_server.py:16-28 | an odd-length ciphertext fails the reshape; a zero key fails; with cosh² − sinh² = 1 and a non-zero key every even-length ciphertext decrypts; the text has codes in [0, 127] and at most twice the ciphertext length |
| Wire.DoubleBytes | qkd_client.py:64 | a float64 occupies 8 bytes |
| Wire.ReadDouble | qkd_server.py:44-45 | an 8-byte read yields a double exactly when the bytes are that double's encoding |
| Wire.DoublesBytes | qkd_client.py:63 | the ciphertext array occupies 8 bytes per value |
| Wire.ReadDoubles | qkd_server.py:41-42 | reading n doubles' worth of bytes yields n values or fails |
| Wire.Int32Bytes | qkd_client.py:65 | the int32 padding field is 4 plain bytes |
| Wire.ReadInt32 | qkd_server.py:47-48 | a 4-byte read yields a value exactly when all 4 are plain bytes, and the value is in the int32 range |
| Wire.TokenBytes | qkd_client.py:67 | the quantum-state token is the single UTF-8 byte of "0" or "1" |
| Wire.ClientStream | qkd_client.py:63-67 | the client's stream is 8n + 21 bytes long: n 8-byte ciphertext values, then the 8-byte key, the 4-byte int32 padding, the 8-byte t and the 1-byte token, at those offsets |
| Wire.ServerReceive | qkd_server.py:41-54 | the reads fail as short exactly when fewer than 8n + 20 bytes arrive; on success there are n ciphertext values, an int32 padding and the remaining bytes as the token |
| Wire.ReadDoublesBytes | qkd_server.py:41-42 | reading back the bytes of a double array gives the array |
| Wire.ReadInt32Bytes | qkd_server.py:47-48 | reading back the 4 bytes of an int32 gives the integer |
| Wire.ClientServerRoundTrip | qkd_server.py:41-51 | with n known, the server's fixed-width reads recover the ciphertext, key, padding, t and token bytes exactly as the client wrote them |
| Pipeline.FlattenPairColumns | qkd_client.py:29-36 | the row-major flatten of the reshape(-1, 2).T layout is the even-index entries followed by the odd-index entries |
| Pipeline.UnscaleScale | qkd_server.py:18 | dividing by a non-zero key undoes the client's multiplication by it |
| Pipeline.KeepCharsIntegers | qkd_server.py:25 | on integer-valued floats, round-and-filter keeps the codes in [0, 127] as characters, in order |
| Pipeline.DecryptEncrypt | qkd_server.py:16-28 | with a non-zero key and cosh² − sinh² = 1, decrypt of encrypt's output is the even-index codes of the padded message, then its odd-index codes, filtered to [0, 127], with the padding step applied |
| Pipeline.SessionEndToEnd | qkd_server.py:41-62 | the server parses the client's stream and decrypts what it read, and gets `LiteralDecode(m)`, the text of `Pipeline.DecryptEncrypt` |
| Pipeline.LiteralDecodeEven | qkd_server.py:25 | an even-length ASCII message decodes to its even-index characters followed by its odd-index characters |
| Pipeline.LiteralDecodeOdd | qkd_server.py:25-27 | an odd-length ASCII message decodes to the split of the message plus NUL, whose last character is that NUL, followed by the message's first character; length grows by 2 |
| Pipeline.ShortMessagesKeepOrder | qkd_server.py:25 | ASCII messages of 0 or 2 characters come back unchanged |
| Pipeline.LongerMessagesReorder | qkd_server.py:25 | for even ASCII messages of 4 or more characters, the second decoded character is the third of the message and the second character moves to the middle |
| Pipeline.NonAsciiDropped | qkd_server.py:25 | an even-length message with a character code above 127 comes back shorter |
| Pipeline.ExampleHI | qkd_server.py:25 | "HI" decodes as "HI" |
| Pipeline.ExampleABCD | qkd_server.py:25 | "ABCD" decodes as "ACBD" |
| Pipeline.ExampleABC | qkd_server.py:25-27 | "ABC" decodes as "ACB\0A" |

## Left out

- Sockets, `sendall`/`recv`, `input()`, every `print` and the module-level
  script flow of both files: they are I/O. The server's `recv(2048)`
  depends on how TCP splits the stream, so `Wire.ServerReceive` takes the
  ciphertext length n as a parameter.
- Floating-point evaluation: values are exact reals, so precision loss and
  rounding noise in the matrix chain are not modelled.
- `math.cosh` and `math.sinh`: not computed; a `Trig` supplies them, with
  cosh² − sinh² = 1 as the only assumption.
- The IEEE-754 bytes of a float64: abstract (`DoubleByte(x, k)` is byte k of x).
- `generate_shared_keys`: random draws and π; the key is a parameter.
- `generate_quantum_state`: random; only its two values matter, as `QuantumState`.
- `compute_hash`, the challenge string and the response: a SHA-256 library
  call, and the server never checks the response.
- `datetime.now()`: the timestamp is a parameter of `Encrypt`.
- The "efficiency" metric: a float computed for display only.
- Server.Decrypt: a zero key is the explicit `ZeroKey` error. In the Python,
  numpy divides to inf or nan, the range filter drops every such value, and
  decrypt returns the empty string.
- Server.Decrypt: `np.linalg.inv` is taken to fail exactly when the
  determinant is exactly zero; LAPACK's floating-point pivot test is not modelled.
- Wire.ServerReceive: an 8-byte read that straddles two fields gives the
  `Misaligned` error, where numpy would decode some unrelated double; a stream
  too short for the reads gives `ShortRead`, where the Python blocks in `recv`
  or raises.
- Wire.ServerReceive: the token bytes are returned raw; the server decodes
  them as UTF-8 only to print them.
- Wire.Int32Bytes: an integer outside the int32 range wraps modulo 2^32,
  where numpy raises OverflowError; the client only sends 0 or 1.
