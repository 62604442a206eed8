# LCS canonical decoding, in Dafny

This project models the canonical-decoding rules of the Swift runtime's
`LcsDeserializer` (LCS: Libra Canonical Serialization). It covers two
operations and proves what they accept and what they reject:

- `deserialize_uleb128_as_u32` decodes an unsigned LEB128 number. It reads at
  most five bytes, one 7-bit digit per byte, least significant first. It stops
  at the first byte whose high bit is clear. It fails when the accumulated
  value exceeds `Int.max`, when a number of more than one byte ends on the
  byte 0x00 (a non-minimal encoding), and when five bytes all carry the
  continuation bit.
- `deserialize_len` reads a fixed-width little-endian `Int64` and accepts it
  only when it lies in `[0, Int.max]`.

The project has three modules:

- `ByteReader` (`byte_reader.dfy`) is the reader the deserializer inherits.
  It is an immutable byte sequence plus a read position, with `readUInt8`,
  `readInt64` and the error type. Every operation returns an `Outcome`: the
  result together with the reader it leaves behind, on failure as well as on
  success.
- `Leb128` (`leb128.dfy`) is a reference definition of ULEB128 that is
  independent of the decoder. It has the value of a digit string, framing,
  canonicity, and the minimal encoder `Encode`.
- `LcsDeserializer` (`lcs_deserializer.dfy`) holds the two operations. For
  each outcome of the uleb128 decoder it proves an if-and-only-if against a
  predicate stated on the input bytes alone. It also proves round-trip and
  uniqueness against `Leb128.Encode`.

The host's `Int.max` is the parameter `intMax`. On a 64-bit host it is
`Int64Max`.

Modelling notes:

- Bytes are integers in `[0, 256)`. The source's `x & 0x7F` is `x % 128`, and
  its test `digit == x` is "the high bit is clear".
- The source writes `value |= digit << shift`. The model writes it as an
  addition. `OrIsAdd` proves, on 64-bit vectors, that the two agree for every
  accumulator the loop can hold.
- The source's `value < 0` test can never hold, because the accumulator is a
  sum of non-negative digits below 2^35. It is left out.
- Line 32 throws a different error type from line 23, even though the message
  is the same. The model keeps them apart as `Uleb128TooLong` and
  `Uleb128Overflow`.
- The source calls `readUInt8` without `try`, so what happens at the end of
  the input is not visible. The model chooses an explicit `Truncated` error
  that leaves the position at the end of the input.

## Model

| member | source | states |
|---|---|---|
| LcsDeserializer.DeserializeUleb128AsU32 | serde-generate/runtime/swift/Serde/LcsDeserializer.swift:16-33 | The decoder never moves the reader back and reads at most five bytes. On success, the bytes consumed form a canonical ULEB128 number: every byte but the last continues, and the last byte is not a redundant zero. The result is the value of those bytes, is at most `Int.max`, and is below 2^35. |
| LcsDeserializer.AcceptsIff | serde-generate/runtime/swift/Serde/LcsDeserializer.swift:18-30 | The decoder succeeds and leaves the reader at `q` if and only if the bytes up to `q` are one to five bytes where only the last lacks the high bit, the last is not 0x00 unless it is the only byte, and the digit sum Σ (bᵢ & 0x7F)·128^i is at most `Int.max`. The result is that digit sum. |
| LcsDeserializer.DecodedBytesAreMinimalEncoding | serde-generate/runtime/swift/Serde/LcsDeserializer.swift:18-30 | After a success, the consumed bytes are exactly the minimal ULEB128 encoding of the returned value, and the reader has advanced by that encoding's length. |
| LcsDeserializer.MinimalEncodingDecodes | serde-generate/runtime/swift/Serde/LcsDeserializer.swift:16-30 | The minimal encoding of any value below 2^35 and at most `Int.max`, followed by any bytes, decodes to that value and consumes exactly the encoding. |
| LcsDeserializer.DecodeIff | serde-generate/runtime/swift/Serde/LcsDeserializer.swift:16-30 | The decoder returns `v` with the reader at `q` if and only if the bytes up to `q` are the minimal encoding of `v`, and `v` is below 2^35 and at most `Int.max`. This is round trip and uniqueness in both directions. |
| LcsDeserializer.RoundTrip | serde-generate/runtime/swift/Serde/LcsDeserializer.swift:16-30 | Decoding `prefix + Encode(v) + suffix` from the end of the prefix returns `v` and consumes exactly `Encode(v)`. |
| LcsDeserializer.AcceptedEncodingUnique | serde-generate/runtime/swift/Serde/LcsDeserializer.swift:18-30 | Two successful decodes return the same value if and only if they consumed the same byte string. |
| LcsDeserializer.AcceptedWindowIsCanonical | serde-generate/runtime/swift/Serde/LcsDeserializer.swift:18-30 | A byte window the decoder accepts is a canonical ULEB128 string. The value accumulated digit by digit equals the value the string denotes, and it is below 2^35. |
| LcsDeserializer.ZeroDigitIff | serde-generate/runtime/swift/Serde/LcsDeserializer.swift:25-28 | The decoder fails with "unexpected zero digit" and leaves the reader at `q` if and only if the bytes up to `q` are two to five bytes where every byte but the last continues and the last is 0x00. |
| LcsDeserializer.OverflowIff | serde-generate/runtime/swift/Serde/LcsDeserializer.swift:21-24 | The decoder fails with the overflow error and leaves the reader at `q` if and only if the byte before `q` is the first whose digit lifts the accumulated value above `Int.max`. The check runs after every digit, before the next byte is read. |
| LcsDeserializer.TooLongIff | serde-generate/runtime/swift/Serde/LcsDeserializer.swift:18-32 | The decoder fails with the line-32 error if and only if the first five bytes all continue and their digits stay within `Int.max`. When it does, the reader has moved past exactly five bytes. |
| LcsDeserializer.TruncatedIff | serde-generate/runtime/swift/Serde/LcsDeserializer.swift:18-19 | The decoder fails with `Truncated` if and only if the input ends inside a run of fewer than five continuing bytes whose digits stay within `Int.max`. The reader is then at the end of the input. |
| LcsDeserializer.NoOverflowOnWideHost | serde-generate/runtime/swift/Serde/LcsDeserializer.swift:22-24 | When `Int.max` is at least 2^35 − 1, as on a 64-bit host, the overflow error is never raised. |
| LcsDeserializer.ReadsAtMostFive | serde-generate/runtime/swift/Serde/LcsDeserializer.swift:18-19 | Two inputs that agree on the five bytes from the position decode to the same result with the same final position, so no byte past the fifth is read. |
| LcsDeserializer.OrIsAdd | serde-generate/runtime/swift/Serde/LcsDeserializer.swift:21 | While the accumulator holds only bits below `shift` (at most 28) and the digit is below 128, OR-ing in `digit << shift` equals adding it. The sum stays below 2^(shift+7), so the Int64 accumulator never goes negative. |
| LcsDeserializer.ZeroByteDecodesToZero | serde-generate/runtime/swift/Serde/LcsDeserializer.swift:25-29 | The single byte 0x00 decodes to 0 and consumes one byte. |
| LcsDeserializer.PaddedZeroRejected | serde-generate/runtime/swift/Serde/LcsDeserializer.swift:25-28 | `[0x80, 0x00]` is rejected with "unexpected zero digit" after two bytes. |
| LcsDeserializer.SixByteInputRejected | serde-generate/runtime/swift/Serde/LcsDeserializer.swift:18-32 | `[0xFF ×5, 0x0F]` fails with the line-32 error after five bytes, before the sixth is read. |
| LcsDeserializer.DeserializeLen | serde-generate/runtime/swift/Serde/LcsDeserializer.swift:35-41 | `deserialize_len` fails only with `Truncated` or "Incorrect length value", and consumes the eight bytes whenever there are eight. An accepted length lies in `[0, Int.max]`, and the eight bytes consumed are its Int64 encoding. |
| LcsDeserializer.LenDecision | serde-generate/runtime/swift/Serde/LcsDeserializer.swift:36-40 | On eight bytes that encode the Int64 `v`, `deserialize_len` returns `v` unchanged if and only if 0 ≤ v ≤ `Int.max`, and otherwise fails with "Incorrect length value". It consumes the eight bytes either way. |
| LcsDeserializer.LenRoundTrip | serde-generate/runtime/swift/Serde/LcsDeserializer.swift:35-41 | Any length in `[0, Int.max]` that is written as an Int64 anywhere in the input reads back as itself and consumes exactly eight bytes. |
| LcsDeserializer.MinusOneLengthRejected | serde-generate/runtime/swift/Serde/LcsDeserializer.swift:37-38 | Eight 0xFF bytes, which are the Int64 −1, are rejected as an incorrect length after eight bytes. |
| Leb128.EncodeCanonical | serde-generate/runtime/swift/Serde/LcsDeserializer.swift:25-29 | The minimal encoder produces a canonical string, and that string denotes its input. |
| Leb128.CanonicalIsEncode | serde-generate/runtime/swift/Serde/LcsDeserializer.swift:25-29 | Every canonical string, meaning one that is framed and not ending on a redundant zero, is the minimal encoding of the number it denotes. |
| Leb128.EncodeIsShortest | serde-generate/runtime/swift/Serde/LcsDeserializer.swift:25-29 | No framed string denoting a number is shorter than that number's minimal encoding. |
| Leb128.CanonicalUnique | serde-generate/runtime/swift/Serde/LcsDeserializer.swift:25-29 | Two canonical strings denote the same number if and only if they are the same string. |
| Leb128.EncodeLength | serde-generate/runtime/swift/Serde/LcsDeserializer.swift:18 | The minimal encoding of `v` has at most `n` bytes if and only if v < 128^n. With the five turns of the stride, this makes 2^35 the bound on what can be accepted. |
| ByteReader.Int64RoundTrip | serde-generate/runtime/swift/Serde/LcsDeserializer.swift:36 | Eight bytes read as the Int64 `v` if and only if they are the little-endian two's-complement encoding of `v`. |
| LcsDeserializer.AcceptsValueAboveUInt32 | serde-generate/runtime/swift/Serde/LcsDeserializer.swift:22 | On a 64-bit host, the decoder as written accepts `[0x80, 0x80, 0x80, 0x80, 0x10]` as 2^32, which is above UInt32.max. |
| LcsDeserializer.DeserializeUleb128AsU32Checked | serde-generate/runtime/swift/Serde/LcsDeserializer.swift:16-33 | With the guard bounded by both `Int.max` and UInt32.max, every accepted value fits in a UInt32 and does not exceed `Int.max`. The bytes consumed are its minimal encoding. |
| LcsDeserializer.CheckedRoundTrip | serde-generate/runtime/swift/Serde/LcsDeserializer.swift:16-30 | The checked decoder accepts the minimal encoding of every UInt32 that fits in `Int.max`, and consumes exactly that encoding. |
| LcsDeserializer.CheckedRejectsTwoToThe32 | serde-generate/runtime/swift/Serde/LcsDeserializer.swift:22-24 | The checked decoder rejects the minimal encoding of 2^32 with the overflow error at its fifth byte. |

## Left out

- `deserialize_variant_index` (lines 43-45) is left out. It only passes `reader.readInt()` through, and the width and encoding of that read are not part of this model.
- `check_that_key_slices_are_increasing` (lines 47-49) is left out. Its body is empty, so there is no behaviour to model.
- The initializer (lines 12-14) and the container-depth limit it passes are left out. Neither operation here uses them.
- The `BinaryDeserializer` base class and its reader are not part of this model. `readUInt8` is modelled as a read of the byte at the position. `readInt64` is assumed to read eight little-endian two's-complement bytes.
- The host word size is not modelled. `Int.max` is the parameter `intMax`.
- Swift's error types and message strings are reduced to the constructors of `ByteReader.Error`.
- The behaviour of `readUInt8` at the end of the input is not visible. The explicit `Truncated` error is a modelling choice.

## Findings

| source | as written | input that shows it | evidently intended | confidence | as-written member | corrected member |
|---|---|---|---|---|---|---|
| serde-generate/runtime/swift/Serde/LcsDeserializer.swift:22 | The overflow guard compares the accumulator with `Int.max`. On a 64-bit host the accumulator never exceeds 2^35 − 1, so the guard never fires. | `[0x80, 0x80, 0x80, 0x80, 0x10]` decodes to 2^32. | A decoder named `_as_u32` rejects values above UInt32.max = 2^32 − 1. | medium, not executed | LcsDeserializer.AcceptsValueAboveUInt32 | LcsDeserializer.DeserializeUleb128AsU32Checked, LcsDeserializer.CheckedRoundTrip, LcsDeserializer.CheckedRejectsTwoToThe32 |

The main model keeps the guard as written, so that every property in the
"## Model" table describes the code as it stands. `DeserializeUleb128AsU32Checked`
is the corrected decoder. It bounds the same loop by the smaller of `Int.max`
and UInt32.max, and its properties are proved from the main model's.
