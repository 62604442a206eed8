/**
 The reader the LCS deserializer inherits from its binary-deserializer base
 class, modelled as an immutable byte sequence plus a read position. Reads
 never move the position backward; a read that finds too few bytes fails with
 `Truncated` and leaves the position where it was.

 Every decoding step returns an `Outcome`: its result together with the reader
 it leaves behind, on failure as well as on success, so that the number of
 bytes an operation consumes can be stated whatever it returns.
 */
module ByteReader {

  type byte = b: int | 0 <= b < 256

  /** The failures the deserializer can raise. */
  datatype Error =
    | Truncated            // the input ended before a read could complete
    | Uleb128Overflow      // the uleb128 accumulator exceeded the host's Int.max
    | UnexpectedZeroDigit  // a uleb128 number ended on a redundant zero digit
    | Uleb128TooLong       // five uleb128 bytes all carried the continuation bit
    | IncorrectLength      // a container length was negative or above Int.max

  datatype Result<+T> = Ok(value: T) | Err(error: Error)

  /** A read position in an input that never changes. */
  datatype Cursor = Cursor(input: seq<byte>, pos: nat)

  /** The result of a read and the reader after it. */
  datatype Outcome<+T> = Outcome(result: Result<T>, rest: Cursor)

  const Int64Min: int := -0x8000_0000_0000_0000
  const Int64Max: int := 0x7FFF_FFFF_FFFF_FFFF
  const UInt64Range: int := 0x1_0000_0000_0000_0000

  /** Reads one byte and advances by one. */
  function ReadUInt8(c: Cursor): Outcome<byte> {
    if c.pos < |c.input| then Outcome(Ok(c.input[c.pos]), Cursor(c.input, c.pos + 1))
    else Outcome(Err(Truncated), c)
  }

  function Pow256(n: nat): (p: nat)
    ensures p >= 1
  {
    if n == 0 then 1 else 256 * Pow256(n - 1)
  }

  /** The unsigned value of a little-endian byte string. */
  function LeValue(bs: seq<byte>): nat {
    if |bs| == 0 then 0 else bs[0] + 256 * LeValue(bs[1..])
  }

  /** The `n` low-order bytes of `u`, least significant first. */
  function LeBytes(u: nat, n: nat): (bs: seq<byte>)
    ensures |bs| == n
  {
    if n == 0 then [] else [(u % 256) as byte] + LeBytes(u / 256, n - 1)
  }

  /** The two's-complement reading of eight little-endian bytes. */
  function Int64Of(bs: seq<byte>): (v: int)
    requires |bs| == 8
    ensures Int64Min <= v <= Int64Max
  {
    var u := LeValue(bs);
    LeValueBound(bs);
    assert Pow256(8) == UInt64Range;
    if u > Int64Max then u - UInt64Range else u
  }

  /** The eight-byte little-endian two's-complement encoding of an Int64. */
  function EncodeInt64(v: int): (bs: seq<byte>)
    requires Int64Min <= v <= Int64Max
    ensures |bs| == 8
  {
    LeBytes(if v < 0 then v + UInt64Range else v, 8)
  }

  /** Reads a fixed-width signed 64-bit little-endian integer and advances by eight. */
  function ReadInt64(c: Cursor): Outcome<int> {
    if c.pos + 8 <= |c.input| then
      Outcome(Ok(Int64Of(c.input[c.pos..c.pos + 8])), Cursor(c.input, c.pos + 8))
    else
      Outcome(Err(Truncated), c)
  }

  /** Converting a number below 256 to a byte and back is the identity. */
  lemma ByteOfNat(r: nat)
    requires r < 256
    ensures (r as byte) == r
  {
  }

  lemma DivModUnique(u: nat, q: nat, r: nat)
    requires u == 256 * q + r && r < 256
    ensures u / 256 == q && u % 256 == r
  {
  }

  lemma DivBelow(u: nat, p: nat)
    requires u < 256 * p
    ensures u / 256 < p
  {
  }

  lemma {:induction false} LeValueBound(bs: seq<byte>)
    ensures LeValue(bs) < Pow256(|bs|)
  {
    if |bs| > 0 {
      LeValueBound(bs[1..]);
    }
  }

  /** Reading back `n` little-endian bytes recovers any value that fits in them. */
  lemma {:induction false} LeValueOfLeBytes(u: nat, n: nat)
    requires u < Pow256(n)
    ensures LeValue(LeBytes(u, n)) == u
  {
    if n > 0 {
      var bs := LeBytes(u, n);
      var q, r := u / 256, u % 256;
      assert u == 256 * q + r;
      DivBelow(u, Pow256(n - 1));
      ByteOfNat(r);
      assert bs[0] == r;
      assert bs[1..] == LeBytes(q, n - 1);
      LeValueOfLeBytes(q, n - 1);
    }
  }

  /** Re-encoding the value of a byte string reproduces the string. */
  lemma {:induction false} LeBytesOfLeValue(bs: seq<byte>)
    ensures LeBytes(LeValue(bs), |bs|) == bs
  {
    if |bs| > 0 {
      var u, b, w := LeValue(bs), bs[0], LeValue(bs[1..]);
      assert u == b + 256 * w && b < 256;
      DivModUnique(u, w, b);
      ByteOfNat(b);
      LeBytesOfLeValue(bs[1..]);
      assert LeBytes(u, |bs|) == [b as byte] + LeBytes(w, |bs| - 1);
    }
  }

  /** Eight bytes are the encoding of exactly one Int64, namely the one they read as. */
  lemma Int64RoundTrip(bs: seq<byte>, v: int)
    requires |bs| == 8 && Int64Min <= v <= Int64Max
    ensures Int64Min <= Int64Of(bs) <= Int64Max
    ensures Int64Of(bs) == v <==> bs == EncodeInt64(v)
  {
    LeValueBound(bs);
    assert Pow256(8) == UInt64Range;
    LeBytesOfLeValue(bs);
    var u := if v < 0 then v + UInt64Range else v;
    LeValueOfLeBytes(u, 8);
  }
}
