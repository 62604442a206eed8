/**
 The canonical-decoding rules of the LCS (Libra Canonical Serialization)
 deserializer: the uleb128 decoder `deserialize_uleb128_as_u32`, which rejects
 every non-minimal encoding, and the container-length decoder
 `deserialize_len`, which accepts a fixed-width Int64 only in [0, Int.max].

 The host's `Int.max` is the parameter `intMax` throughout. On a 64-bit host it
 is `Int64Max`; the decoder's accumulator never exceeds 2^35 - 1, so there the
 overflow guard never fires and values up to 2^35 - 1 are accepted.
 */
module LcsDeserializer {
  import opened ByteReader
  import opened Leb128

  /** The number of digits the stride 0, 7, 14, 21, 28 of the decoding loop allows. */
  const MaxDigits: nat := 5

  // ---------------------------------------------------------------------
  // What the decoder does with the bytes from `start`, one predicate per
  // outcome, stated on the input alone
  // ---------------------------------------------------------------------

  /**
   The `n` bytes from `start` are accepted: a framed number of at most five
   bytes, without a redundant final zero digit, whose value is at most `intMax`.
   */
  predicate AcceptsAt(s: seq<byte>, start: nat, n: nat, intMax: nat) {
    && 1 <= n <= MaxDigits && start + n <= |s|
    && ContinuesAt(s, start, n - 1) && !Continues(s[start + n - 1])
    && (n == 1 || s[start + n - 1] != 0)
    && ValueAt(s, start, n) <= intMax
  }

  /** The `n` bytes from `start` are a framed number of two to five bytes that ends on the byte 0x00. */
  predicate ZeroDigitAt(s: seq<byte>, start: nat, n: nat, intMax: nat) {
    && 2 <= n <= MaxDigits && start + n <= |s|
    && ContinuesAt(s, start, n - 1) && s[start + n - 1] == 0
    && ValueAt(s, start, n) <= intMax
  }

  /**
   The `n`-th byte from `start` is the first whose digit lifts the accumulated
   value above `intMax`, and every byte before it continues.
   */
  predicate OverflowAt(s: seq<byte>, start: nat, n: nat, intMax: nat) {
    && 1 <= n <= MaxDigits && start + n <= |s|
    && ContinuesAt(s, start, n - 1)
    && ValueAt(s, start, n - 1) <= intMax < ValueAt(s, start, n)
  }

  /** The five bytes from `start` all continue, and their digits stay within `intMax`. */
  predicate TooLongAt(s: seq<byte>, start: nat, intMax: nat) {
    && start + MaxDigits <= |s|
    && ContinuesAt(s, start, MaxDigits)
    && ValueAt(s, start, MaxDigits) <= intMax
  }

  /**
   The input ends before five bytes from `start`, and every byte it has from
   there continues with digits within `intMax`.
   */
  predicate TruncatedAt(s: seq<byte>, start: nat, intMax: nat) {
    && |s| < start + MaxDigits
    && (start <= |s| ==> ContinuesAt(s, start, |s| - start) && ValueAt(s, start, |s| - start) <= intMax)
  }

  // ---------------------------------------------------------------------
  // The decoder
  // ---------------------------------------------------------------------

  /** The decoder's loop state after `digits` continuation bytes read from `start` without error. */
  ghost predicate LoopState(c: Cursor, start: nat, digits: nat, value: nat, intMax: nat) {
    && digits <= MaxDigits
    && c.pos == start + digits
    && value <= intMax
    && (digits == 0 ==> value == 0)
    && (digits > 0 ==> c.pos <= |c.input|)
    && (c.pos <= |c.input| ==>
          ContinuesAt(c.input, start, digits) && value == ValueAt(c.input, start, digits))
  }

  /**
   The decoding loop from the turn at `shift == 7 * digits` on: read a byte,
   OR its digit into the accumulator, check the accumulator against
   `intMax`, and stop on a byte without the continuation bit. The OR is
   written as an addition, which it equals because the accumulator only has
   bits below `shift` (see `OrIsAdd`). The source's `value < 0` test cannot
   hold of a sum of non-negative digits, so it is left out.
   */
  function Uleb128Loop(c: Cursor, start: nat, digits: nat, value: nat, intMax: nat): (o: Outcome<nat>)
    requires LoopState(c, start, digits, value, intMax)
    ensures o.rest.input == c.input
    ensures c.pos <= o.rest.pos <= start + MaxDigits
    ensures o.result != Err(IncorrectLength)
    decreases MaxDigits - digits
  {
    var shift := 7 * digits;
    if shift >= 32 then
      Outcome(Err(Uleb128TooLong), c)
    else
      var read := ReadUInt8(c);
      match read.result
      case Err(e) => Outcome(Err(e), read.rest)
      case Ok(x) =>
        var digit := x % 128;
        var next := value + Shifted(digit, digits);
        ByteSplit(x);
        if next > intMax then
          Outcome(Err(Uleb128Overflow), read.rest)
        else if digit == x then
          if shift > 0 && digit == 0 then Outcome(Err(UnexpectedZeroDigit), read.rest)
          else Outcome(Ok(next), read.rest)
        else
          Uleb128Loop(read.rest, start, digits + 1, next, intMax)
  }

  /**
   `deserialize_uleb128_as_u32`: decodes one uleb128 number at the reader's
   position, reading at most five bytes. On success the bytes read are a
   canonical ULEB128 number, its value is the result, and that value is below
   2^35 and at most `intMax`. Each failure names the rule the bytes broke, and
   the reader stops right after the byte that broke it.
   */
  function DeserializeUleb128AsU32(c: Cursor, intMax: nat): (o: Outcome<nat>)
    ensures o.rest.input == c.input
    ensures c.pos <= o.rest.pos <= c.pos + MaxDigits
    ensures o.result != Err(IncorrectLength)
    ensures o.result.Ok? ==>
              && c.pos < o.rest.pos <= |c.input|
              && Canonical(c.input[c.pos..o.rest.pos])
              && o.result.value == ValueOf(c.input[c.pos..o.rest.pos])
              && o.result.value <= intMax
              && o.result.value < Pow128(MaxDigits)
  {
    var loop := Uleb128Loop(c, c.pos, 0, 0, intMax);
    if loop.result.Ok? then
      LoopAccepts(c, c.pos, 0, 0, intMax);
      AcceptedWindowIsCanonical(c.input, c.pos, loop.rest.pos - c.pos, intMax);
      loop
    else
      loop
  }

  // ---------------------------------------------------------------------
  // Facts about windows
  // ---------------------------------------------------------------------

  lemma {:induction false} Pow128Monotone(i: nat, j: nat)
    requires i <= j
    ensures Pow128(i) <= Pow128(j)
    decreases j - i
  {
    if i < j {
      Pow128Monotone(i, j - 1);
    }
  }

  /** At most five digits denote a number below 2^35. */
  lemma ValueAtBound(s: seq<byte>, start: nat, n: nat)
    requires n <= MaxDigits && start + n <= |s|
    ensures ValueAt(s, start, n) < Pow128(MaxDigits)
  {
    ValueAtIsValueOf(s, start, n);
    ValueOfBound(s[start..start + n]);
    Pow128Monotone(n, MaxDigits);
  }

  /** Reading further digits never lowers the accumulator. */
  lemma {:induction false} ValueAtMonotone(s: seq<byte>, start: nat, i: nat, j: nat)
    requires i <= j && start + j <= |s|
    ensures ValueAt(s, start, i) <= ValueAt(s, start, j)
    decreases j - i
  {
    if i < j {
      ValueAtMonotone(s, start, i, j - 1);
    }
  }

  /**
   A window the decoder accepts, read as a digit string: it is canonical, it
   denotes the accumulated value, and that value is below 2^35.
   */
  lemma AcceptedWindowIsCanonical(s: seq<byte>, start: nat, n: nat, intMax: nat)
    requires AcceptsAt(s, start, n, intMax)
    ensures Canonical(s[start..start + n])
    ensures ValueAt(s, start, n) == ValueOf(s[start..start + n])
    ensures ValueAt(s, start, n) < Pow128(MaxDigits)
  {
    ValueAtIsValueOf(s, start, n);
    ContinuesAtIsAllContinue(s, start, n - 1, n);
    ValueAtBound(s, start, n);
  }

  /** Inputs that agree on a window agree on its accumulated value and continuation bits. */
  lemma {:induction false} WindowsAgree(s: seq<byte>, t: seq<byte>, start: nat, n: nat)
    requires start + n <= |s| && start + n <= |t|
    requires forall i :: start <= i < start + n ==> s[i] == t[i]
    ensures ValueAt(s, start, n) == ValueAt(t, start, n)
    ensures ContinuesAt(s, start, n) <==> ContinuesAt(t, start, n)
  {
    if n > 0 {
      WindowsAgree(s, t, start, n - 1);
    }
  }

  /**
   The `|=` of line 21 adds: the accumulator holds only bits below `shift` and
   the digit has seven bits, so OR-ing in `digit << shift` equals adding it,
   and the result stays below 2^(shift + 7), at most 2^35, so the Int64
   accumulator is never negative.
   */
  lemma OrIsAdd(value: bv64, digit: bv64, shift: bv64)
    requires shift <= 28 && digit < 128 && value < (1 as bv64) << shift
    ensures value | (digit << shift) == value + (digit << shift)
    ensures value + (digit << shift) < (1 as bv64) << (shift + 7)
  {
  }

  // ---------------------------------------------------------------------
  // The loop, one turn at a time
  // ---------------------------------------------------------------------

  /** The decoder is the loop started from its first turn. */
  lemma DecoderIsLoop(c: Cursor, intMax: nat)
    ensures LoopState(c, c.pos, 0, 0, intMax)
    ensures DeserializeUleb128AsU32(c, intMax) == Uleb128Loop(c, c.pos, 0, 0, intMax)
  {
  }

  /**
   One turn of the loop, stated in terms of the digit string: which outcome
   it ends in, or that it hands over to the next turn in a valid state.
   */
  lemma LoopTurn(c: Cursor, start: nat, digits: nat, value: nat, intMax: nat)
    requires LoopState(c, start, digits, value, intMax)
    ensures digits == MaxDigits ==> Uleb128Loop(c, start, digits, value, intMax) == Outcome(Err(Uleb128TooLong), c)
    ensures digits < MaxDigits && c.pos >= |c.input| ==>
              Uleb128Loop(c, start, digits, value, intMax) == Outcome(Err(Truncated), c)
    ensures digits < MaxDigits && c.pos < |c.input| && ValueAt(c.input, start, digits + 1) > intMax ==>
              Uleb128Loop(c, start, digits, value, intMax) == Outcome(Err(Uleb128Overflow), Cursor(c.input, c.pos + 1))
    ensures digits < MaxDigits && c.pos < |c.input| && ValueAt(c.input, start, digits + 1) <= intMax
            && !Continues(c.input[c.pos]) ==>
              var x, next := c.input[c.pos], ValueAt(c.input, start, digits + 1);
              Uleb128Loop(c, start, digits, value, intMax)
              == Outcome(if digits > 0 && x == 0 then Err(UnexpectedZeroDigit) else Ok(next), Cursor(c.input, c.pos + 1))
    ensures digits < MaxDigits && c.pos < |c.input| && ValueAt(c.input, start, digits + 1) <= intMax
            && Continues(c.input[c.pos]) ==>
              var rest, next := Cursor(c.input, c.pos + 1), ValueAt(c.input, start, digits + 1);
              && LoopState(rest, start, digits + 1, next, intMax)
              && Uleb128Loop(c, start, digits, value, intMax) == Uleb128Loop(rest, start, digits + 1, next, intMax)
  {
    if digits < MaxDigits && c.pos < |c.input| {
      ByteSplit(c.input[c.pos]);
    }
  }

  /** On success the loop has read a window the decoder accepts, and returns its value. */
  lemma {:induction false} LoopAccepts(c: Cursor, start: nat, digits: nat, value: nat, intMax: nat)
    requires LoopState(c, start, digits, value, intMax)
    requires Uleb128Loop(c, start, digits, value, intMax).result.Ok?
    ensures var o := Uleb128Loop(c, start, digits, value, intMax);
            && AcceptsAt(c.input, start, o.rest.pos - start, intMax)
            && o.result.value == ValueAt(c.input, start, o.rest.pos - start)
    decreases MaxDigits - digits
  {
    LoopTurn(c, start, digits, value, intMax);
    if Continues(c.input[c.pos]) {
      LoopAccepts(Cursor(c.input, c.pos + 1), start, digits + 1, ValueAt(c.input, start, digits + 1), intMax);
    }
  }

  /** `UnexpectedZeroDigit` from the loop means it read a window that ends on a redundant zero digit. */
  lemma {:induction false} LoopZeroDigit(c: Cursor, start: nat, digits: nat, value: nat, intMax: nat)
    requires LoopState(c, start, digits, value, intMax)
    requires Uleb128Loop(c, start, digits, value, intMax).result == Err(UnexpectedZeroDigit)
    ensures ZeroDigitAt(c.input, start, Uleb128Loop(c, start, digits, value, intMax).rest.pos - start, intMax)
    decreases MaxDigits - digits
  {
    LoopTurn(c, start, digits, value, intMax);
    if Continues(c.input[c.pos]) {
      LoopZeroDigit(Cursor(c.input, c.pos + 1), start, digits + 1, ValueAt(c.input, start, digits + 1), intMax);
    }
  }

  /** `Uleb128Overflow` from the loop means it stopped at the first byte that lifts the value above `intMax`. */
  lemma {:induction false} LoopOverflow(c: Cursor, start: nat, digits: nat, value: nat, intMax: nat)
    requires LoopState(c, start, digits, value, intMax)
    requires Uleb128Loop(c, start, digits, value, intMax).result == Err(Uleb128Overflow)
    ensures OverflowAt(c.input, start, Uleb128Loop(c, start, digits, value, intMax).rest.pos - start, intMax)
    decreases MaxDigits - digits
  {
    LoopTurn(c, start, digits, value, intMax);
    if ValueAt(c.input, start, digits + 1) <= intMax {
      LoopOverflow(Cursor(c.input, c.pos + 1), start, digits + 1, ValueAt(c.input, start, digits + 1), intMax);
    }
  }

  /** `Uleb128TooLong` from the loop means it read five continuing bytes, and no more. */
  lemma {:induction false} LoopTooLong(c: Cursor, start: nat, digits: nat, value: nat, intMax: nat)
    requires LoopState(c, start, digits, value, intMax)
    requires Uleb128Loop(c, start, digits, value, intMax).result == Err(Uleb128TooLong)
    ensures Uleb128Loop(c, start, digits, value, intMax).rest.pos == start + MaxDigits
    ensures TooLongAt(c.input, start, intMax)
    decreases MaxDigits - digits
  {
    LoopTurn(c, start, digits, value, intMax);
    if digits < MaxDigits {
      LoopTooLong(Cursor(c.input, c.pos + 1), start, digits + 1, ValueAt(c.input, start, digits + 1), intMax);
    }
  }

  /** `Truncated` from the loop means the input ended inside the number, where the reader stopped. */
  lemma {:induction false} LoopTruncated(c: Cursor, start: nat, digits: nat, value: nat, intMax: nat)
    requires LoopState(c, start, digits, value, intMax)
    requires Uleb128Loop(c, start, digits, value, intMax).result == Err(Truncated)
    ensures Uleb128Loop(c, start, digits, value, intMax).rest.pos == if start <= |c.input| then |c.input| else start
    ensures TruncatedAt(c.input, start, intMax)
    decreases MaxDigits - digits
  {
    LoopTurn(c, start, digits, value, intMax);
    if digits < MaxDigits && c.pos < |c.input| {
      LoopTruncated(Cursor(c.input, c.pos + 1), start, digits + 1, ValueAt(c.input, start, digits + 1), intMax);
    }
  }

  /**
   Over `m` continuing bytes whose digits stay within `intMax`, the loop
   neither stops nor fails: it behaves as the loop that starts after them.
   */
  lemma {:induction false} LoopSkips(c: Cursor, start: nat, digits: nat, value: nat, intMax: nat, m: nat)
    requires LoopState(c, start, digits, value, intMax)
    requires digits <= m <= MaxDigits && start + m <= |c.input|
    requires ContinuesAt(c.input, start, m) && ValueAt(c.input, start, m) <= intMax
    ensures LoopState(Cursor(c.input, start + m), start, m, ValueAt(c.input, start, m), intMax)
    ensures Uleb128Loop(c, start, digits, value, intMax)
            == Uleb128Loop(Cursor(c.input, start + m), start, m, ValueAt(c.input, start, m), intMax)
    decreases m - digits
  {
    if digits < m {
      ValueAtMonotone(c.input, start, digits + 1, m);
      ContinuesAtEach(c.input, start, m, c.pos);
      LoopTurn(c, start, digits, value, intMax);
      LoopSkips(Cursor(c.input, c.pos + 1), start, digits + 1, ValueAt(c.input, start, digits + 1), intMax, m);
    }
  }

  /**
   From any turn before the last byte of a framed window of `k` bytes whose
   value fits, the loop stops at that byte: with `UnexpectedZeroDigit` if it
   is a redundant 0x00, and with the value otherwise.
   */
  lemma {:induction false} LoopOnFramed(c: Cursor, start: nat, digits: nat, value: nat, intMax: nat, k: nat)
    requires LoopState(c, start, digits, value, intMax)
    requires digits < k <= MaxDigits && start + k <= |c.input|
    requires ContinuesAt(c.input, start, k - 1) && !Continues(c.input[start + k - 1])
    requires ValueAt(c.input, start, k) <= intMax
    ensures Uleb128Loop(c, start, digits, value, intMax)
            == Outcome(if k > 1 && c.input[start + k - 1] == 0 then Err(UnexpectedZeroDigit) else Ok(ValueAt(c.input, start, k)),
                       Cursor(c.input, start + k))
    decreases k - digits
  {
    ValueAtMonotone(c.input, start, digits + 1, k);
    LoopTurn(c, start, digits, value, intMax);
    if digits + 1 < k {
      ContinuesAtEach(c.input, start, k - 1, c.pos);
      LoopOnFramed(Cursor(c.input, c.pos + 1), start, digits + 1, ValueAt(c.input, start, digits + 1), intMax, k);
    }
  }

  /** From any turn before the `k`-th byte of a window that overflows there, the loop fails at that byte. */
  lemma {:induction false} LoopOnOverflow(c: Cursor, start: nat, digits: nat, value: nat, intMax: nat, k: nat)
    requires LoopState(c, start, digits, value, intMax)
    requires digits < k && OverflowAt(c.input, start, k, intMax)
    ensures Uleb128Loop(c, start, digits, value, intMax) == Outcome(Err(Uleb128Overflow), Cursor(c.input, start + k))
    decreases k - digits
  {
    LoopTurn(c, start, digits, value, intMax);
    if digits + 1 < k {
      ValueAtMonotone(c.input, start, digits + 1, k - 1);
      ContinuesAtEach(c.input, start, k - 1, c.pos);
      LoopOnOverflow(Cursor(c.input, c.pos + 1), start, digits + 1, ValueAt(c.input, start, digits + 1), intMax, k);
    }
  }

  /** The inputs `s` and `t`, which agree on the five bytes from `start`, take the loop through the same turns. */
  lemma {:induction false} LoopReadsAtMostFive(s: seq<byte>, t: seq<byte>, start: nat, digits: nat, value: nat, intMax: nat)
    requires start + MaxDigits <= |s| && start + MaxDigits <= |t|
    requires forall i :: start <= i < start + MaxDigits ==> s[i] == t[i]
    requires LoopState(Cursor(s, start + digits), start, digits, value, intMax)
    ensures LoopState(Cursor(t, start + digits), start, digits, value, intMax)
    ensures var o, p := Uleb128Loop(Cursor(s, start + digits), start, digits, value, intMax),
                        Uleb128Loop(Cursor(t, start + digits), start, digits, value, intMax);
            o.result == p.result && o.rest.pos == p.rest.pos
    decreases MaxDigits - digits
  {
    WindowsAgree(s, t, start, digits);
    var cs, ct := Cursor(s, start + digits), Cursor(t, start + digits);
    LoopTurn(cs, start, digits, value, intMax);
    LoopTurn(ct, start, digits, value, intMax);
    if digits < MaxDigits {
      WindowsAgree(s, t, start, digits + 1);
      var next, x := ValueAt(s, start, digits + 1), s[start + digits];
      assert x == t[start + digits];
      var after := start + digits + 1;
      if next > intMax {
        assert Uleb128Loop(cs, start, digits, value, intMax) == Outcome(Err(Uleb128Overflow), Cursor(s, after));
        assert Uleb128Loop(ct, start, digits, value, intMax) == Outcome(Err(Uleb128Overflow), Cursor(t, after));
      } else if !Continues(x) {
        var r := if digits > 0 && x == 0 then Err(UnexpectedZeroDigit) else Ok(next);
        assert Uleb128Loop(cs, start, digits, value, intMax) == Outcome(r, Cursor(s, after));
        assert Uleb128Loop(ct, start, digits, value, intMax) == Outcome(r, Cursor(t, after));
      } else {
        LoopReadsAtMostFive(s, t, start, digits + 1, next, intMax);
      }
    }
  }

  // ---------------------------------------------------------------------
  // Properties of `deserialize_uleb128_as_u32`: one if-and-only-if per outcome
  // ---------------------------------------------------------------------

  /** The decoder accepts exactly the windows `AcceptsAt` describes, returning their value. */
  lemma AcceptsIff(c: Cursor, intMax: nat, q: nat)
    ensures var o := DeserializeUleb128AsU32(c, intMax);
            o.result.Ok? && o.rest.pos == q
            <==>
            c.pos <= q && AcceptsAt(c.input, c.pos, q - c.pos, intMax)
    ensures var o := DeserializeUleb128AsU32(c, intMax);
            o.result.Ok? ==> o.result.value == ValueAt(c.input, c.pos, o.rest.pos - c.pos)
  {
    DecoderIsLoop(c, intMax);
    var o := DeserializeUleb128AsU32(c, intMax);
    if o.result.Ok? {
      LoopAccepts(c, c.pos, 0, 0, intMax);
    }
    if c.pos <= q && AcceptsAt(c.input, c.pos, q - c.pos, intMax) {
      LoopOnFramed(c, c.pos, 0, 0, intMax, q - c.pos);
    }
  }

  /** Success means the bytes consumed are exactly the minimal encoding of the result. */
  lemma DecodedBytesAreMinimalEncoding(c: Cursor, intMax: nat)
    requires DeserializeUleb128AsU32(c, intMax).result.Ok?
    ensures var o := DeserializeUleb128AsU32(c, intMax);
            && o.rest.pos == c.pos + |Encode(o.result.value)|
            && c.input[c.pos..o.rest.pos] == Encode(o.result.value)
  {
    var o := DeserializeUleb128AsU32(c, intMax);
    CanonicalIsEncode(c.input[c.pos..o.rest.pos]);
  }

  /** The minimal encoding of a `v` below 2^35, read as a window of the input, is one the decoder accepts. */
  lemma EncodingWindow(s: seq<byte>, p: nat, v: nat, intMax: nat)
    requires v < Pow128(MaxDigits) && v <= intMax
    requires p + |Encode(v)| <= |s| && s[p..p + |Encode(v)|] == Encode(v)
    ensures AcceptsAt(s, p, |Encode(v)|, intMax)
    ensures ValueAt(s, p, |Encode(v)|) == v
  {
    var e := Encode(v);
    var k := |e|;
    EncodeCanonical(v);
    EncodeLength(v, MaxDigits);
    ContinuesAtIsAllContinue(s, p, k - 1, k);
    ValueAtIsValueOf(s, p, k);
    assert s[p + k - 1] == e[k - 1];
  }

  /** The minimal encoding of any `v` below 2^35 and at most `intMax` is accepted as `v`, consuming exactly it. */
  lemma MinimalEncodingDecodes(c: Cursor, intMax: nat, v: nat)
    requires v < Pow128(MaxDigits) && v <= intMax
    requires c.pos + |Encode(v)| <= |c.input| && c.input[c.pos..c.pos + |Encode(v)|] == Encode(v)
    ensures DeserializeUleb128AsU32(c, intMax) == Outcome(Ok(v), Cursor(c.input, c.pos + |Encode(v)|))
  {
    EncodingWindow(c.input, c.pos, v, intMax);
    AcceptsIff(c, intMax, c.pos + |Encode(v)|);
  }

  /**
   Round trip and uniqueness in one: the decoder returns `v` having consumed
   the bytes up to `q` exactly when those bytes are the minimal ULEB128
   encoding of `v`, and `v` is below 2^35 and at most `intMax`.
   */
  lemma DecodeIff(c: Cursor, intMax: nat, v: nat, q: nat)
    ensures var o := DeserializeUleb128AsU32(c, intMax);
            o.result == Ok(v) && o.rest.pos == q
            <==>
            && v < Pow128(MaxDigits) && v <= intMax
            && q == c.pos + |Encode(v)| <= |c.input|
            && c.input[c.pos..q] == Encode(v)
  {
    var o := DeserializeUleb128AsU32(c, intMax);
    if o.result == Ok(v) && o.rest.pos == q {
      DecodedBytesAreMinimalEncoding(c, intMax);
    }
    if && v < Pow128(MaxDigits) && v <= intMax
       && q == c.pos + |Encode(v)| <= |c.input|
       && c.input[c.pos..q] == Encode(v)
    {
      MinimalEncodingDecodes(c, intMax, v);
    }
  }

  /** Decoding the minimal encoding of `v`, wherever it sits in the input, returns `v` and consumes exactly it. */
  lemma RoundTrip(prefix: seq<byte>, v: nat, suffix: seq<byte>, intMax: nat)
    requires v < Pow128(MaxDigits) && v <= intMax
    ensures var s := prefix + Encode(v) + suffix;
            DeserializeUleb128AsU32(Cursor(s, |prefix|), intMax)
            == Outcome(Ok(v), Cursor(s, |prefix| + |Encode(v)|))
  {
    var s := prefix + Encode(v) + suffix;
    assert s[|prefix|..|prefix| + |Encode(v)|] == Encode(v);
    MinimalEncodingDecodes(Cursor(s, |prefix|), intMax, v);
  }

  /** Two successful decodes return the same value exactly when they consumed the same bytes. */
  lemma AcceptedEncodingUnique(c: Cursor, d: Cursor, intMax: nat)
    requires DeserializeUleb128AsU32(c, intMax).result.Ok?
    requires DeserializeUleb128AsU32(d, intMax).result.Ok?
    ensures var o, p := DeserializeUleb128AsU32(c, intMax), DeserializeUleb128AsU32(d, intMax);
            o.result.value == p.result.value
            <==> c.input[c.pos..o.rest.pos] == d.input[d.pos..p.rest.pos]
  {
    var o, p := DeserializeUleb128AsU32(c, intMax), DeserializeUleb128AsU32(d, intMax);
    CanonicalUnique(c.input[c.pos..o.rest.pos], d.input[d.pos..p.rest.pos]);
  }

  /**
   `UnexpectedZeroDigit`, with the reader left at `q`, exactly when the bytes
   up to `q` are a framed number of two to five bytes ending on 0x00.
   */
  lemma ZeroDigitIff(c: Cursor, intMax: nat, q: nat)
    ensures var o := DeserializeUleb128AsU32(c, intMax);
            o.result == Err(UnexpectedZeroDigit) && o.rest.pos == q
            <==>
            c.pos <= q && ZeroDigitAt(c.input, c.pos, q - c.pos, intMax)
  {
    DecoderIsLoop(c, intMax);
    var o := DeserializeUleb128AsU32(c, intMax);
    if o.result == Err(UnexpectedZeroDigit) {
      LoopZeroDigit(c, c.pos, 0, 0, intMax);
    }
    if c.pos <= q && ZeroDigitAt(c.input, c.pos, q - c.pos, intMax) {
      ByteSplit(c.input[q - 1]);
      LoopOnFramed(c, c.pos, 0, 0, intMax, q - c.pos);
    }
  }

  /**
   `Uleb128Overflow`, with the reader left at `q`, exactly when the byte
   before `q` is the first whose digit lifts the value above `intMax`: the
   check runs after every digit, before the next byte is read.
   */
  lemma OverflowIff(c: Cursor, intMax: nat, q: nat)
    ensures var o := DeserializeUleb128AsU32(c, intMax);
            o.result == Err(Uleb128Overflow) && o.rest.pos == q
            <==>
            c.pos <= q && OverflowAt(c.input, c.pos, q - c.pos, intMax)
  {
    DecoderIsLoop(c, intMax);
    var o := DeserializeUleb128AsU32(c, intMax);
    if o.result == Err(Uleb128Overflow) {
      LoopOverflow(c, c.pos, 0, 0, intMax);
    }
    if c.pos <= q && OverflowAt(c.input, c.pos, q - c.pos, intMax) {
      LoopOnOverflow(c, c.pos, 0, 0, intMax, q - c.pos);
    }
  }

  /** `Uleb128TooLong` exactly when five continuing bytes fit within `intMax`; the reader is then past all five. */
  lemma TooLongIff(c: Cursor, intMax: nat)
    ensures var o := DeserializeUleb128AsU32(c, intMax);
            o.result == Err(Uleb128TooLong) <==> TooLongAt(c.input, c.pos, intMax)
    ensures var o := DeserializeUleb128AsU32(c, intMax);
            o.result == Err(Uleb128TooLong) ==> o.rest.pos == c.pos + MaxDigits
  {
    DecoderIsLoop(c, intMax);
    var o := DeserializeUleb128AsU32(c, intMax);
    if o.result == Err(Uleb128TooLong) {
      LoopTooLong(c, c.pos, 0, 0, intMax);
    }
    if TooLongAt(c.input, c.pos, intMax) {
      LoopSkips(c, c.pos, 0, 0, intMax, MaxDigits);
      LoopTurn(Cursor(c.input, c.pos + MaxDigits), c.pos, MaxDigits, ValueAt(c.input, c.pos, MaxDigits), intMax);
    }
  }

  /**
   `Truncated` exactly when the input ends inside a run of fewer than five
   continuing bytes within `intMax`; the reader then stands at the input's end.
   */
  lemma TruncatedIff(c: Cursor, intMax: nat)
    ensures var o := DeserializeUleb128AsU32(c, intMax);
            o.result == Err(Truncated) <==> TruncatedAt(c.input, c.pos, intMax)
    ensures var o := DeserializeUleb128AsU32(c, intMax);
            o.result == Err(Truncated) ==> o.rest.pos == if c.pos <= |c.input| then |c.input| else c.pos
  {
    DecoderIsLoop(c, intMax);
    var o := DeserializeUleb128AsU32(c, intMax);
    if o.result == Err(Truncated) {
      LoopTruncated(c, c.pos, 0, 0, intMax);
    }
    if TruncatedAt(c.input, c.pos, intMax) {
      if c.pos <= |c.input| {
        var n := |c.input| - c.pos;
        LoopSkips(c, c.pos, 0, 0, intMax, n);
        LoopTurn(Cursor(c.input, c.pos + n), c.pos, n, ValueAt(c.input, c.pos, n), intMax);
      } else {
        LoopTurn(c, c.pos, 0, 0, intMax);
      }
    }
  }

  /** When `Int.max` is at least 2^35 - 1, as on every 64-bit host, the overflow guard never fires. */
  lemma NoOverflowOnWideHost(c: Cursor, intMax: nat)
    requires Pow128(MaxDigits) - 1 <= intMax
    ensures DeserializeUleb128AsU32(c, intMax).result != Err(Uleb128Overflow)
  {
    var o := DeserializeUleb128AsU32(c, intMax);
    if o.result == Err(Uleb128Overflow) {
      OverflowIff(c, intMax, o.rest.pos);
      ValueAtBound(c.input, c.pos, o.rest.pos - c.pos);
    }
  }

  /** The decoder reads no byte past the fifth: inputs that agree on those five decode alike. */
  lemma ReadsAtMostFive(s: seq<byte>, t: seq<byte>, p: nat, intMax: nat)
    requires p + MaxDigits <= |s| && p + MaxDigits <= |t|
    requires s[p..p + MaxDigits] == t[p..p + MaxDigits]
    ensures var o, o' := DeserializeUleb128AsU32(Cursor(s, p), intMax), DeserializeUleb128AsU32(Cursor(t, p), intMax);
            o.result == o'.result && o.rest.pos == o'.rest.pos
  {
    forall i | p <= i < p + MaxDigits
      ensures s[i] == t[i]
    {
      assert s[i] == s[p..p + MaxDigits][i - p];
    }
    LoopReadsAtMostFive(s, t, p, 0, 0, intMax);
  }

  /** The canonical single byte `[0x00]` decodes to 0. */
  lemma ZeroByteDecodesToZero(intMax: nat)
    ensures DeserializeUleb128AsU32(Cursor([0x00], 0), intMax)
            == Outcome(Ok(0), Cursor([0x00], 1))
  {
    AcceptsIff(Cursor([0x00], 0), intMax, 1);
  }

  /** `[0x80, 0x00]`, whose second byte only repeats zero, is rejected. */
  lemma PaddedZeroRejected(intMax: nat)
    ensures DeserializeUleb128AsU32(Cursor([0x80, 0x00], 0), intMax)
            == Outcome(Err(UnexpectedZeroDigit), Cursor([0x80, 0x00], 2))
  {
    var s: seq<byte> := [0x80, 0x00];
    assert ValueAt(s, 0, 2) == 0;
    ZeroDigitIff(Cursor(s, 0), intMax, 2);
  }

  /** `[0xFF, 0xFF, 0xFF, 0xFF, 0xFF, 0x0F]` fails after five bytes, before the sixth is read. */
  lemma SixByteInputRejected()
    ensures var s: seq<byte> := [0xFF, 0xFF, 0xFF, 0xFF, 0xFF, 0x0F];
            DeserializeUleb128AsU32(Cursor(s, 0), Int64Max)
            == Outcome(Err(Uleb128TooLong), Cursor(s, 5))
  {
    var s: seq<byte> := [0xFF, 0xFF, 0xFF, 0xFF, 0xFF, 0x0F];
    ValueAtBound(s, 0, MaxDigits);
    TooLongIff(Cursor(s, 0), Int64Max);
  }

  // ---------------------------------------------------------------------
  // The 32-bit bound the decoder's name promises
  // ---------------------------------------------------------------------

  const UInt32Max: nat := 0xFFFF_FFFF

  /**
   As written, on a 64-bit host the decoder accepts `[0x80, 0x80, 0x80, 0x80,
   0x10]` as 2^32, a value no UInt32 can hold.
   */
  lemma AcceptsValueAboveUInt32()
    ensures var s: seq<byte> := [0x80, 0x80, 0x80, 0x80, 0x10];
            && DeserializeUleb128AsU32(Cursor(s, 0), Int64Max) == Outcome(Ok(0x1_0000_0000), Cursor(s, 5))
            && 0x1_0000_0000 > UInt32Max
  {
    var s: seq<byte> := [0x80, 0x80, 0x80, 0x80, 0x10];
    assert ValueAt(s, 0, 5) == 0x1_0000_0000;
    AcceptsIff(Cursor(s, 0), Int64Max, 5);
  }

  /**
   The decoder with the bound its name promises: the overflow guard compares
   against the smaller of `Int.max` and UInt32.max, so every value it
   returns fits in a UInt32.
   */
  function DeserializeUleb128AsU32Checked(c: Cursor, intMax: nat): (o: Outcome<nat>)
    ensures o.result.Ok? ==>
              && o.result.value <= UInt32Max
              && o.result.value <= intMax
              && c.pos < o.rest.pos <= |c.input|
              && c.input[c.pos..o.rest.pos] == Encode(o.result.value)
  {
    var bound := if intMax < UInt32Max then intMax else UInt32Max;
    var decoded := DeserializeUleb128AsU32(c, bound);
    if decoded.result.Ok? then
      DecodedBytesAreMinimalEncoding(c, bound);
      decoded
    else
      decoded
  }

  /** The checked decoder accepts the minimal encoding of every UInt32 that fits in `Int.max`. */
  lemma CheckedRoundTrip(c: Cursor, intMax: nat, v: nat)
    requires v <= UInt32Max && v <= intMax
    requires c.pos + |Encode(v)| <= |c.input| && c.input[c.pos..c.pos + |Encode(v)|] == Encode(v)
    ensures DeserializeUleb128AsU32Checked(c, intMax) == Outcome(Ok(v), Cursor(c.input, c.pos + |Encode(v)|))
  {
    var bound := if intMax < UInt32Max then intMax else UInt32Max;
    assert Pow128(MaxDigits) == 0x8_0000_0000;
    MinimalEncodingDecodes(c, bound, v);
  }

  /** The checked decoder rejects `[0x80, 0x80, 0x80, 0x80, 0x10]`, the minimal encoding of 2^32, at its fifth byte. */
  lemma CheckedRejectsTwoToThe32()
    ensures var s: seq<byte> := [0x80, 0x80, 0x80, 0x80, 0x10];
            DeserializeUleb128AsU32Checked(Cursor(s, 0), Int64Max)
            == Outcome(Err(Uleb128Overflow), Cursor(s, 5))
  {
    var s: seq<byte> := [0x80, 0x80, 0x80, 0x80, 0x10];
    assert Pow128(4) == 0x1000_0000;
    assert ValueAt(s, 0, 4) == 0 && ValueAt(s, 0, 5) == 0x1_0000_0000;
    OverflowIff(Cursor(s, 0), UInt32Max, 5);
  }

  /**
   `deserialize_len`: reads one Int64 and accepts it exactly when it lies in
   [0, intMax]. It consumes the eight bytes of that Int64 whether it accepts
   them or not.
   */
  function DeserializeLen(c: Cursor, intMax: nat): (o: Outcome<int>)
    ensures o.rest.input == c.input
    ensures c.pos + 8 <= |c.input| ==> o.rest.pos == c.pos + 8
    ensures c.pos + 8 > |c.input| ==> o == Outcome(Err(Truncated), c)
    ensures o.result.Ok? ==>
              && 0 <= o.result.value <= intMax
              && o.result.value <= Int64Max
              && c.input[c.pos..c.pos + 8] == EncodeInt64(o.result.value)
    ensures o.result.Err? ==> o.result.error == Truncated || o.result.error == IncorrectLength
  {
    var read := ReadInt64(c);
    match read.result
    case Err(e) => Outcome(Err(e), read.rest)
    case Ok(value) =>
      Int64RoundTrip(c.input[c.pos..c.pos + 8], value);
      if value < 0 || value > intMax then Outcome(Err(IncorrectLength), read.rest)
      else Outcome(Ok(value), read.rest)
  }

  /**
   Both directions of the length check: on eight bytes encoding the Int64 `v`,
   `deserialize_len` returns `v` when 0 <= v <= intMax and fails with
   `IncorrectLength` otherwise, consuming the eight bytes either way.
   */
  lemma LenDecision(c: Cursor, intMax: nat, v: int)
    requires Int64Min <= v <= Int64Max
    requires c.pos + 8 <= |c.input| && c.input[c.pos..c.pos + 8] == EncodeInt64(v)
    ensures DeserializeLen(c, intMax)
            == if 0 <= v <= intMax then Outcome(Ok(v), Cursor(c.input, c.pos + 8))
               else Outcome(Err(IncorrectLength), Cursor(c.input, c.pos + 8))
  {
    Int64RoundTrip(c.input[c.pos..c.pos + 8], v);
  }

  /** Encoding a length and decoding it gives it back, wherever it sits in the input. */
  lemma LenRoundTrip(prefix: seq<byte>, v: int, suffix: seq<byte>, intMax: nat)
    requires 0 <= v <= intMax && v <= Int64Max
    ensures var s := prefix + EncodeInt64(v) + suffix;
            DeserializeLen(Cursor(s, |prefix|), intMax) == Outcome(Ok(v), Cursor(s, |prefix| + 8))
  {
    var s := prefix + EncodeInt64(v) + suffix;
    assert s[|prefix|..|prefix| + 8] == EncodeInt64(v);
    LenDecision(Cursor(s, |prefix|), intMax, v);
  }

  /** Eight 0xFF bytes, the Int64 -1, are an incorrect length. */
  lemma MinusOneLengthRejected(intMax: nat)
    ensures var s: seq<byte> := [0xFF, 0xFF, 0xFF, 0xFF, 0xFF, 0xFF, 0xFF, 0xFF];
            DeserializeLen(Cursor(s, 0), intMax) == Outcome(Err(IncorrectLength), Cursor(s, 8))
  {
    var s: seq<byte> := [0xFF, 0xFF, 0xFF, 0xFF, 0xFF, 0xFF, 0xFF, 0xFF];
    assert LeValue(s) == UInt64Range - 1;
    assert s[0..8] == s;
  }
}
