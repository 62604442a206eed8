/**
 Unsigned LEB128 ("ULEB128") as a reference definition, independent of any
 decoder: a number is written as base-128 digits, least significant first, one
 digit in the low seven bits of each byte, with the high bit set on every byte
 but the last. `Encode` produces the shortest such string, and `Canonical`
 characterises exactly the strings it produces.
 */
module Leb128 {
  import opened ByteReader

  /** The 7-bit digit a byte carries. */
  function Digit(b: byte): nat {
    b % 128
  }

  /** Whether a byte's high (continuation) bit is set. */
  predicate Continues(b: byte) {
    b >= 128
  }

  /** 128 to the power `i`: the weight of the `i`-th digit, `1 << (7 * i)`. */
  function Pow128(i: nat): (p: nat)
    ensures p >= 1
  {
    if i == 0 then 1 else 128 * Pow128(i - 1)
  }

  /** `d << (7 * k)`: the digit `d` placed at weight 128^k. */
  function Shifted(d: nat, k: nat): nat {
    if k == 0 then d else 128 * Shifted(d, k - 1)
  }

  /** The number a digit string denotes, least significant digit first. */
  function ValueOf(bs: seq<byte>): nat {
    if |bs| == 0 then 0 else Digit(bs[0]) + 128 * ValueOf(bs[1..])
  }

  /** Every byte before index `n` carries the continuation bit. */
  predicate AllContinue(bs: seq<byte>, n: nat)
    requires n <= |bs|
  {
    forall i :: 0 <= i < n ==> Continues(bs[i])
  }

  /**
   The value of the `n` digits `s[start..start + n]`, accumulated the way a
   decoder reads them: each new digit enters at the next weight.
   */
  function ValueAt(s: seq<byte>, start: nat, n: nat): nat
    requires start + n <= |s|
  {
    if n == 0 then 0 else ValueAt(s, start, n - 1) + Shifted(Digit(s[start + n - 1]), n - 1)
  }

  /** Every byte of `s[start..start + n]` carries the continuation bit. */
  predicate ContinuesAt(s: seq<byte>, start: nat, n: nat)
    requires start + n <= |s|
  {
    n == 0 || (ContinuesAt(s, start, n - 1) && Continues(s[start + n - 1]))
  }

  /** A complete ULEB128 number: only its last byte lacks the continuation bit. */
  predicate Framed(bs: seq<byte>) {
    |bs| >= 1 && AllContinue(bs, |bs| - 1) && !Continues(bs[|bs| - 1])
  }

  /** A framed number with no redundant final zero digit. */
  predicate Canonical(bs: seq<byte>) {
    Framed(bs) && (|bs| == 1 || bs[|bs| - 1] != 0)
  }

  /** The minimal ULEB128 encoding of `v`. */
  function Encode(v: nat): (bs: seq<byte>)
    decreases v
  {
    if v < 128 then [v as byte]
    else [(v % 128 + 128) as byte] + Encode(v / 128)
  }

  /** A byte is its digit, plus 128 when it continues. */
  lemma ByteSplit(b: byte)
    ensures b == Digit(b) + (if Continues(b) then 128 else 0)
    ensures Digit(b) < 128
    ensures b == 0 <==> Digit(b) == 0 && !Continues(b)
  {
  }

  /** The byte built from digit `d`, with or without the continuation bit. */
  lemma ByteOfDigit(d: nat, more: bool)
    requires d < 128
    ensures Digit((d + if more then 128 else 0) as byte) == d
    ensures Continues((d + if more then 128 else 0) as byte) == more
  {
  }

  /** Appending a digit adds it at the next weight: the accumulator step `value |= digit << shift`. */
  lemma {:induction false} ValueOfSnoc(bs: seq<byte>, b: byte)
    ensures ValueOf(bs + [b]) == ValueOf(bs) + Shifted(Digit(b), |bs|)
  {
    if |bs| > 0 {
      assert (bs + [b])[0] == bs[0] && (bs + [b])[1..] == bs[1..] + [b];
      ValueOfSnoc(bs[1..], b);
    }
  }

  /** Appending a byte keeps the continuation bits already there. */
  lemma ExtendContinues(bs: seq<byte>, x: byte)
    ensures AllContinue(bs + [x], |bs|) <==> AllContinue(bs, |bs|)
    ensures AllContinue(bs + [x], |bs| + 1) <==> AllContinue(bs, |bs|) && Continues(x)
    ensures Framed(bs + [x]) <==> AllContinue(bs, |bs|) && !Continues(x)
  {
    var ext := bs + [x];
    assert forall i | 0 <= i < |bs| :: ext[i] == bs[i];
    assert ext[|bs|] == x;
  }

  /** The accumulated value of a window is the value of the digit string it holds. */
  lemma {:induction false} ValueAtIsValueOf(s: seq<byte>, start: nat, n: nat)
    requires start + n <= |s|
    ensures ValueAt(s, start, n) == ValueOf(s[start..start + n])
  {
    if n > 0 {
      ValueAtIsValueOf(s, start, n - 1);
      assert s[start..start + n] == s[start..start + n - 1] + [s[start + n - 1]];
      ValueOfSnoc(s[start..start + n - 1], s[start + n - 1]);
    }
  }

  /** Each byte of a continuing window carries the continuation bit. */
  lemma {:induction false} ContinuesAtEach(s: seq<byte>, start: nat, n: nat, i: nat)
    requires start + n <= |s| && ContinuesAt(s, start, n)
    requires start <= i < start + n
    ensures Continues(s[i])
  {
    if i < start + n - 1 {
      ContinuesAtEach(s, start, n - 1, i);
    }
  }

  /** The window and slice forms of the continuation test agree. */
  lemma {:induction false} ContinuesAtIsAllContinue(s: seq<byte>, start: nat, n: nat, m: nat)
    requires n <= m && start + m <= |s|
    ensures ContinuesAt(s, start, n) <==> AllContinue(s[start..start + m], n)
  {
    if n > 0 {
      ContinuesAtIsAllContinue(s, start, n - 1, m);
      var w := s[start..start + m];
      assert w[n - 1] == s[start + n - 1];
    }
  }

  /** A continuation byte in front of a framed number, and only that, gives a framed number. */
  lemma ConsFramed(b: byte, bs: seq<byte>)
    requires |bs| >= 1
    ensures Framed([b] + bs) <==> Continues(b) && Framed(bs)
  {
    var ext := [b] + bs;
    assert forall i | 0 <= i < |bs| :: ext[i + 1] == bs[i];
    assert ext[0] == b && ext[|ext| - 1] == bs[|bs| - 1];
    if Framed(ext) {
      forall i | 0 <= i < |bs| - 1
        ensures Continues(bs[i])
      {
        assert bs[i] == ext[i + 1];
      }
    }
    if Continues(b) && Framed(bs) {
      forall i | 0 <= i < |ext| - 1
        ensures Continues(ext[i])
      {
        if i > 0 {
          assert ext[i] == bs[i - 1];
        }
      }
    }
  }

  /** `n` digits denote a number below 128^n. */
  lemma {:induction false} ValueOfBound(bs: seq<byte>)
    ensures ValueOf(bs) < Pow128(|bs|)
  {
    if |bs| > 0 {
      ValueOfBound(bs[1..]);
      ByteSplit(bs[0]);
    }
  }

  /** A longer prefix never denotes a smaller number. */
  lemma {:induction false} ValueOfPrefixMonotone(bs: seq<byte>, i: nat, j: nat)
    requires i <= j <= |bs|
    ensures ValueOf(bs[..i]) <= ValueOf(bs[..j])
    decreases j - i
  {
    if i < j {
      assert bs[..i + 1] == bs[..i] + [bs[i]];
      ValueOfSnoc(bs[..i], bs[i]);
      ValueOfPrefixMonotone(bs, i + 1, j);
    }
  }

  /** A number whose final digit is not zero is at least that digit's weight. */
  lemma {:induction false} ValueOfLowerBound(bs: seq<byte>)
    requires |bs| >= 1 && Digit(bs[|bs| - 1]) != 0
    ensures ValueOf(bs) >= Pow128(|bs| - 1)
  {
    var n := |bs| - 1;
    assert bs == bs[..n] + [bs[n]];
    ValueOfSnoc(bs[..n], bs[n]);
    ShiftedAtLeast(Digit(bs[n]), n);
  }

  /** A non-zero digit at weight 128^k is at least 128^k. */
  lemma {:induction false} ShiftedAtLeast(d: nat, k: nat)
    requires d >= 1
    ensures Shifted(d, k) >= Pow128(k)
  {
    if k > 0 {
      ShiftedAtLeast(d, k - 1);
    }
  }

  /** The encoder's output is canonical and denotes its input. */
  lemma {:induction false} EncodeCanonical(v: nat)
    ensures Canonical(Encode(v))
    ensures ValueOf(Encode(v)) == v
    decreases v
  {
    if v < 128 {
      ByteOfDigit(v, false);
      ByteSplit(v as byte);
    } else {
      var d, w := v % 128, v / 128;
      ByteOfDigit(d, true);
      EncodeCanonical(w);
      ConsFramed((d + 128) as byte, Encode(w));
    }
  }

  /** The minimal encoding of `v` has at most `n` bytes exactly when v < 128^n. */
  lemma {:induction false} EncodeLength(v: nat, n: nat)
    requires n >= 1
    ensures |Encode(v)| <= n <==> v < Pow128(n)
    decreases v
  {
    if v >= 128 {
      if n == 1 {
        assert |Encode(v)| >= 2;
      } else {
        EncodeLength(v / 128, n - 1);
      }
    }
  }

  /** Every canonical string is the encoder's output for the number it denotes. */
  lemma {:induction false} CanonicalIsEncode(bs: seq<byte>)
    requires Canonical(bs)
    ensures bs == Encode(ValueOf(bs))
  {
    ByteSplit(bs[0]);
    if |bs| > 1 {
      var tail := bs[1..];
      assert bs == [bs[0]] + tail;
      ConsFramed(bs[0], tail);
      assert Canonical(tail);
      CanonicalIsEncode(tail);
      ByteSplit(bs[|bs| - 1]);
      ValueOfLowerBound(tail);
      var d, w := Digit(bs[0]), ValueOf(tail);
      assert ValueOf(bs) == d + 128 * w;
      assert ValueOf(bs) / 128 == w && ValueOf(bs) % 128 == d;
      assert bs[0] == (d + 128) as byte;
    } else {
      assert bs[0] == Digit(bs[0]) as byte;
    }
  }

  /** No framed string denoting `v` is shorter than its minimal encoding. */
  lemma {:induction false} EncodeIsShortest(bs: seq<byte>)
    requires Framed(bs)
    ensures |Encode(ValueOf(bs))| <= |bs|
  {
    ByteSplit(bs[0]);
    var v := ValueOf(bs);
    if |bs| > 1 && v >= 128 {
      var tail := bs[1..];
      assert bs == [bs[0]] + tail;
      ConsFramed(bs[0], tail);
      EncodeIsShortest(tail);
      assert v / 128 == ValueOf(tail);
    }
  }

  /** Two canonical strings that denote the same number are the same string. */
  lemma CanonicalUnique(a: seq<byte>, b: seq<byte>)
    requires Canonical(a) && Canonical(b)
    ensures ValueOf(a) == ValueOf(b) <==> a == b
  {
    CanonicalIsEncode(a);
    CanonicalIsEncode(b);
  }
}
