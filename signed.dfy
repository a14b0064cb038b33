/**
 * Signed (two's-complement) LEB128 as pure definitions: the reference
 * encoding of an integer, sign extension, the decoding a decoder capped at
 * some number of groups computes, and what is proved about them.
 */
module Signed {
  import opened Groups

  /** At most this many groups are read by DecodeSLeb128 and ReadSLeb128. */
  const SignedCap := 5

  /** A measure that an arithmetic shift right by 7 bits decreases. */
  function Magnitude(v: int): nat
  {
    if v >= 0 then v else -v - 1
  }

  /** v is representable as one 7-bit two's-complement group. */
  predicate FitsGroup(v: int)
  {
    -0x40 <= v < 0x40
  }

  /**
   * The signed encoding of v: the low 7 bits of v, then of v >> 7, and so on,
   * stopping at the first group whose own sign (bit 6) already extends to
   * the whole remaining value.
   */
  function SignedEncoding(v: int): (e: seq<Byte>)
    ensures |e| >= 1
    decreases Magnitude(v)
  {
    if FitsGroup(v) then [v % 0x80]
    else [v % 0x80 + Continuation] + SignedEncoding(v / 0x80)
  }

  /** 2^(7n-1), the weight of bit 6 of group n-1: the sign bit of n groups. */
  function SignWeight(n: nat): int
    requires n >= 1
  {
    0x40 * Pow128(n - 1)
  }

  /** u read as an n-group two's-complement number. */
  function SignExtend(u: nat, n: nat): (r: int)
    requires n >= 1
    ensures u < Pow128(n) ==> InSignedRange(r, n)
  {
    if u >= SignWeight(n) then u - Pow128(n) else u
  }

  /** x wrapped to Go's int64. */
  function ToInt64(x: int): I64
  {
    (x - MinInt64) % TwoTo64 + MinInt64
  }

  /**
   * The value a decoder capped at cap groups computes from the start of s:
   * the groups it reads, sign-extended from the top bit of the last group,
   * wrapped to int64.
   */
  function SignedDecoding(s: seq<Byte>, cap: nat): I64
    requires cap >= 1 && Extent(s, 0, cap).Some?
  {
    var n := Extent(s, 0, cap).value;
    ExtentBounds(s, 0, cap);
    ToInt64(SignExtend(GroupsValue(s[..n]), n))
  }

  /** An n-group two's-complement number lies in [-2^(7n-1), 2^(7n-1)). */
  predicate InSignedRange(v: int, n: nat)
    requires n >= 1
  {
    -SignWeight(n) <= v < SignWeight(n)
  }

  /** Every byte of the encoding but the last carries the continuation flag. */
  lemma {:induction false} SignedEncodingTerminated(v: int)
    ensures Terminated(SignedEncoding(v))
    decreases Magnitude(v)
  {
    if !FitsGroup(v) {
      SignedEncodingTerminated(v / 0x80);
    }
  }

  /** Bit 6 of the last byte is set exactly when v is negative. */
  lemma {:induction false} SignedEncodingSignBit(v: int)
    ensures var e := SignedEncoding(v); e[|e| - 1] / 0x40 == if v < 0 then 1 else 0
    decreases Magnitude(v)
  {
    if !FitsGroup(v) {
      SignedEncodingSignBit(v / 0x80);
      var e := SignedEncoding(v);
      assert e[|e| - 1] == SignedEncoding(v / 0x80)[|e| - 2];
    }
  }

  /** The first k bytes of the encoding hold v modulo 128^k. */
  lemma {:induction false} SignedEncodingPrefix(v: int, k: nat)
    requires k <= |SignedEncoding(v)|
    ensures GroupsValue(SignedEncoding(v)[..k]) == v % Pow128(k)
    decreases Magnitude(v)
  {
    var e := SignedEncoding(v);
    if k > 0 {
      if FitsGroup(v) {
        assert e[..k] == [v % 0x80];
      } else {
        var w, p, t := v / 0x80, Pow128(k - 1), SignedEncoding(v / 0x80);
        var b: Byte := v % 0x80 + Continuation;
        assert e[..k] == [b] + t[..k - 1];
        GroupsValueCons(b, t[..k - 1]);
        DivUnique(b, 0x80, 1, v % 0x80);
        SignedEncodingPrefix(w, k - 1);
        ModMod128(v, p);
      }
    }
  }

  /**
   * The encoding has minimal length: n bytes where n is the least n >= 1 with
   * v in [-2^(7n-1), 2^(7n-1)).
   */
  lemma {:induction false} SignedEncodingLength(v: int)
    ensures InSignedRange(v, |SignedEncoding(v)|)
    ensures |SignedEncoding(v)| > 1 ==> !InSignedRange(v, |SignedEncoding(v)| - 1)
    decreases Magnitude(v)
  {
    if !FitsGroup(v) {
      var w := v / 0x80;
      SignedEncodingLength(w);
      var n := |SignedEncoding(w)|;
      assert v == 0x80 * w + v % 0x80;
      assert SignWeight(n + 1) == 0x80 * SignWeight(n);
      if n > 1 {
        assert SignWeight(n) == 0x80 * SignWeight(n - 1);
      }
    }
  }

  /** No value has an encoding longer than the least n whose range holds it. */
  lemma SignedEncodingShortest(v: int, n: nat)
    requires n >= 1 && InSignedRange(v, n)
    ensures |SignedEncoding(v)| <= n
  {
    SignedEncodingLength(v);
    var len := |SignedEncoding(v)|;
    if len > 1 {
      Pow128Monotonic(n - 1, len - 2);
    }
  }

  /** An int64 never takes more than 10 bytes. */
  lemma SignedEncodingAtMostTen(v: I64)
    ensures |SignedEncoding(v)| <= WideCap
  {
    Pow128Constants();
    SignedEncodingShortest(v, WideCap);
  }

  /** Sign extension undoes the reduction of an in-range v modulo 128^n. */
  lemma SignExtendOfResidue(v: int, n: nat)
    requires n >= 1 && InSignedRange(v, n)
    ensures SignExtend(v % Pow128(n), n) == v
  {
    var p := Pow128(n);
    assert p == 2 * SignWeight(n);
    if v >= 0 {
      DivUnique(v, p, 0, v);
    } else {
      DivUnique(v, p, -1, v + p);
    }
  }

  /** Bytes after the ones the decoder consumes do not change its result. */
  lemma SignedDecodingIgnoresTail(s: seq<Byte>, t: seq<Byte>, cap: nat)
    requires cap >= 1 && Extent(s, 0, cap).Some?
    ensures Extent(s + t, 0, cap) == Extent(s, 0, cap)
    ensures SignedDecoding(s + t, cap) == SignedDecoding(s, cap)
  {
    ExtentAppend(s, t, 0, cap);
    var n := Extent(s, 0, cap).value;
    assert (s + t)[..n] == s[..n];
  }

  /**
   * A decoder with a cap of at most 5 groups never wraps: its result is the
   * sign extension of the groups it read, in [-2^34, 2^34).
   */
  lemma NarrowSignedDecodingDoesNotWrap(s: seq<Byte>, cap: nat)
    requires 1 <= cap <= SignedCap && Extent(s, 0, cap).Some?
    ensures var n := Extent(s, 0, cap).value;
      SignedDecoding(s, cap) == SignExtend(GroupsValue(s[..n]), n)
    ensures -0x4_0000_0000 <= SignedDecoding(s, cap) < 0x4_0000_0000
  {
    var n := Extent(s, 0, cap).value;
    ExtentBounds(s, 0, cap);
    var x := SignExtend(GroupsValue(s[..n]), n);
    Pow128Constants();
    Pow128Monotonic(n, SignedCap);
    Pow128Monotonic(n - 1, SignedCap - 1);
    assert -SignWeight(n) <= x < SignWeight(n);
    DivUnique(x - MinInt64, TwoTo64, 0, x - MinInt64);
  }

  /**
   * Decoding an encoding, followed by anything, gives back the value and
   * consumes exactly the encoding, provided the encoding fits the cap.
   */
  lemma SignedRoundTripWithin(v: I64, rest: seq<Byte>, cap: nat)
    requires 1 <= cap && |SignedEncoding(v)| <= cap
    ensures Extent(SignedEncoding(v) + rest, 0, cap) == Some(|SignedEncoding(v)|)
    ensures SignedDecoding(SignedEncoding(v) + rest, cap) == v
  {
    var e := SignedEncoding(v);
    SignedEncodingTerminated(v);
    ExtentOfTerminated(e, 0, cap);
    SignedDecodingIgnoresTail(e, rest, cap);
    assert e[..|e|] == e;
    SignedEncodingPrefix(v, |e|);
    SignedEncodingLength(v);
    SignExtendOfResidue(v, |e|);
    DivUnique(v - MinInt64, TwoTo64, 0, v - MinInt64);
  }

  /** The round trip with the 5-group cap holds for every v in [-2^34, 2^34). */
  lemma SignedRoundTrip(v: int, rest: seq<Byte>)
    requires -0x4_0000_0000 <= v < 0x4_0000_0000
    ensures Extent(SignedEncoding(v) + rest, 0, SignedCap) == Some(|SignedEncoding(v)|)
    ensures SignedDecoding(SignedEncoding(v) + rest, SignedCap) == v
  {
    Pow128Constants();
    SignedEncodingShortest(v, SignedCap);
    SignedRoundTripWithin(v, rest, SignedCap);
  }

  /**
   * With the 5-group cap, decoding the encoding of any int64 gives v reduced
   * to a 35-bit two's-complement number: values outside [-2^34, 2^34) change.
   */
  lemma NarrowCapKeepsLow35Bits(v: I64)
    ensures Extent(SignedEncoding(v), 0, SignedCap) == Some(Min(|SignedEncoding(v)|, SignedCap))
    ensures SignedDecoding(SignedEncoding(v), SignedCap) == SignExtend(v % Pow128(SignedCap), SignedCap)
  {
    var e := SignedEncoding(v);
    var n := Min(|e|, SignedCap);
    SignedEncodingTerminated(v);
    ExtentOfTerminated(e, 0, SignedCap);
    NarrowSignedDecodingDoesNotWrap(e, SignedCap);
    SignedEncodingPrefix(v, n);
    if n < SignedCap {
      SignedEncodingLength(v);
      SignExtendOfResidue(v, n);
      Pow128Constants();
      Pow128Monotonic(n - 1, SignedCap - 1);
      SignExtendOfResidue(v, SignedCap);
    }
  }

  /**
   * Every int64 in [2^34, 2^35) comes back from the 5-group cap negative, as
   * v - 2^35: 2^34 itself decodes to -2^34.
   */
  lemma NarrowCapFlipsSign(v: I64)
    requires 0x4_0000_0000 <= v < 0x8_0000_0000
    ensures Extent(SignedEncoding(v), 0, SignedCap) == Some(SignedCap)
    ensures SignedDecoding(SignedEncoding(v), SignedCap) == v - 0x8_0000_0000
    ensures SignedDecoding(SignedEncoding(v), SignedCap) < 0
  {
    NarrowCapKeepsLow35Bits(v);
    SignedEncodingLength(v);
    Pow128Constants();
    Pow128Monotonic(|SignedEncoding(v)| - 1, SignedCap - 2);
    assert SignWeight(SignedCap) == 0x4_0000_0000;
    DivUnique(v, Pow128(SignedCap), 0, v);
  }

  /** With a 10-group cap every int64 round-trips. */
  lemma WideSignedRoundTrip(v: I64, rest: seq<Byte>)
    ensures Extent(SignedEncoding(v) + rest, 0, WideCap) == Some(|SignedEncoding(v)|)
    ensures SignedDecoding(SignedEncoding(v) + rest, WideCap) == v
  {
    SignedEncodingAtMostTen(v);
    SignedRoundTripWithin(v, rest, WideCap);
  }

  /** Encodings of sample values, negative ones included. */
  lemma SignedEncodingSamples()
    ensures SignedEncoding(0) == [0x00]
    ensures SignedEncoding(1) == [0x01]
    ensures SignedEncoding(2) == [0x02]
    ensures SignedEncoding(127) == [0xFF, 0x00]
    ensures SignedEncoding(128) == [0x80, 0x01]
    ensures SignedEncoding(129) == [0x81, 0x01]
    ensures SignedEncoding(-1) == [0x7f]
    ensures SignedEncoding(-2) == [0x7e]
    ensures SignedEncoding(-127) == [0x81, 0x7f]
    ensures SignedEncoding(-128) == [0x80, 0x7f]
    ensures SignedEncoding(-129) == [0xFF, 0x7e]
  {
  }

  /** The sample byte strings decode to their values. */
  lemma SignedDecodingSamples()
    ensures SignedDecoding([0x00], SignedCap) == 0
    ensures SignedDecoding([0x01], SignedCap) == 1
    ensures SignedDecoding([0x02], SignedCap) == 2
    ensures SignedDecoding([0xFF, 0x00], SignedCap) == 127
    ensures SignedDecoding([0x80, 0x01], SignedCap) == 128
    ensures SignedDecoding([0x81, 0x01], SignedCap) == 129
    ensures SignedDecoding([0x7e], SignedCap) == -2
    ensures SignedDecoding([0x7f], SignedCap) == -1
    ensures SignedDecoding([0x81, 0x7f], SignedCap) == -127
    ensures SignedDecoding([0x80, 0x7f], SignedCap) == -128
    ensures SignedDecoding([0xFF, 0x7e], SignedCap) == -129
  {
    SignedEncodingSamples();
    var samples := [0, 1, 2, 127, 128, 129, -1, -2, -127, -128, -129];
    forall v | v in samples
      ensures SignedDecoding(SignedEncoding(v), SignedCap) == v
    {
      SignedRoundTrip(v, []);
      assert SignedEncoding(v) + [] == SignedEncoding(v);
    }
  }
}
