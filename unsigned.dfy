/**
 * Unsigned LEB128 as pure definitions: the reference encoding of a natural
 * number, the decoding a decoder capped at some number of groups computes,
 * and what is proved about them.
 */
module Unsigned {
  import opened Groups

  /** At most this many groups are read by DecodeULeb128 and ReadULeb128. */
  const UnsignedCap := 9

  /**
   * The unsigned encoding of v: its 7-bit groups, lowest first, every byte
   * but the last carrying the continuation flag.
   */
  function UnsignedEncoding(v: nat): (e: seq<Byte>)
    ensures |e| >= 1
    decreases v
  {
    if v < 0x80 then [v] else [v % 0x80 + Continuation] + UnsignedEncoding(v / 0x80)
  }

  /**
   * The value a decoder capped at cap groups computes from the start of s, in
   * uint64 arithmetic: the groups it reads, wrapped to 64 bits.
   */
  function UnsignedDecoding(s: seq<Byte>, cap: nat): U64
    requires Extent(s, 0, cap).Some?
  {
    GroupsValue(s[..Extent(s, 0, cap).value]) % TwoTo64
  }

  /** Every byte of the encoding but the last carries the continuation flag. */
  lemma {:induction false} UnsignedEncodingTerminated(v: nat)
    ensures Terminated(UnsignedEncoding(v))
    decreases v
  {
    if v >= 0x80 {
      UnsignedEncodingTerminated(v / 0x80);
    }
  }

  /** Byte i of the encoding holds group i of v, (v / 128^i) % 128. */
  lemma {:induction false} UnsignedEncodingGroups(v: nat, i: nat)
    requires i < |UnsignedEncoding(v)|
    ensures UnsignedEncoding(v)[i] % 0x80 == v / Pow128(i) % 0x80
    decreases v
  {
    if i > 0 {
      var w := v / 0x80;
      assert UnsignedEncoding(v)[i] == UnsignedEncoding(w)[i - 1];
      UnsignedEncodingGroups(w, i - 1);
      DivDiv128(v, Pow128(i - 1));
      assert w / Pow128(i - 1) == v / Pow128(i);
    }
  }

  /** The groups of the encoding add up to v again. */
  lemma {:induction false} UnsignedEncodingValue(v: nat)
    ensures GroupsValue(UnsignedEncoding(v)) == v
    decreases v
  {
    if v >= 0x80 {
      UnsignedEncodingValue(v / 0x80);
      assert UnsignedEncoding(v)[1..] == UnsignedEncoding(v / 0x80);
    }
  }

  /**
   * The encoding has minimal length: n bytes where n is the least n >= 1
   * with v < 128^n.
   */
  lemma {:induction false} UnsignedEncodingLength(v: nat)
    ensures v < Pow128(|UnsignedEncoding(v)|)
    ensures |UnsignedEncoding(v)| > 1 ==> Pow128(|UnsignedEncoding(v)| - 1) <= v
    decreases v
  {
    UnsignedEncodingValue(v);
    if v >= 0x80 {
      UnsignedEncodingLength(v / 0x80);
    }
  }

  /** A shorter encoding exists for no value: any n with v < 128^n is at least the length. */
  lemma UnsignedEncodingShortest(v: nat, n: nat)
    requires n >= 1 && v < Pow128(n)
    ensures |UnsignedEncoding(v)| <= n
  {
    UnsignedEncodingLength(v);
    var len := |UnsignedEncoding(v)|;
    Pow128Monotonic(n, len - 1);
  }

  /** A uint64 never takes more than 10 bytes. */
  lemma UnsignedEncodingAtMostTen(v: U64)
    ensures |UnsignedEncoding(v)| <= WideCap
  {
    Pow128Constants();
    UnsignedEncodingShortest(v, WideCap);
  }

  /**
   * A decoder with a cap of at most 9 groups never wraps: its result is the
   * value of the groups it read, below 2^63.
   */
  lemma NarrowDecodingDoesNotWrap(s: seq<Byte>, cap: nat)
    requires cap <= UnsignedCap && Extent(s, 0, cap).Some?
    ensures UnsignedDecoding(s, cap) == GroupsValue(s[..Extent(s, 0, cap).value])
    ensures UnsignedDecoding(s, cap) < Pow128(cap)
  {
    var n := Extent(s, 0, cap).value;
    ExtentBounds(s, 0, cap);
    Pow128Constants();
    if n < cap {
      Pow128Monotonic(n, cap);
    }
    if cap < UnsignedCap {
      Pow128Monotonic(cap, UnsignedCap);
    }
  }

  /** Bytes after the ones the decoder consumes do not change its result. */
  lemma UnsignedDecodingIgnoresTail(s: seq<Byte>, t: seq<Byte>, cap: nat)
    requires Extent(s, 0, cap).Some?
    ensures Extent(s + t, 0, cap) == Extent(s, 0, cap)
    ensures UnsignedDecoding(s + t, cap) == UnsignedDecoding(s, cap)
  {
    ExtentAppend(s, t, 0, cap);
    var n := Extent(s, 0, cap).value;
    assert (s + t)[..n] == s[..n];
  }

  /**
   * Decoding an encoding, followed by anything, gives back the value and
   * consumes exactly the encoding, provided the encoding fits the cap.
   */
  lemma UnsignedRoundTripWithin(v: nat, rest: seq<Byte>, cap: nat)
    requires |UnsignedEncoding(v)| <= cap && v < TwoTo64
    ensures Extent(UnsignedEncoding(v) + rest, 0, cap) == Some(|UnsignedEncoding(v)|)
    ensures UnsignedDecoding(UnsignedEncoding(v) + rest, cap) == v
  {
    var e := UnsignedEncoding(v);
    UnsignedEncodingTerminated(v);
    ExtentOfTerminated(e, 0, cap);
    UnsignedDecodingIgnoresTail(e, rest, cap);
    assert e[..|e|] == e;
    UnsignedEncodingValue(v);
  }

  /** The round trip with the 9-group cap holds for every v < 2^63. */
  lemma UnsignedRoundTrip(v: nat, rest: seq<Byte>)
    requires v < 0x8000_0000_0000_0000
    ensures Extent(UnsignedEncoding(v) + rest, 0, UnsignedCap) == Some(|UnsignedEncoding(v)|)
    ensures UnsignedDecoding(UnsignedEncoding(v) + rest, UnsignedCap) == v
  {
    Pow128Constants();
    UnsignedEncodingShortest(v, UnsignedCap);
    UnsignedRoundTripWithin(v, rest, UnsignedCap);
  }

  /** The first k bytes of the encoding hold v modulo 128^k. */
  lemma {:induction false} UnsignedEncodingPrefix(v: nat, k: nat)
    requires k <= |UnsignedEncoding(v)|
    ensures GroupsValue(UnsignedEncoding(v)[..k]) == v % Pow128(k)
    decreases v
  {
    var e := UnsignedEncoding(v);
    if k > 0 {
      if v < 0x80 {
        assert e[..k] == [v];
      } else {
        var w, p, t := v / 0x80, Pow128(k - 1), UnsignedEncoding(v / 0x80);
        var b: Byte := v % 0x80 + Continuation;
        assert e[..k] == [b] + t[..k - 1];
        GroupsValueCons(b, t[..k - 1]);
        DivUnique(b, 0x80, 1, v % 0x80);
        UnsignedEncodingPrefix(w, k - 1);
        ModMod128(v, p);
      }
    }
  }

  /**
   * With the 9-group cap, decoding the encoding of any uint64 gives the value
   * modulo 2^63: the top bit of values of 2^63 and above is lost.
   */
  lemma NarrowCapKeepsLow63Bits(v: U64)
    ensures Extent(UnsignedEncoding(v), 0, UnsignedCap) == Some(Min(|UnsignedEncoding(v)|, UnsignedCap))
    ensures UnsignedDecoding(UnsignedEncoding(v), UnsignedCap) == v % 0x8000_0000_0000_0000
  {
    var e := UnsignedEncoding(v);
    var n := Min(|e|, UnsignedCap);
    Pow128Constants();
    UnsignedEncodingTerminated(v);
    ExtentOfTerminated(e, 0, UnsignedCap);
    UnsignedEncodingPrefix(v, n);
    var low := v % Pow128(n);
    assert UnsignedDecoding(e, UnsignedCap) == low % TwoTo64;
    if |e| < UnsignedCap {
      UnsignedEncodingLength(v);
      Pow128Monotonic(|e|, UnsignedCap);
      DivUnique(v, Pow128(n), 0, v);
      DivUnique(v, Pow128(UnsignedCap), 0, v);
    }
    DivUnique(low, TwoTo64, 0, low);
  }

  /**
   * Every uint64 from 2^63 up comes back from the 9-group cap without its top
   * bit: 2^63 itself decodes to 0.
   */
  lemma NarrowCapLosesTopBit(v: U64)
    requires v >= 0x8000_0000_0000_0000
    ensures Extent(UnsignedEncoding(v), 0, UnsignedCap) == Some(UnsignedCap)
    ensures UnsignedDecoding(UnsignedEncoding(v), UnsignedCap) == v - 0x8000_0000_0000_0000
    ensures UnsignedDecoding(UnsignedEncoding(v), UnsignedCap) != v
  {
    NarrowCapKeepsLow63Bits(v);
    UnsignedEncodingLength(v);
    Pow128Constants();
    Pow128Monotonic(|UnsignedEncoding(v)|, UnsignedCap);
    DivUnique(v, 0x8000_0000_0000_0000, 1, v - 0x8000_0000_0000_0000);
  }

  /** With a 10-group cap every uint64 round-trips (the top group wraps out harmlessly). */
  lemma WideCapRoundTrip(v: U64, rest: seq<Byte>)
    ensures Extent(UnsignedEncoding(v) + rest, 0, WideCap) == Some(|UnsignedEncoding(v)|)
    ensures UnsignedDecoding(UnsignedEncoding(v) + rest, WideCap) == v
  {
    UnsignedEncodingAtMostTen(v);
    UnsignedRoundTripWithin(v, rest, WideCap);
  }

  /**
   * Two encodings written one after the other read back in order: the first
   * decoding consumes exactly the first encoding and leaves the second at
   * the front of what remains.
   */
  lemma UnsignedConsecutive(v1: nat, v2: nat, rest: seq<Byte>)
    requires v1 < 0x8000_0000_0000_0000 && v2 < 0x8000_0000_0000_0000
    ensures var e1, e2 := UnsignedEncoding(v1), UnsignedEncoding(v2);
      var src := e1 + e2 + rest;
      && Extent(src, 0, UnsignedCap) == Some(|e1|)
      && UnsignedDecoding(src, UnsignedCap) == v1
      && src[|e1|..] == e2 + rest
      && Extent(src[|e1|..], 0, UnsignedCap) == Some(|e2|)
      && UnsignedDecoding(src[|e1|..], UnsignedCap) == v2
  {
    var e1, e2 := UnsignedEncoding(v1), UnsignedEncoding(v2);
    assert e1 + e2 + rest == e1 + (e2 + rest);
    assert (e1 + e2 + rest)[|e1|..] == e2 + rest;
    UnsignedRoundTrip(v1, e2 + rest);
    UnsignedRoundTrip(v2, rest);
  }

  /** Encodings of sample values, and their lengths. */
  lemma UnsignedEncodingSamples()
    ensures UnsignedEncoding(0) == [0x00]
    ensures UnsignedEncoding(1) == [0x01]
    ensures UnsignedEncoding(2) == [0x02]
    ensures UnsignedEncoding(127) == [0x7f]
    ensures UnsignedEncoding(128) == [0x80, 0x01]
    ensures UnsignedEncoding(129) == [0x81, 0x01]
    ensures UnsignedEncoding(130) == [0x82, 0x01]
    ensures UnsignedEncoding(12857) == [0xB9, 0x64]
    ensures UnsignedEncoding(16256) == [0x80, 0x7f]
  {
  }

  /** The sample byte strings decode to their values. */
  lemma UnsignedDecodingSamples()
    ensures UnsignedDecoding([0x00], UnsignedCap) == 0
    ensures UnsignedDecoding([0x01], UnsignedCap) == 1
    ensures UnsignedDecoding([0x02], UnsignedCap) == 2
    ensures UnsignedDecoding([0x7f], UnsignedCap) == 127
    ensures UnsignedDecoding([0x80, 0x01], UnsignedCap) == 128
    ensures UnsignedDecoding([0x81, 0x01], UnsignedCap) == 129
    ensures UnsignedDecoding([0x82, 0x01], UnsignedCap) == 130
    ensures UnsignedDecoding([0xB9, 0x64], UnsignedCap) == 12857
    ensures UnsignedDecoding([0x80, 0x7f], UnsignedCap) == 16256
  {
    UnsignedEncodingSamples();
    var samples := [0, 1, 2, 127, 128, 129, 130, 12857, 16256];
    forall v | v in samples
      ensures UnsignedDecoding(UnsignedEncoding(v), UnsignedCap) == v
    {
      UnsignedRoundTrip(v, []);
      assert UnsignedEncoding(v) + [] == UnsignedEncoding(v);
    }
  }
}
