/**
 * The six operations of leb128.go, step for step: encoders that peel 7-bit
 * groups off a value and append bytes, decoders that accumulate groups at
 * increasing shifts, and readers that pull the same bytes one at a time from
 * a byte source.
 *
 * Go's shifts and masks on the value become arithmetic: `x >> 7` is x / 128
 * (floor division, which is Dafny's division for a positive divisor),
 * `x & 0x7f` is x % 128, `(x >> 6) & 1` is x / 64 % 2, `x << (7 * k)` is
 * x * 128^k. A byte source is the sequence of its bytes and the position of
 * the next unread one; every reader returns the position it left the source at.
 */
module Leb128 {
  import opened Groups
  import opened Unsigned
  import opened Signed

  /** The one error a reader reports: the source ran dry inside a varint. */
  datatype ReadError = UnexpectedEof

  /** Moving the first element of s to the end of buf keeps buf + s unchanged. */
  lemma AppendFirst(buf: seq<Byte>, b: Byte, tail: seq<Byte>, s: seq<Byte>, whole: seq<Byte>)
    requires buf + s == whole && s == [b] + tail
    ensures buf + [b] + tail == whole
  {
    assert buf + [b] + tail == buf + ([b] + tail);
  }

  /**
   * The state of a decoder loop that has read k groups of s and may read at
   * most cap: acc holds the value of those groups, cur is the last byte read,
   * and the decoder consumes, in all, k bytes plus the extent from k.
   */
  ghost predicate Scanning(s: seq<Byte>, cap: nat, k: nat, cur: Byte, acc: int)
  {
    && k <= cap && k <= |s|
    && acc == GroupsValue(s[..k])
    && (k == 0 ==> cur == Continuation)
    && (cur >= Continuation ==> Extent(s, 0, cap) == AddCount(Extent(s, k, cap - k), k))
    && (cur < Continuation ==> Extent(s, 0, cap) == Some(k))
  }

  /**
   * One step of a decoder that has read k groups of s: reading byte k adds
   * its group at weight 128^k, keeps the value below 128^cap, and either
   * ends the varint or leaves one byte more consumed.
   */
  lemma DecodeStep(s: seq<Byte>, k: nat, cap: nat)
    requires k < |s| && k < cap
    ensures GroupsValue(s[..k + 1]) == GroupsValue(s[..k]) + Shifted(s[k] % 0x80, k)
    ensures GroupsValue(s[..k + 1]) < Pow128(cap)
    ensures Pow128(k + 1) == Pow128(k) * 0x80
    ensures s[k] < Continuation ==> AddCount(Extent(s, k, cap - k), k) == Some(k + 1)
    ensures s[k] >= Continuation ==>
      AddCount(Extent(s, k, cap - k), k) == AddCount(Extent(s, k + 1, cap - k - 1), k + 1)
  {
    assert s[..k + 1] == s[..k] + [s[k]];
    GroupsValueAppend(s[..k], s[k]);
    ShiftedIsProduct(s[k] % 0x80, k);
    Pow128Monotonic(k + 1, cap);
  }


  /** A decoder loop starts with no group read. */
  lemma ScanStart(s: seq<Byte>, cap: nat)
    ensures Scanning(s, cap, 0, Continuation, 0)
  {
    assert s[..0] == [];
  }

  /** Reading one more byte keeps the decoder's state in step with the extent. */
  lemma ScanStep(s: seq<Byte>, cap: nat, k: nat, cur: Byte, acc: int)
    requires Scanning(s, cap, k, cur, acc) && cur >= Continuation && k < cap && k < |s|
    ensures Scanning(s, cap, k + 1, s[k], acc + Shifted(s[k] % 0x80, k))
    ensures acc + Shifted(s[k] % 0x80, k) < Pow128(cap)
  {
    DecodeStep(s, k, cap);
  }

  /** A decoder that wants another byte where s ends finds no complete varint. */
  lemma ScanAtEnd(s: seq<Byte>, cap: nat, k: nat, cur: Byte, acc: int)
    requires Scanning(s, cap, k, cur, acc) && cur >= Continuation && k < cap
    ensures k == |s| ==> Extent(s, 0, cap).None?
  {
  }

  /** When the loop stops, it has consumed exactly the extent. */
  lemma ScanDone(s: seq<Byte>, cap: nat, k: nat, cur: Byte, acc: int)
    requires Scanning(s, cap, k, cur, acc) && !(cur >= Continuation && k < cap)
    ensures Extent(s, 0, cap) == Some(k)
  {
  }

  /** ScanStep for a reader at position pos of src, after k bytes read. */
  lemma ReadStep(src: seq<Byte>, pos: nat, cap: nat, k: nat, cur: Byte, acc: int)
    requires pos + k < |src| && Scanning(src[pos..], cap, k, cur, acc) && cur >= Continuation && k < cap
    ensures Scanning(src[pos..], cap, k + 1, src[pos + k], acc + Shifted(src[pos + k] % 0x80, k))
    ensures acc + Shifted(src[pos + k] % 0x80, k) < Pow128(cap)
  {
    ScanStep(src[pos..], cap, k, cur, acc);
  }

  /** ScanAtEnd for a reader that finds src exhausted. */
  lemma ReadAtEnd(src: seq<Byte>, pos: nat, cap: nat, k: nat, cur: Byte, acc: int)
    requires pos + k == |src| && Scanning(src[pos..], cap, k, cur, acc) && cur >= Continuation && k < cap
    ensures Extent(src[pos..], 0, cap).None?
  {
    ScanAtEnd(src[pos..], cap, k, cur, acc);
  }

  /** EncodeULeb128: the unsigned encoding of a uint64. */
  method EncodeULeb128(value: U64) returns (buf: seq<Byte>)
    ensures buf == UnsignedEncoding(value)
  {
    var v: nat := value;
    var remaining := v / 0x80;
    buf := [];
    while remaining != 0
      invariant remaining == v / 0x80
      invariant buf + UnsignedEncoding(v) == UnsignedEncoding(value)
      decreases v
    {
      var b: Byte := v % 0x80 + Continuation;
      assert UnsignedEncoding(v) == [b] + UnsignedEncoding(remaining);
      AppendFirst(buf, b, UnsignedEncoding(remaining), UnsignedEncoding(v), UnsignedEncoding(value));
      buf := buf + [b];
      v := remaining;
      remaining := remaining / 0x80;
    }
    buf := buf + [v % 0x80];
  }

  /**
   * DecodeULeb128: reads groups from the start of value until a byte with
   * bit 7 clear or until 9 groups. Go indexes the slice without a bounds
   * check, so the bytes it reads must be there.
   */
  method DecodeULeb128(value: seq<Byte>) returns (result: U64)
    requires Extent(value, 0, UnsignedCap).Some?
    ensures result == UnsignedDecoding(value, UnsignedCap)
    ensures result < 0x8000_0000_0000_0000
  {
    var acc: nat := 0;
    var ctr := 0;
    var cur: Byte := Continuation;
    // the cap as a variable, so that the verifier does not unfold Extent on a literal
    ghost var cap := UnsignedCap;
    ScanStart(value, cap);
    while cur >= Continuation && ctr < UnsignedCap
      invariant Scanning(value, cap, ctr, cur, acc)
      decreases UnsignedCap - ctr
    {
      ScanAtEnd(value, cap, ctr, cur, acc);
      ScanStep(value, cap, ctr, cur, acc);
      cur := value[ctr];
      acc := acc + Shifted(cur % 0x80, ctr);
      ctr := ctr + 1;
    }
    ScanDone(value, cap, ctr, cur, acc);
    NarrowDecodingDoesNotWrap(value, cap);
    result := acc;
  }

  /**
   * ReadULeb128: DecodeULeb128 over a byte source. When the source is
   * exhausted before the varint ends it reports UnexpectedEof and yields 0,
   * the source drained.
   */
  method ReadULeb128(src: seq<Byte>, pos: nat) returns (result: U64, err: Option<ReadError>, next: nat)
    requires pos <= |src|
    ensures err.None? <==> Extent(src[pos..], 0, UnsignedCap).Some?
    ensures err.Some? ==> result == 0 && err.value == UnexpectedEof && next == |src|
    ensures err.None? ==>
      && next == pos + Extent(src[pos..], 0, UnsignedCap).value
      && result == UnsignedDecoding(src[pos..], UnsignedCap)
  {
    var acc: nat := 0;
    var ctr := 0;
    var cur: Byte := Continuation;
    next := pos;
    ghost var cap := UnsignedCap;
    ScanStart(src[pos..], cap);
    while cur >= Continuation && ctr < UnsignedCap
      invariant next == pos + ctr && Scanning(src[pos..], cap, ctr, cur, acc)
      decreases UnsignedCap - ctr
    {
      if next == |src| {
        // reader.ReadByte() reports io.EOF
        ReadAtEnd(src, pos, cap, ctr, cur, acc);
        return 0, Some(UnexpectedEof), next;
      }
      ReadStep(src, pos, cap, ctr, cur, acc);
      cur := src[next];
      next := next + 1;
      acc := acc + Shifted(cur % 0x80, ctr);
      ctr := ctr + 1;
    }
    ScanDone(src[pos..], cap, ctr, cur, acc);
    NarrowDecodingDoesNotWrap(src[pos..], cap);
    result, err := acc, None;
  }

  /**
   * The signed encoder's test for another byte, with end the sign of v
   * (0 or -1), holds exactly when v does not fit one 7-bit group.
   */
  lemma HasMoreIffNotFitsGroup(v: int, end: int)
    requires end == if v < 0 then -1 else 0
    ensures (v / 0x80 != end || v / 0x80 % 2 != v / 0x40 % 2) <==> !FitsGroup(v)
  {
  }

  /** The encoding of v is its first byte followed by the encoding of v >> 7, if any. */
  lemma SignedEncodingStep(v: int)
    ensures FitsGroup(v) ==> SignedEncoding(v) == [v % 0x80]
    ensures !FitsGroup(v) ==> SignedEncoding(v) == [v % 0x80 + Continuation] + SignedEncoding(v / 0x80)
  {
  }

  /** EncodeSLeb128: the signed encoding of an int64. */
  method EncodeSLeb128(value: I64) returns (buf: seq<Byte>)
    ensures buf == SignedEncoding(value)
  {
    var v: int := value;
    buf := [];
    var remaining := v / 0x80;
    var hasMore := true;
    // value & MinInt64 == 0 tests the sign bit
    var end := if value >= 0 then 0 else -1;
    while hasMore
      invariant remaining == v / 0x80
      invariant end == if v < 0 then -1 else 0
      invariant hasMore ==> buf + SignedEncoding(v) == SignedEncoding(value)
      invariant !hasMore ==> buf == SignedEncoding(value)
      decreases Magnitude(v) + (if hasMore then 1 else 0)
    {
      hasMore := remaining != end || remaining % 2 != v / 0x40 % 2;
      HasMoreIffNotFitsGroup(v, end);
      var t := if hasMore then Continuation else 0;
      var b: Byte := v % 0x80 + t;
      SignedEncodingStep(v);
      if hasMore {
        AppendFirst(buf, b, SignedEncoding(remaining), SignedEncoding(v), SignedEncoding(value));
      }
      buf := buf + [b];
      v := remaining;
      remaining := remaining / 0x80;
    }
  }

  /**
   * Whether Go's `(signBits >> 1) & result` is non-zero. signBits is
   * -2^(7n), so signBits >> 1 is -2^(7n-1): every bit from 7n-1 up. As result
   * holds only bits below 7n, the AND is non-zero exactly when bit 7n-1 of
   * result is set.
   */
  function SignBitSet(signBits: int, result: nat): bool
    requires signBits <= -2
  {
    result / -(signBits / 2) % 2 == 1
  }

  /** After n groups, Go's sign test fires exactly when the groups reach the sign weight 2^(7n-1). */
  lemma SignBitSetIffAtLeastSignWeight(n: nat, acc: nat)
    requires n >= 1 && acc < Pow128(n)
    ensures SignBitSet(-(Pow128(n) as int), acc) <==> acc >= SignWeight(n)
  {
    var w := SignWeight(n);
    assert -(-(Pow128(n) as int) / 2) == w;
    if acc >= w {
      DivUnique(acc, w, 1, acc - w);
    } else {
      DivUnique(acc, w, 0, acc);
    }
  }

  /**
   * DecodeSLeb128: reads at most 5 groups from the start of value, then
   * sign-extends from the top bit of the last group. Like DecodeULeb128 it
   * needs the bytes it reads to be there.
   */
  method DecodeSLeb128(value: seq<Byte>) returns (result: I64)
    requires Extent(value, 0, SignedCap).Some?
    ensures result == SignedDecoding(value, SignedCap)
    ensures -0x4_0000_0000 <= result < 0x4_0000_0000
  {
    var acc: int := 0;
    var ctr := 0;
    var cur: Byte := Continuation;
    var signBits := -1;
    ghost var cap := SignedCap;
    ScanStart(value, cap);
    while cur >= Continuation && ctr < SignedCap
      invariant Scanning(value, cap, ctr, cur, acc)
      invariant signBits == -(Pow128(ctr) as int)
      decreases SignedCap - ctr
    {
      ScanAtEnd(value, cap, ctr, cur, acc);
      ScanStep(value, cap, ctr, cur, acc);
      cur := value[ctr];
      acc := acc + Shifted(cur % 0x80, ctr);
      signBits := signBits * 0x80;
      ctr := ctr + 1;
    }
    ScanDone(value, cap, ctr, cur, acc);
    SignBitSetIffAtLeastSignWeight(ctr, acc);
    ghost var groups := acc;
    if SignBitSet(signBits, acc) {
      acc := acc + signBits;
    }
    assert acc == SignExtend(groups, ctr);
    NarrowSignedDecodingDoesNotWrap(value, cap);
    result := acc;
  }

  /**
   * ReadSLeb128: DecodeSLeb128 over a byte source. Go panics on any read
   * error; that outcome is reported as panicked, the source drained, and
   * no value.
   */
  method ReadSLeb128(src: seq<Byte>, pos: nat) returns (result: I64, panicked: bool, next: nat)
    requires pos <= |src|
    ensures !panicked <==> Extent(src[pos..], 0, SignedCap).Some?
    ensures panicked ==> next == |src|
    ensures !panicked ==>
      && next == pos + Extent(src[pos..], 0, SignedCap).value
      && result == SignedDecoding(src[pos..], SignedCap)
  {
    var acc: int := 0;
    var ctr := 0;
    var cur: Byte := Continuation;
    var signBits := -1;
    next := pos;
    ghost var cap := SignedCap;
    ScanStart(src[pos..], cap);
    while cur >= Continuation && ctr < SignedCap
      invariant next == pos + ctr && Scanning(src[pos..], cap, ctr, cur, acc)
      invariant signBits == -(Pow128(ctr) as int)
      decreases SignedCap - ctr
    {
      if next == |src| {
        // reader.ReadByte() fails and the function panics
        ReadAtEnd(src, pos, cap, ctr, cur, acc);
        return 0, true, next;
      }
      ReadStep(src, pos, cap, ctr, cur, acc);
      cur := src[next];
      next := next + 1;
      acc := acc + Shifted(cur % 0x80, ctr);
      signBits := signBits * 0x80;
      ctr := ctr + 1;
    }
    ScanDone(src[pos..], cap, ctr, cur, acc);
    SignBitSetIffAtLeastSignWeight(ctr, acc);
    ghost var groups := acc;
    if SignBitSet(signBits, acc) {
      acc := acc + signBits;
    }
    assert acc == SignExtend(groups, ctr);
    NarrowSignedDecodingDoesNotWrap(src[pos..], cap);
    result, panicked := acc, false;
  }
}
