/**
 * Shared vocabulary of the LEB128 codec: bytes, 64-bit words, the value of a
 * run of 7-bit groups, and how many bytes a capped decoder consumes.
 *
 * A LEB128 byte carries a 7-bit group in its low bits and a continuation flag
 * in bit 7 (0x80). Groups are stored least significant first, so group i has
 * weight 128^i.
 */
module Groups {

  /** One byte of the wire form. */
  type Byte = x: int | 0 <= x < 0x100

  const TwoTo64 := 0x1_0000_0000_0000_0000
  const MinInt64 := -0x8000_0000_0000_0000

  /** Go's uint64. */
  type U64 = x: int | 0 <= x < TwoTo64

  /** Go's int64. */
  type I64 = x: int | MinInt64 <= x < -MinInt64

  datatype Option<T> = None | Some(value: T)

  /** The number of groups a 64-bit value can need: ceil(64 / 7). */
  const WideCap := 10

  /** The continuation flag, bit 7 of a byte. */
  const Continuation := 0x80

  /** 128^k, the weight of group k. */
  function Pow128(k: nat): (p: nat)
    ensures p > 0
  {
    if k == 0 then 1 else 128 * Pow128(k - 1)
  }

  /**
   * b << 7k: b moved up k groups. Equal to b * Pow128(k) (ShiftedIsProduct);
   * defined on its own only so that the decoder loops' proofs carry no
   * product of two variables.
   */
  function Shifted(b: nat, k: nat): nat
  {
    if k == 0 then b else 0x80 * Shifted(b, k - 1)
  }

  lemma {:induction false} ShiftedIsProduct(b: nat, k: nat)
    ensures Shifted(b, k) == b * Pow128(k)
  {
    if k > 0 {
      ShiftedIsProduct(b, k - 1);
      assert 0x80 * (b * Pow128(k - 1)) == b * (0x80 * Pow128(k - 1));
    }
  }

  lemma {:induction false} Pow128Monotonic(i: nat, j: nat)
    ensures i <= j ==> Pow128(i) <= Pow128(j)
    ensures i < j ==> Pow128(i) * 128 <= Pow128(j)
    decreases j
  {
    if i < j {
      Pow128Monotonic(i, j - 1);
    }
  }

  lemma Pow128Constants()
    ensures Pow128(1) == 0x80
    ensures Pow128(2) == 0x4000
    ensures Pow128(3) == 0x20_0000
    ensures Pow128(4) == 0x1000_0000
    ensures Pow128(6) == 0x400_0000_0000
    ensures Pow128(7) == 0x2_0000_0000_0000
    ensures Pow128(8) == 0x100_0000_0000_0000
    ensures Pow128(5) == 0x8_0000_0000
    ensures Pow128(9) == 0x8000_0000_0000_0000
    ensures Pow128(10) == 0x40_0000_0000_0000_0000
  {
  }

  lemma DivUnique(a: int, d: int, q: int, t: int)
    requires d > 0 && 0 <= t < d && a == d * q + t
    ensures a / d == q && a % d == t
  {
    var k := a / d - q;
    assert d * k == t - a % d;
    assert k >= 1 ==> d * (k - 1) >= 0;
    assert k <= -1 ==> d * (-k - 1) >= 0;
  }

  lemma DivDiv128(v: nat, p: nat)
    requires p > 0
    ensures v / 0x80 / p == v / (0x80 * p)
  {
    var q, r := v / (0x80 * p), v % (0x80 * p);
    assert v == 0x80 * (p * q + r / 0x80) + r % 0x80;
    DivUnique(v, 0x80, p * q + r / 0x80, r % 0x80);
    DivUnique(v / 0x80, p, q, r / 0x80);
  }

  lemma ModMod128(v: int, p: nat)
    requires p > 0
    ensures v % (0x80 * p) == v % 0x80 + 0x80 * (v / 0x80 % p)
  {
    var w := v / 0x80;
    assert v == 0x80 * p * (w / p) + (0x80 * (w % p) + v % 0x80);
    DivUnique(v, 0x80 * p, w / p, 0x80 * (w % p) + v % 0x80);
  }

  /**
   * The number held by the 7-bit groups of g, least significant first. Bit 7
   * of every byte is ignored, as the decoders' `cur & 0x7f` ignores it.
   */
  function GroupsValue(g: seq<Byte>): (v: nat)
    ensures v < Pow128(|g|)
  {
    if g == [] then 0 else g[0] % 0x80 + 0x80 * GroupsValue(g[1..])
  }

  /** A byte in front adds its group below the groups of g. */
  lemma GroupsValueCons(b: Byte, g: seq<Byte>)
    ensures GroupsValue([b] + g) == b % 0x80 + 0x80 * GroupsValue(g)
  {
    assert ([b] + g)[1..] == g;
  }

  /** Regrouping used when a group is added at the top. */
  lemma ShiftUp(a: int, x: int, c: int, p: int)
    ensures a + 0x80 * (x + c * p) == (a + 0x80 * x) + c * (0x80 * p)
  {
  }

  /** Adding one more group at the top adds that group times its weight. */
  lemma {:induction false} GroupsValueAppend(g: seq<Byte>, b: Byte)
    ensures GroupsValue(g + [b]) == GroupsValue(g) + b % 0x80 * Pow128(|g|)
  {
    if g != [] {
      var h, x, c, p := g[1..], GroupsValue(g[1..]), b % 0x80, Pow128(|g| - 1);
      assert g == [g[0]] + h && g + [b] == [g[0]] + (h + [b]);
      GroupsValueCons(g[0], h);
      GroupsValueCons(g[0], h + [b]);
      GroupsValueAppend(h, b);
      ShiftUp(g[0] % 0x80, x, c, p);
    }
  }

  /** k more bytes consumed before a decoder's extent o. */
  function AddCount(o: Option<nat>, k: nat): Option<nat>
  {
    match o
    case None => None
    case Some(n) => Some(n + k)
  }

  /**
   * How many bytes a decoder that starts at position pos and reads at most
   * cap bytes consumes: it stops right after the first byte whose bit 7 is
   * clear, or after cap bytes. None when the bytes run out first.
   * The ensures only bounds the result; ExtentBounds and ExtentMeaning
   * characterise it completely.
   */
  function Extent(s: seq<Byte>, pos: nat, cap: nat): (r: Option<nat>)
    requires pos <= |s|
    ensures r.Some? ==> pos + r.value <= |s|
    decreases |s| - pos
  {
    if cap == 0 then Some(0)
    else if pos == |s| then None
    else if s[pos] < Continuation then Some(1)
    else match Extent(s, pos + 1, cap - 1)
      case None => None
      case Some(n) => Some(n + 1)
  }

  /** A decoder consumes at most cap bytes, and at least one when it may read any. */
  lemma {:induction false} ExtentBounds(s: seq<Byte>, pos: nat, cap: nat)
    requires pos <= |s| && Extent(s, pos, cap).Some?
    ensures Extent(s, pos, cap).value <= cap
    ensures cap > 0 ==> Extent(s, pos, cap).value >= 1
    decreases cap
  {
    if cap > 0 && s[pos] >= Continuation {
      ExtentBounds(s, pos + 1, cap - 1);
    }
  }

  /**
   * The extent, characterised: every byte consumed but the last has bit 7
   * set, and the last has it clear unless the cap was reached; when the
   * bytes run out first, fewer than cap remain and all of them have bit 7 set.
   */
  lemma {:induction false} ExtentMeaning(s: seq<Byte>, pos: nat, cap: nat)
    requires pos <= |s|
    ensures var r := Extent(s, pos, cap);
      && (r.Some? ==> forall i :: pos <= i < pos + r.value - 1 ==> s[i] >= Continuation)
      && (r.Some? && r.value < cap ==> s[pos + r.value - 1] < Continuation)
      && (r.None? ==> |s| - pos < cap && forall i :: pos <= i < |s| ==> s[i] >= Continuation)
    decreases cap
  {
    if cap > 0 && pos < |s| && s[pos] >= Continuation {
      ExtentMeaning(s, pos + 1, cap - 1);
    }
  }

  /** Bytes after the ones a decoder consumes are never looked at. */
  lemma {:induction false} ExtentAppend(s: seq<Byte>, t: seq<Byte>, pos: nat, cap: nat)
    requires pos <= |s| && Extent(s, pos, cap).Some?
    ensures Extent(s + t, pos, cap) == Extent(s, pos, cap)
    decreases cap
  {
    if cap > 0 && s[pos] >= Continuation {
      ExtentAppend(s, t, pos + 1, cap - 1);
    }
  }

  /** A run of continuation bytes closed by exactly one byte with bit 7 clear. */
  predicate Terminated(e: seq<Byte>)
  {
    && |e| >= 1
    && (forall i :: 0 <= i < |e| - 1 ==> e[i] >= Continuation)
    && e[|e| - 1] < Continuation
  }

  function Min(a: nat, b: nat): nat
  {
    if a <= b then a else b
  }

  /**
   * On a terminated run a capped decoder reads the whole run, or the first
   * cap bytes of it when the run is longer than the cap.
   */
  lemma {:induction false} ExtentOfTerminated(e: seq<Byte>, pos: nat, cap: nat)
    requires Terminated(e) && pos < |e|
    ensures Extent(e, pos, cap) == Some(Min(|e| - pos, cap))
    decreases cap
  {
    if cap > 0 && pos < |e| - 1 {
      ExtentOfTerminated(e, pos + 1, cap - 1);
    }
  }
}
