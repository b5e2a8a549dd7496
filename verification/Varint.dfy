/** Base-128 varints: the bytes that the output stream writes for an integer, and the loop that reads
    them back (Protocol Buffers Encoding, section "Base 128 Varints"). */
module Varint {
  import opened CStrings
  import opened Words
  import opened ZigZag

  const TWO64: nat := 0x1_0000_0000_0000_0000

  /** The groups of an unsigned integer, lowest first; all but the last have the continuation bit. */
  function Groups(v: nat): seq<Byte>
  {
    if v < 128 then [v] else [v % 128 + 128] + Groups(v / 128)
  }

  /** The integer that groups stand for, whatever their continuation bits. */
  function Number(groups: seq<Byte>): nat
  {
    if groups == [] then 0 else groups[0] % 128 + 128 * Number(groups[1..])
  }

  function Pow128(k: nat): (p: nat)
    ensures p >= 1
  {
    if k == 0 then 1 else 128 * Pow128(k - 1)
  }

  /** The groups stand for the integer, and exactly the last one ends it. */
  lemma {:induction false} GroupsSpell(v: nat)
    ensures var g := Groups(v);
      && g != [] && Number(g) == v
      && (forall i :: 0 <= i < |g| - 1 ==> g[i] >= 128) && g[|g| - 1] < 128
      && (|g| > 1 ==> g[|g| - 1] != 0)
    decreases v
  {
    if v >= 128 {
      GroupsSpell(v / 128);
      assert Groups(v)[1..] == Groups(v / 128);
    }
  }

  /** k groups are enough exactly below 128^k. */
  lemma {:induction false} GroupCount(v: nat, k: nat)
    requires k > 0
    ensures |Groups(v)| <= k <==> v < Pow128(k)
    decreases k
  {
    if k == 1 {
      assert Pow128(1) == 128 * Pow128(0);
      if v >= 128 {
        GroupsSpell(v / 128);
      }
    } else {
      assert Pow128(k) == 128 * Pow128(k - 1);
      if v < 128 {
        assert Pow128(k) >= 128;
      } else {
        GroupCount(v / 128, k - 1);
        DivideBound(v, Pow128(k - 1));
      }
    }
  }

  lemma DivideBound(v: nat, p: nat)
    ensures v / 128 < p <==> v < 128 * p
  {
  }

  /* ----- reading ----- */

  datatype ReadError = InvalidSize | SubsectionLimitReached | InvalidVarint
  datatype Result<+T> = Ok(value: T) | Err(error: ReadError)

  /** One byte, or the error of the size check; and where the reader stands afterwards. */
  function ReadByte(bytes: seq<Byte>, limit: nat, pos: nat): (Result<Byte>, nat)
  {
    if pos + 1 > |bytes| then (Err(InvalidSize), pos)
    else if pos + 1 > limit then (Err(SubsectionLimitReached), limit)
    else (Ok(bytes[pos]), pos + 1)
  }

  /** The reading loop from its round `g` on: `result` is what the groups before have been joined to,
      `shift` is 7 * g, and bits beyond the 64th are lost. */
  function ReadVarint(bytes: seq<Byte>, limit: nat, pos: nat, g: nat, result: nat): (Result<nat>, nat)
    decreases 10 - g
  {
    if 7 * g >= 64 then (Err(InvalidVarint), pos)
    else
      var (b, next) := ReadByte(bytes, limit, pos);
      if b.Err? then (Err(b.error), next)
      else
        var joined := Join(result, b.value, g);
        if b.value < 128 then (Ok(joined), next) else ReadVarint(bytes, limit, next, g + 1, joined)
  }

  /** `result | (b & 0x7F) << shift` as an integer, in round `g`. */
  function Join(result: nat, b: Byte, g: nat): nat
  {
    (result + b % 128 * Pow128(g)) % TWO64
  }

  /** These groups are readable at `pos`. */
  predicate Holds(bytes: seq<Byte>, limit: nat, pos: nat, groups: seq<Byte>)
  {
    pos + |groups| <= |bytes| && pos + |groups| <= limit && bytes[pos..pos + |groups|] == groups
  }

  lemma FirstGroup(h: nat, bytes: seq<Byte>, limit: nat, pos: nat)
    requires Holds(bytes, limit, pos, Groups(h))
    ensures ReadByte(bytes, limit, pos) == (Ok(Groups(h)[0]), pos + 1)
    ensures h >= 128 ==> Holds(bytes, limit, pos + 1, Groups(h / 128)) && |Groups(h)| == 1 + |Groups(h / 128)|
    ensures h < 128 ==> |Groups(h)| == 1
  {
    var group := Groups(h);
    assert bytes[pos] == bytes[pos..pos + |group|][0];
    if h >= 128 {
      assert bytes[pos + 1..pos + |group|] == bytes[pos..pos + |group|][1..] == Groups(h / 128);
    }
  }

  lemma TenGroups(h: nat, g: nat)
    requires h * Pow128(g) < TWO64 && h >= 1
    ensures g <= 9
  {
    assert Pow128(5) == 0x8_0000_0000;
    assert Pow128(10) == 0x40_0000_0000_0000_0000;
    if g >= 10 {
      Pow128Grows(10, g);
      assert h * Pow128(g) >= Pow128(g) by { ProductBound(h, Pow128(g)); }
    }
  }

  lemma ProductBound(h: nat, p: nat)
    requires h >= 1
    ensures h * p >= p
  {
  }

  lemma {:induction false} Pow128Grows(j: nat, k: nat)
    requires j <= k
    ensures Pow128(j) <= Pow128(k)
  {
    if j < k {
      Pow128Grows(j, k - 1);
    }
  }

  lemma NextPlace(h: nat, p: nat)
    ensures h % 128 * p + h / 128 * (128 * p) == h * p && h % 128 * p <= h * p
    ensures h < 128 ==> h % 128 * p == h * p
  {
    assert h == 128 * (h / 128) + h % 128;
  }

  /** One round of the loop, over the first group of `h`. */
  lemma ReadRound(h: nat, g: nat, result: nat, bytes: seq<Byte>, limit: nat, pos: nat)
    requires g <= 9 && Holds(bytes, limit, pos, Groups(h))
    ensures var joined := Join(result, Groups(h)[0], g);
      ReadVarint(bytes, limit, pos, g, result) ==
        if h < 128 then (Ok(joined), pos + 1) else ReadVarint(bytes, limit, pos + 1, g + 1, joined)
  {
    FirstGroup(h, bytes, limit, pos);
    assert Groups(h)[0] < 128 <==> h < 128;
  }

  lemma JoinGroup(h: nat, g: nat, result: nat)
    requires result + h % 128 * Pow128(g) < TWO64
    ensures Groups(h) != [] && Join(result, Groups(h)[0], g) == result + h % 128 * Pow128(g)
  {
    FirstGroupOf(h);
    SmallSum(result + h % 128 * Pow128(g));
  }

  lemma FirstGroupOf(h: nat)
    ensures Groups(h) != [] && Groups(h)[0] % 128 == h % 128
  {
  }

  lemma SmallSum(x: nat)
    requires x < TWO64
    ensures x % TWO64 == x
  {
  }

  lemma NextRound(h: nat, g: nat, result: nat)
    requires result + h * Pow128(g) < TWO64
    ensures Groups(h) != []
    ensures Join(result, Groups(h)[0], g) + h / 128 * Pow128(g + 1) == result + h * Pow128(g)
    ensures h < 128 ==> Join(result, Groups(h)[0], g) == result + h * Pow128(g)
  {
    NextPlace(h, Pow128(g));
    JoinGroup(h, g, result);
  }

  /** After round `g - 1`, `total` has been read but for the groups of `h`. */
  predicate LeftToRead(h: nat, g: nat, result: nat, total: nat)
  {
    total == result + h * Pow128(g) && total < TWO64 && (g == 0 || h >= 1)
  }

  lemma OneRoundLess(h: nat, g: nat, result: nat, total: nat)
    requires LeftToRead(h, g, result, total)
    ensures Groups(h) != [] && g <= 9
    ensures var joined := Join(result, Groups(h)[0], g);
      if h < 128 then joined == total else LeftToRead(h / 128, g + 1, joined, total)
  {
    if h >= 1 {
      TenGroups(h, g);
    }
    NextRound(h, g, result);
  }

  /** What the rounds from `g` on join to `result`. */
  function JoinAll(result: nat, groups: seq<Byte>, g: nat): nat
    decreases |groups|
  {
    if groups == [] then result else JoinAll(Join(result, groups[0], g), groups[1..], g + 1)
  }

  lemma JoinFirst(h: nat, g: nat, result: nat)
    ensures Groups(h) != []
    ensures var joined := Join(result, Groups(h)[0], g);
      JoinAll(result, Groups(h), g) == if h < 128 then joined else JoinAll(joined, Groups(h / 128), g + 1)
    ensures |Groups(h)| == if h < 128 then 1 else 1 + |Groups(h / 128)|
  {
    assert h >= 128 ==> Groups(h)[1..] == Groups(h / 128);
  }

  lemma {:induction false} JoinAllIsTotal(h: nat, g: nat, result: nat, total: nat)
    requires LeftToRead(h, g, result, total)
    ensures JoinAll(result, Groups(h), g) == total && g + |Groups(h)| <= 10
    decreases h
  {
    JoinFirst(h, g, result);
    OneRoundLess(h, g, result, total);
    if h >= 128 {
      JoinAllIsTotal(h / 128, g + 1, Join(result, Groups(h)[0], g), total);
    }
  }

  /** The first group, and what is left to read. */
  lemma ReadsFirst(h: nat, g: nat, result: nat, bytes: seq<Byte>, limit: nat, pos: nat) returns (joined: nat)
    requires Holds(bytes, limit, pos, Groups(h)) && g <= 9
    ensures h < 128 ==>
      ReadVarint(bytes, limit, pos, g, result) == (Ok(JoinAll(result, Groups(h), g)), pos + |Groups(h)|)
    ensures h >= 128 ==>
      && ReadVarint(bytes, limit, pos, g, result) == ReadVarint(bytes, limit, pos + 1, g + 1, joined)
      && JoinAll(result, Groups(h), g) == JoinAll(joined, Groups(h / 128), g + 1)
      && Holds(bytes, limit, pos + 1, Groups(h / 128)) && |Groups(h)| == 1 + |Groups(h / 128)|
  {
    JoinFirst(h, g, result);
    FirstGroup(h, bytes, limit, pos);
    ReadRound(h, g, result, bytes, limit, pos);
    joined := Join(result, Groups(h)[0], g);
  }

  lemma {:induction false} ReadsAll(h: nat, g: nat, result: nat, bytes: seq<Byte>, limit: nat, pos: nat)
    requires Holds(bytes, limit, pos, Groups(h)) && g + |Groups(h)| <= 10
    ensures ReadVarint(bytes, limit, pos, g, result) == (Ok(JoinAll(result, Groups(h), g)), pos + |Groups(h)|)
    decreases h
  {
    FirstGroupOf(h);
    var joined := ReadsFirst(h, g, result, bytes, limit, pos);
    if h >= 128 {
      ReadsAll(h / 128, g + 1, joined, bytes, limit, pos + 1);
    }
  }

  /** Byte `pos + k` is readable and the first from `pos` on without a continuation bit. */
  predicate EndsAfter(bytes: seq<Byte>, limit: nat, pos: nat, k: nat)
  {
    pos + k < |bytes| && pos + k < limit && bytes[pos + k] < 128 && Continue(bytes, pos, pos + k)
  }

  predicate Continue(bytes: seq<Byte>, from: nat, to: nat)
    requires to <= |bytes|
  {
    forall j :: from <= j < to ==> bytes[j] >= 128
  }

  /** Reading succeeds exactly if one of the next ten bytes ends the varint before the buffer and the
      subsection do; it stops behind that byte. */
  lemma {:induction false} ReadOutcome(bytes: seq<Byte>, limit: nat, pos: nat, g: nat, result: nat)
    requires g <= 10
    ensures var (r, next) := ReadVarint(bytes, limit, pos, g, result);
      && (r.Ok? <==> exists k: nat :: g + k <= 9 && EndsAfter(bytes, limit, pos, k))
      && (r.Ok? ==> pos < next && EndsAfter(bytes, limit, pos, next - 1 - pos))
    decreases 10 - g
  {
    if g < 10 && pos < |bytes| && pos < limit {
      if bytes[pos] < 128 {
        assert EndsAfter(bytes, limit, pos, 0);
      } else {
        var next := pos + 1;
        ReadOutcome(bytes, limit, next, g + 1, Join(result, bytes[pos], g));
        forall k: nat | EndsAfter(bytes, limit, pos, k) ensures k > 0 && EndsAfter(bytes, limit, next, k - 1) {}
        forall k: nat | EndsAfter(bytes, limit, next, k) ensures EndsAfter(bytes, limit, pos, k + 1) {}
      }
    }
  }

  lemma JoinMore(result: nat, c: nat, n: nat, p: nat)
    ensures ((result + c * p) % TWO64 + n * (128 * p)) % TWO64 == (result + (c + 128 * n) * p) % TWO64
  {
    assert (c + 128 * n) * p == c * p + n * (128 * p);
    RemainderThenSum(result + c * p, n * (128 * p));
  }

  lemma RemainderThenSum(x: nat, y: nat)
    ensures (x % TWO64 + y) % TWO64 == (x + y) % TWO64
  {
  }

  lemma NumberFirst(bytes: seq<Byte>, pos: nat, next: nat)
    requires pos < next <= |bytes|
    ensures Number(bytes[pos..next]) == bytes[pos] % 128 + 128 * Number(bytes[pos + 1..next])
  {
    assert bytes[pos..next][1..] == bytes[pos + 1..next];
  }

  lemma JoinNumber(result: nat, b: Byte, g: nat, n: nat, whole: nat)
    requires whole == b % 128 + 128 * n
    ensures (Join(result, b, g) + n * Pow128(g + 1)) % TWO64 == (result + whole * Pow128(g)) % TWO64
    ensures n == 0 ==> Join(result, b, g) == (result + whole * Pow128(g)) % TWO64
  {
    JoinMore(result, b % 128, n, Pow128(g));
  }

  /** `value` is what joining these groups to `result`, from place `g` on, gives. */
  predicate Joined(value: nat, result: nat, groups: seq<Byte>, g: nat)
  {
    value == (result + Number(groups) * Pow128(g)) % TWO64
  }

  lemma JoinedFirst(value: nat, result: nat, bytes: seq<Byte>, pos: nat, next: nat, g: nat)
    requires pos < next <= |bytes| && Joined(value, Join(result, bytes[pos], g), bytes[pos + 1..next], g + 1)
    ensures Joined(value, result, bytes[pos..next], g)
  {
    NumberFirst(bytes, pos, next);
    JoinNumber(result, bytes[pos], g, Number(bytes[pos + 1..next]), Number(bytes[pos..next]));
  }

  lemma JoinedLast(result: nat, bytes: seq<Byte>, pos: nat, g: nat)
    requires pos < |bytes|
    ensures Joined(Join(result, bytes[pos], g), result, bytes[pos..pos + 1], g)
  {
    NumberFirst(bytes, pos, pos + 1);
    JoinNumber(result, bytes[pos], g, 0, Number(bytes[pos..pos + 1]));
  }

  lemma {:induction false} ReadValueFrom(bytes: seq<Byte>, limit: nat, pos: nat, g: nat, result: nat)
    requires g <= 10
    ensures var (r, next) := ReadVarint(bytes, limit, pos, g, result);
      r.Ok? ==> pos < next <= |bytes| && Joined(r.value, result, bytes[pos..next], g)
    decreases 10 - g
  {
    if g < 10 && pos < |bytes| && pos < limit {
      if bytes[pos] < 128 {
        JoinedLast(result, bytes, pos, g);
      } else {
        var joined := Join(result, bytes[pos], g);
        ReadValueFrom(bytes, limit, pos + 1, g + 1, joined);
        var (r, next) := ReadVarint(bytes, limit, pos + 1, g + 1, joined);
        if r.Ok? {
          JoinedFirst(r.value, result, bytes, pos, next, g);
        }
      }
    }
  }

  /** Whatever is read, canonical or not, is what its groups stand for, modulo 2^64. */
  lemma ReadValue(bytes: seq<Byte>, limit: nat, pos: nat)
    ensures var (r, next) := ReadVarint(bytes, limit, pos, 0, 0);
      r.Ok? ==> pos < next <= |bytes| && r.value == Number(bytes[pos..next]) % TWO64
  {
    ReadValueFrom(bytes, limit, pos, 0, 0);
    var (r, next) := ReadVarint(bytes, limit, pos, 0, 0);
    if r.Ok? {
      JoinedFromStart(r.value, Number(bytes[pos..next]), Pow128(0));
    }
  }

  lemma JoinedFromStart(value: nat, n: nat, p: nat)
    requires p == 1 && value == (0 + n * p) % TWO64
    ensures value == n % TWO64
  {
  }

  /** It is an invalid varint exactly if ten readable bytes all have continuation bits. */
  lemma {:induction false} InvalidVarintExactly(bytes: seq<Byte>, limit: nat, pos: nat, g: nat, result: nat)
    requires g <= 10
    ensures ReadVarint(bytes, limit, pos, g, result).0 == Err(InvalidVarint) <==>
      g == 10 || (pos + 10 - g <= |bytes| && pos + 10 - g <= limit && Continue(bytes, pos, pos + 10 - g))
    decreases 10 - g
  {
    if g < 10 && pos < |bytes| && pos < limit && bytes[pos] >= 128 {
      InvalidVarintExactly(bytes, limit, pos + 1, g + 1, Join(result, bytes[pos], g));
    }
  }

  /** How many readable bytes from `pos` on have continuation bits, up to the first byte that has none or is not
      readable. */
  function Continuing(bytes: seq<Byte>, limit: nat, pos: nat): nat
    decreases |bytes| - pos
  {
    if pos < |bytes| && pos < limit && bytes[pos] >= 128 then 1 + Continuing(bytes, limit, pos + 1) else 0
  }

  lemma {:induction false} ContinuingExact(bytes: seq<Byte>, limit: nat, pos: nat)
    ensures var end := pos + Continuing(bytes, limit, pos);
      && (pos < end ==> end <= |bytes| && end <= limit)
      && (forall j :: pos <= j < end ==> bytes[j] >= 128)
      && (end >= |bytes| || end >= limit || bytes[end] < 128)
    decreases |bytes| - pos
  {
    if pos < |bytes| && pos < limit && bytes[pos] >= 128 {
      ContinuingExact(bytes, limit, pos + 1);
      assert pos + Continuing(bytes, limit, pos) == pos + 1 + Continuing(bytes, limit, pos + 1);
    }
  }

  lemma ReadOn(bytes: seq<Byte>, limit: nat, pos: nat, g: nat, result: nat) returns (joined: nat)
    requires g < 10 && pos < |bytes| && pos < limit && bytes[pos] >= 128
    ensures ReadVarint(bytes, limit, pos, g, result) == ReadVarint(bytes, limit, pos + 1, g + 1, joined)
  {
    joined := Join(result, bytes[pos], g);
  }

  lemma ReadStops(bytes: seq<Byte>, limit: nat, pos: nat, g: nat, result: nat)
    requires g <= 10
    ensures var (r, next) := ReadVarint(bytes, limit, pos, g, result);
      && (g == 10 ==> r == Err(InvalidVarint) && next == pos)
      && (g < 10 && pos >= |bytes| ==> r == Err(InvalidSize) && next == pos)
      && (g < 10 && limit <= pos < |bytes| ==> r == Err(SubsectionLimitReached) && next == limit)
      && (g < 10 && pos < |bytes| && pos < limit && bytes[pos] < 128 ==> r.Ok? && next == pos + 1)
  {
  }

  /** What reading ends with, and where the reader then stands, in all cases. After ten bytes with continuation bits
      the varint is invalid, and the reader stands behind them. Otherwise the byte behind those with continuation bits
      decides: if the buffer has none it is an invalid size, and the reader stays at the end; if the subsection has
      none its limit is reached, and the reader goes to the limit; if there is one, it ends the varint. */
  lemma {:induction false} ReadEndsExactly(bytes: seq<Byte>, limit: nat, pos: nat, g: nat, result: nat)
    requires g <= 10
    ensures var (r, next) := ReadVarint(bytes, limit, pos, g, result);
      var k := Continuing(bytes, limit, pos);
      if g + k >= 10 then r == Err(InvalidVarint) && next == pos + 10 - g
      else if pos + k >= |bytes| then r == Err(InvalidSize) && next == pos + k
      else if pos + k >= limit then r == Err(SubsectionLimitReached) && next == limit
      else r.Ok? && next == pos + k + 1
    decreases 10 - g
  {
    if g < 10 && pos < |bytes| && pos < limit && bytes[pos] >= 128 {
      var joined := ReadOn(bytes, limit, pos, g, result);
      ReadEndsExactly(bytes, limit, pos + 1, g + 1, joined);
    } else {
      ReadStops(bytes, limit, pos, g, result);
    }
  }

  /** Round trip: reading where the groups of a 64-bit integer are gives the integer, and stops right
      behind them. */
  lemma ReadBack(v: nat, bytes: seq<Byte>, limit: nat, pos: nat)
    requires v < TWO64 && Holds(bytes, limit, pos, Groups(v))
    ensures ReadVarint(bytes, limit, pos, 0, 0) == (Ok(v), pos + |Groups(v)|)
  {
    assert LeftToRead(v, 0, 0, v);
    JoinAllIsTotal(v, 0, 0, v);
    ReadsAll(v, 0, 0, bytes, limit, pos);
  }

  /* ----- words ----- */

  /** `(value & ~0x7F) == 0`. */
  predicate Fits(v: bv64)
  {
    v & 0xFFFF_FFFF_FFFF_FF80 == 0
  }

  /** `(value & 0x7F) | 0x80`. */
  function Continued(v: bv64): bv64
  {
    (v & 0x7F) | 0x80
  }

  lemma FitsBits(v: bv64)
    ensures Fits(v) <==> LogicalRightShift64(v, 7) == 0
    ensures LogicalRightShift64(v, 7) == v >> 7
  {
  }

  lemma ContinuedBits(v: bv64)
    ensures Continued(v) >> 7 == 1 && Mask(Continued(v), 0x7F) == Mask(v, 0x7F)
  {
  }

  lemma ValueOfOne()
    ensures Value(1) == 1 && Value(0) == 0
  {
    assert Half(1) == 0 && Odd(1);
    Unfold(1);
  }

  /** The writer's word operations are the steps of `Groups`. */
  lemma GroupOfWord(v: bv64)
    ensures Fits(v) <==> Value(v) < 128
    ensures Value(Continued(v)) == Value(v) % 128 + 128
    ensures Value(LogicalRightShift64(v, 7)) == Value(v) / 128
  {
    FitsBits(v);
    Septet(v);
    ValueOfOne();
    if Value(v) / 128 == 0 {
      ValueIsInjective(LogicalRightShift64(v, 7), 0);
    }
    ContinuedBits(v);
    Septet(Continued(v));
  }

  /** The same for 32-bit words. */
  predicate Fits32(v: bv32)
  {
    v & 0xFFFF_FF80 == 0
  }

  function Continued32(v: bv32): bv32
  {
    (v & 0x7F) | 0x80
  }

  lemma FitsBits32(v: bv32)
    ensures Fits32(v) <==> Fits(Widen(v))
  {
  }

  lemma ContinuedBits32(v: bv32)
    ensures Widen(Continued32(v)) == Continued(Widen(v))
  {
  }

  lemma WidenedShift(v: bv32)
    ensures (v >> 7) as bv64 == (v as bv64) >> 7
  {
  }

  lemma ShiftBits32(v: bv32)
    ensures Widen(LogicalRightShift32(v, 7)) == LogicalRightShift64(Widen(v), 7)
  {
    WidenedShift(v);
    assert LogicalRightShift32(v, 7) == v >> 7;
  }

  lemma GroupOfWord32(v: bv32)
    ensures Fits32(v) <==> Unsigned32(v) < 128
    ensures Unsigned32(Continued32(v)) == Unsigned32(v) % 128 + 128
    ensures Unsigned32(LogicalRightShift32(v, 7)) == Unsigned32(v) / 128
  {
    FitsBits32(v);
    ContinuedBits32(v);
    ShiftBits32(v);
    GroupOfWord(Widen(v));
  }

  /* ----- the reader's word operations ----- */

  lemma {:induction false} GroupPlaces(g: nat)
    ensures Pow2(7 * g) == Pow128(g)
  {
    if g > 0 {
      GroupPlaces(g - 1);
      SevenPlaces(7 * (g - 1));
    }
  }

  lemma SevenPlaces(n: nat)
    ensures Pow2(n + 7) == 128 * Pow2(n)
  {
    assert Pow2(n + 2) == 4 * Pow2(n);
    assert Pow2(n + 4) == 4 * Pow2(n + 2);
    assert Pow2(n + 6) == 4 * Pow2(n + 4);
  }

  /** `result | (b & 0x7F) << shift`, on words. */
  function JoinWord(result: bv64, b: bv64, shift: bv32): bv64
    requires shift <= 64
  {
    Or(result, ShiftLeft(Mask(b, 0x7F), shift))
  }

  lemma WithinModulus(total: nat, a: nat, y: nat)
    requires total == a + y % TWO64 && total < TWO64
    ensures total == (a + y) % TWO64
  {
  }

  lemma ByteWord(b: Byte)
    ensures Value(WordOf(b)) == b && Value(Mask(WordOf(b), 0x7F)) == b % 128
  {
    WordOfExact(b);
    Septet(WordOf(b));
  }

  lemma JoinWordIsSum(result: bv64, group: bv64, g: nat)
    requires g <= 9 && Value(result) < Pow2(7 * g) && ShiftOf(g) < 64
    ensures Value(Or(result, ShiftLeft(group, ShiftOf(g)))) == Value(result) + Value(group) * Pow2(7 * g) % TWO64
  {
    ShiftIsDoubling(group, g);
    LowBitsApart(result, group, 7 * g);
    OrIsSum(result, DoubledTimes(group, 7 * g));
    DoubledTimesIsProduct(group, 7 * g);
  }

  /** The groups read so far have no bits in common with the next one, so the word operations join them as
      addition does; what is shifted out at the top is lost in both. */
  lemma JoinWordIsJoin(result: bv64, b: Byte, g: nat)
    requires g <= 9 && Value(result) < Pow128(g) && ShiftOf(g) < 64
    ensures Value(JoinWord(result, WordOf(b), ShiftOf(g))) == Join(Value(result), b, g)
  {
    ByteWord(b);
    GroupPlaces(g);
    JoinWordIsSum(result, Mask(WordOf(b), 0x7F), g);
    Bounds64(JoinWord(result, WordOf(b), ShiftOf(g)));
    JoinAsRemainder(Value(JoinWord(result, WordOf(b), ShiftOf(g))), Value(result), b, g, Pow2(7 * g));
  }

  lemma JoinAsRemainder(total: nat, result: nat, b: Byte, g: nat, p: nat)
    requires p == Pow128(g) && total < TWO64 && total == result + b % 128 * p % TWO64
    ensures total == Join(result, b, g)
  {
    WithinModulus(total, result, b % 128 * p);
  }

  lemma JoinedFits(result: nat, b: Byte, g: nat)
    requires result < Pow128(g)
    ensures Join(result, b, g) < Pow128(g + 1)
  {
    SumFits(result, b % 128, Pow128(g));
    RemainderAtMost(result + b % 128 * Pow128(g));
  }

  lemma SumFits(result: nat, group: nat, p: nat)
    requires result < p && group < 128
    ensures result + group * p < 128 * p
  {
    assert group * p <= 127 * p;
  }

  lemma RemainderAtMost(x: nat)
    ensures x % TWO64 <= x
  {
  }

  /** `(b & 0x80) == 0`. */
  predicate EndsVarint(b: bv64)
  {
    b & 0x80 == 0
  }

  lemma HighBitClear(b: bv64)
    requires SevenRight(b) == 0
    ensures EndsVarint(b)
  {
  }

  lemma HighBitSet(b: bv64)
    requires SevenRight(b) == 1
    ensures !EndsVarint(b)
  {
  }

  lemma HighBitOfByte(b: Byte)
    ensures SevenRight(WordOf(b)) == if b < 128 then 0 else 1
  {
    WordOfExact(b);
    RestOfWord(WordOf(b));
    ValueOfOne();
    ValueIsInjective(SevenRight(WordOf(b)), if b < 128 then 0 else 1);
  }

  lemma EndsVarintExactly(b: Byte)
    ensures EndsVarint(WordOf(b)) <==> b < 128
  {
    HighBitOfByte(b);
    if b < 128 {
      HighBitClear(WordOf(b));
    } else {
      HighBitSet(WordOf(b));
    }
  }

  /* ----- the input stream ----- */

  /** The input stream: a buffer, a position in it, and the limit of the current subsection. */
  class InputStream {
    const bytes: seq<Byte>
    var position: nat
    var currentLimit: nat

    constructor (bytes: seq<Byte>)
      ensures this.bytes == bytes && position == 0 && currentLimit == |bytes|
    {
      this.bytes := bytes;
      position := 0;
      currentLimit := |bytes|;
    }

    method ReadRawByte() returns (r: Result<Byte>)
      modifies this`position
      ensures (r, position) == ReadByte(bytes, currentLimit, old(position))
    {
      if position + 1 > |bytes| {
        return Err(InvalidSize);
      }
      if position + 1 > currentLimit {
        position := currentLimit;
        return Err(SubsectionLimitReached);
      }
      r := Ok(bytes[position]);
      position := position + 1;
    }

    method ReadRawVarint64() returns (r: Result<bv64>)
      modifies this`position
      ensures var (raw, next) := ReadVarint(bytes, currentLimit, old(position), 0, 0);
        position == next && r == if raw.Ok? then Ok(WordOf(raw.value)) else Err(raw.error)
    {
      var shift: bv32, result: bv64 := 0, 0;
      ghost var g := 0;
      ValueOfOne();
      while shift < 64
        invariant g <= 10 && shift == ShiftOf(g) && Value(result) < Pow128(g)
        invariant ReadVarint(bytes, currentLimit, old(position), 0, 0) ==
          ReadVarint(bytes, currentLimit, position, g, Value(result))
        decreases 10 - g
      {
        ShiftsInRange(g);
        var b := ReadRawByte();
        if b.Err? {
          return Err(b.error);
        }
        JoinWordIsJoin(result, b.value, g);
        JoinedFits(Value(result), b.value, g);
        result := JoinWord(result, WordOf(b.value), shift);
        EndsVarintExactly(b.value);
        if EndsVarint(WordOf(b.value)) {
          WordOfValue(result);
          return Ok(result);
        }
        shift := SevenMore(shift);
        g := g + 1;
      }
      ShiftsInRange(g);
      return Err(InvalidVarint);
    }

    /** The integer is sign-agnostic: what a negative int32 was extended by is cut off. */
    method ReadInt32() returns (r: Result<bv32>)
      modifies this`position
      ensures var (raw, next) := ReadVarint(bytes, currentLimit, old(position), 0, 0);
        position == next && r == if raw.Ok? then Ok(Truncate(WordOf(raw.value))) else Err(raw.error)
    {
      var raw := ReadRawVarint64();
      r := if raw.Ok? then Ok(Truncate(raw.value)) else Err(raw.error);
    }

    method ReadSInt32() returns (r: Result<bv32>)
      modifies this`position
      ensures var (raw, next) := ReadVarint(bytes, currentLimit, old(position), 0, 0);
        position == next && r == if raw.Ok? then Ok(DecodeZigZag32(Truncate(WordOf(raw.value)))) else Err(raw.error)
    {
      var raw := ReadInt32();
      r := if raw.Ok? then Ok(DecodeZigZag32(raw.value)) else Err(raw.error);
    }

    method ReadSInt64() returns (r: Result<bv64>)
      modifies this`position
      ensures var (raw, next) := ReadVarint(bytes, currentLimit, old(position), 0, 0);
        position == next && r == if raw.Ok? then Ok(DecodeZigZag64(WordOf(raw.value))) else Err(raw.error)
    {
      var raw := ReadRawVarint64();
      r := if raw.Ok? then Ok(DecodeZigZag64(raw.value)) else Err(raw.error);
    }
  }

  /** What the three readers make of any integer below 2^64, canonical or not: the low 32 bits, or the integer whose
      ZigZag number these are, or whose ZigZag number it is. */
  lemma ReadersExactly(v: nat)
    requires v < TWO64
    ensures Unsigned32(Truncate(WordOf(v))) == v % 0x1_0000_0000
    ensures Zig(Signed32(DecodeZigZag32(Truncate(WordOf(v))))) == v % 0x1_0000_0000
    ensures Zig(Signed64(DecodeZigZag64(WordOf(v)))) == v
  {
    WordOfExact(v);
    TruncateIsRemainder(WordOf(v));
    DecodersAreArithmetic(WordOf(v), Truncate(WordOf(v)));
  }

  /* ----- what is written is what is read ----- */

  /** Written by WriteSInt64NoTag, read by ReadSInt64. */
  lemma SInt64RoundTrip(n: bv64, bytes: seq<Byte>, limit: nat, pos: nat)
    requires Holds(bytes, limit, pos, Groups(Zig(Signed64(n))))
    ensures var (raw, next) := ReadVarint(bytes, limit, pos, 0, 0);
      raw.Ok? && DecodeZigZag64(WordOf(raw.value)) == n && next == pos + |Groups(Zig(Signed64(n)))|
  {
    Encode64IsArithmetic(n);
    Bounds64(EncodeZigZag64(n));
    ReadBack(Zig(Signed64(n)), bytes, limit, pos);
    WordOfValue(EncodeZigZag64(n));
    DecodeEncode64(n);
  }

  /** Written by WriteSInt32NoTag, read by ReadSInt32. */
  lemma SInt32RoundTrip(n: bv32, bytes: seq<Byte>, limit: nat, pos: nat)
    requires Holds(bytes, limit, pos, Groups(Zig(Signed32(n))))
    ensures var (raw, next) := ReadVarint(bytes, limit, pos, 0, 0);
      raw.Ok? && DecodeZigZag32(Truncate(WordOf(raw.value))) == n && next == pos + |Groups(Zig(Signed32(n)))|
  {
    Encode32IsArithmetic(n);
    Bounds32(EncodeZigZag32(n));
    ReadBack(Zig(Signed32(n)), bytes, limit, pos);
    WordOfValue(Widen(EncodeZigZag32(n)));
    TruncateExtended(EncodeZigZag32(n));
    DecodeEncode32(n);
  }

  /** Written by WriteInt32NoTag, read by ReadInt32. */
  lemma Int32RoundTrip(n: bv32, bytes: seq<Byte>, limit: nat, pos: nat)
    requires Holds(bytes, limit, pos, Groups(Value(SignExtend(n))))
    ensures var (raw, next) := ReadVarint(bytes, limit, pos, 0, 0);
      raw.Ok? && Truncate(WordOf(raw.value)) == n && next == pos + |Groups(Value(SignExtend(n)))|
  {
    Bounds64(SignExtend(n));
    ReadBack(Value(SignExtend(n)), bytes, limit, pos);
    WordOfValue(SignExtend(n));
    TruncateExtended(n);
  }

  /* ----- sizes ----- */

  lemma Pow128Values()
    ensures Pow128(5) == 0x8_0000_0000 && Pow128(9) == 0x8000_0000_0000_0000 && Pow128(10) == 0x40_0000_0000_0000_0000
  {
    assert Pow128(3) == 0x20_0000;
    assert Pow128(6) == 0x400_0000_0000;
  }

  /** A ZigZag-encoded integer takes at most k bytes exactly if it lies from -2^(7k-1) to 2^(7k-1) - 1. */
  lemma ZigZagSize(n: int, k: nat)
    requires k > 0
    ensures |Groups(Zig(n))| <= k <==> -2 * n <= Pow128(k) && 2 * n < Pow128(k)
  {
    GroupCount(Zig(n), k);
    assert Pow128(k) == 128 * Pow128(k - 1);
  }

  /** An sint32 never takes more than 5 bytes, an sint64 never more than 10. */
  lemma SIntSizes(n: bv32, m: bv64)
    ensures |Groups(Zig(Signed32(n)))| <= 5 && |Groups(Zig(Signed64(m)))| <= 10
  {
    Pow128Values();
    Encode32IsArithmetic(n);
    Bounds32(EncodeZigZag32(n));
    GroupCount(Zig(Signed32(n)), 5);
    Encode64IsArithmetic(m);
    Bounds64(EncodeZigZag64(m));
    GroupCount(Zig(Signed64(m)), 10);
  }

  /** Without ZigZag, a negative int64 always takes 10 bytes. */
  lemma NegativeSize(n: bv64)
    requires n >= SIGN64
    ensures |Groups(Value(n))| == 10
  {
    Pow128Values();
    Bounds64(n);
    GroupCount(Value(n), 9);
    GroupCount(Value(n), 10);
  }

  /** Without ZigZag, a negative int32 always takes 10 bytes, and no other takes more than 5. */
  lemma Int32Size(n: bv32)
    ensures if n >= SIGN32 then |Groups(Value(SignExtend(n)))| == 10 else |Groups(Value(SignExtend(n)))| <= 5
  {
    Pow128Values();
    ExtensionBits(n);
    Bounds64(SignExtend(n));
    Bounds32(n);
    GroupCount(Value(SignExtend(n)), 5);
    GroupCount(Value(SignExtend(n)), 9);
    GroupCount(Value(SignExtend(n)), 10);
  }
}
