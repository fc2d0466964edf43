/** The checksum of snapshot files (src/PersistentStorage.cpp): add each byte, then mix in its position. */
module SnapshotChecksum {
  import Common

  type byte = bv8

  /** A running 32-bit sum. */
  datatype Sum = Sum(bits: bv32)

  function Plus(x: bv32, y: bv32): bv32 {
    x + y
  }

  function Add(s: Sum, b: byte): Sum {
    Sum(Plus(s.bits, b as bv32))
  }

  /** The low 32 bits of a position. */
  function Low32(i: nat): bv32 {
    (i % Common.UINT32_RANGE) as bv32
  }

  /** The position factor: the position shifted left by eight. */
  function Factor(i: nat): Sum {
    Sum(Low32(i) << 8)
  }

  function Flipped(x: bv32, f: bv32): bv32 {
    x ^ f
  }

  function Mix(s: Sum, f: Sum): Sum {
    Sum(Flipped(s.bits, f.bits))
  }

  /** One turn of the loop: the byte at position i. */
  function Feed(s: Sum, b: byte, i: nat): Sum {
    Mix(Add(s, b), Factor(i))
  }

  /** A state after the bytes that start at position i, one step a byte. */
  function Fold<S>(step: (S, byte, nat) -> S, s: S, data: seq<byte>, i: nat): S
    decreases |data|
  {
    if data == [] then s else Fold(step, step(s, data[0], i), data[1..], i + 1)
  }

  /** The sum after the bytes that start at position i. */
  function Total(s: Sum, data: seq<byte>, i: nat): Sum {
    Fold(Feed, s, data, i)
  }

  function Checksum(data: seq<byte>): Sum {
    Total(Sum(0), data, 0)
  }

  method CalculateChecksum(data: array<byte>) returns (sum: bv32)
    ensures Sum(sum) == Checksum(data[..])
  {
    sum := 0;
    for i := 0 to data.Length
      invariant Checksum(data[..]) == Total(Sum(sum), data[i..], i)
    {
      sum := FeedByte(sum, data[i], i);
      assert data[i..][1..] == data[i + 1..];
    }
  }

  /** The body of the loop. */
  method FeedByte(sum: bv32, b: byte, i: nat) returns (next: bv32)
    ensures Sum(next) == Feed(Sum(sum), b, i)
  {
    TurnIsFeed(sum, b, Low32(i), i);
    next := sum + b as bv32;
    next := next ^ (Low32(i) << 8);
  }

  lemma TurnIsFeed(sum: bv32, b: byte, x: bv32, i: nat)
    requires x == Low32(i)
    ensures Sum((sum + b as bv32) ^ (x << 8)) == Feed(Sum(sum), b, i)
  {
  }

  lemma MixInjective(s: Sum, t: Sum, f: Sum)
    ensures Mix(s, f) == Mix(t, f) <==> s == t
  {
    assert Mix(Mix(s, f), f) == s && Mix(Mix(t, f), f) == t by {
      MixCancels(s, f);
      MixCancels(t, f);
    }
  }

  lemma MixCancels(s: Sum, f: Sum)
    ensures Mix(Mix(s, f), f) == s
  {
  }

  lemma AddInjective(s: Sum, t: Sum, b: byte)
    ensures Add(s, b) == Add(t, b) <==> s == t
  {
    Cancels(s.bits, t.bits, b as bv32);
  }

  lemma AddTellsBytes(s: Sum, b: byte, c: byte)
    ensures Add(s, b) == Add(s, c) <==> b == c
  {
  }

  lemma {:induction false} TotalInjective(s: Sum, t: Sum, data: seq<byte>, i: nat)
    ensures Total(s, data, i) == Total(t, data, i) <==> s == t
    decreases |data|
  {
    if data == [] {
    } else {
      TotalInjective(Feed(s, data[0], i), Feed(t, data[0], i), data[1..], i + 1);
      MixInjective(Add(s, data[0]), Add(t, data[0]), Factor(i));
      AddInjective(s, t, data[0]);
    }
  }

  lemma {:induction false} FoldAppend<S>(step: (S, byte, nat) -> S, s: S, a: seq<byte>, b: seq<byte>, i: nat)
    ensures Fold(step, s, a + b, i) == Fold(step, Fold(step, s, a, i), b, i + |a|)
    decreases |a|
  {
    if a == [] {
      assert a + b == b;
    } else {
      FoldAppend(step, step(s, a[0], i), a[1..], b, i + 1);
      assert (a + b)[1..] == a[1..] + b;
    }
  }

  lemma TotalAppend(s: Sum, a: seq<byte>, b: seq<byte>, i: nat)
    ensures Total(s, a + b, i) == Total(Total(s, a, i), b, i + |a|)
  {
    FoldAppend(Feed, s, a, b, i);
  }

  lemma OneFeed(s: Sum, a: byte, i: nat)
    ensures Total(s, [a], i) == Feed(s, a, i)
  {
    FoldOne(Feed, s, a, i);
  }

  lemma FoldOne<S>(step: (S, byte, nat) -> S, s: S, a: byte, i: nat)
    ensures Fold(step, s, [a], i) == step(s, a, i)
  {
    var data := [a];
    assert data[1..] == [];
    assert Fold(step, step(s, a, i), data[1..], i + 1) == step(s, a, i);
  }

  /** Overwriting one byte changes the checksum exactly when it changes the byte. */
  lemma OneByteChanged(data: seq<byte>, k: nat, b: byte)
    requires k < |data|
    ensures Checksum(data[k := b]) == Checksum(data) <==> b == data[k]
  {
    var s, tail := Total(Sum(0), data[..k], 0), data[k + 1..];
    assert data == data[..k] + ([data[k]] + tail) && data[k := b] == data[..k] + ([b] + tail);
    TotalAppend(Sum(0), data[..k], [data[k]] + tail, 0);
    TotalAppend(Sum(0), data[..k], [b] + tail, 0);
    TotalInjective(Feed(s, data[k], k), Feed(s, b, k), tail, k + 1);
    MixInjective(Add(s, data[k]), Add(s, b), Factor(k));
    AddTellsBytes(s, data[k], b);
    assert ([data[k]] + tail)[1..] == tail && ([b] + tail)[1..] == tail;
  }

  // ---------- The position factor as a number ----------

  function Even(half: bv32): bv32 {
    half << 1
  }

  function Odd(half: bv32): bv32 {
    (half << 1) | 1
  }

  lemma Doubles(half: bv32)
    requires half < 0x8000_0000
    ensures (half << 1) as int == 2 * (half as int) && ((half << 1) | 1) as int == 2 * (half as int) + 1
  {
  }

  lemma EvenOdd(half: bv32)
    requires half < 0x8000_0000
    ensures Even(half) as int == 2 * (half as int) && Odd(half) as int == 2 * (half as int) + 1
  {
    Doubles(half);
  }

  lemma Below31(w: bv32)
    requires w as int < 0x8000_0000
    ensures w < 0x8000_0000
  {
  }

  lemma Below24(w: bv32)
    requires w as int < 0x100_0000
    ensures w < 0x100_0000
  {
  }

  lemma Below8(w: bv32)
    requires w as int < 0x100
    ensures w < 0x100
  {
  }

  /** The 32 bits of a number. */
  lemma {:induction false} BitsOf(n: nat) returns (w: bv32)
    requires n < Common.UINT32_RANGE
    ensures w as int == n
  {
    if n == 0 {
      w := 0;
    } else {
      var half := BitsOf(n / 2);
      Below31(half);
      EvenOdd(half);
      w := if n % 2 == 0 then Even(half) else Odd(half);
    }
  }

  lemma BackAndForth(w: bv32, n: nat)
    requires w as int == n
    ensures n as bv32 == w
  {
  }

  function Joined(top: bv32, rest: bv32): bv32 {
    (top << 24) | rest
  }

  function Times256(w: bv32): bv32 {
    w << 8
  }

  lemma Concatenation(top: bv32, rest: bv32)
    requires top < 0x100 && rest < 0x100_0000
    ensures ((top << 24) | rest) as int == (top as int) * 0x100_0000 + rest as int
  {
  }

  lemma JoinedIs(top: bv32, rest: bv32)
    requires top < 0x100 && rest < 0x100_0000
    ensures Joined(top, rest) as int == (top as int) * 0x100_0000 + rest as int
  {
    Concatenation(top, rest);
  }

  lemma TopShiftedOut(top: bv32, rest: bv32)
    ensures Times256(Joined(top, rest)) == Times256(rest)
  {
  }

  lemma ShiftedByByte(w: bv32)
    requires w < 0x100_0000
    ensures (w << 8) as int == 256 * (w as int)
  {
  }

  lemma Times256Is(w: bv32)
    requires w < 0x100_0000
    ensures Times256(w) as int == 256 * (w as int)
  {
    ShiftedByByte(w);
  }

  lemma JoinedBits(n: nat, top: bv32, rest: bv32)
    requires n < Common.UINT32_RANGE && top as int == n / 0x100_0000 && rest as int == n % 0x100_0000
    ensures n as bv32 == Joined(top, rest)
  {
    Below8(top);
    Below24(rest);
    JoinedIs(top, rest);
    BackAndForth(Joined(top, rest), n);
  }

  lemma ProductBits(n: nat, rest: bv32)
    requires rest as int == n % 0x100_0000
    ensures (256 * (n % 0x100_0000)) as bv32 == Times256(rest)
  {
    Below24(rest);
    Times256Is(rest);
    BackAndForth(Times256(rest), 256 * (n % 0x100_0000));
  }

  lemma ProductWraps(i: nat)
    ensures (256 * i) % Common.UINT32_RANGE == 256 * (i % Common.UINT32_RANGE % 0x100_0000)
  {
  }

  /** A position shifted left by eight bits is 256 times the position, as far as 32 bits go. */
  lemma FactorIsProduct(i: nat)
    ensures Factor(i).bits == ((256 * i) % Common.UINT32_RANGE) as bv32
  {
    var n := i % Common.UINT32_RANGE;
    var top := BitsOf(n / 0x100_0000);
    var rest := BitsOf(n % 0x100_0000);
    JoinedBits(n, top, rest);
    TopShiftedOut(top, rest);
    ProductBits(n, rest);
    ProductWraps(i);
  }

  lemma MixedFactor(s: Sum, b: byte, i: nat)
    ensures Feed(s, b, i).bits == (s.bits + b as bv32) ^ Factor(i).bits
  {
    AddedAndFlipped(s.bits, b as bv32, Factor(i).bits);
  }

  lemma AddedAndFlipped(x: bv32, y: bv32, f: bv32)
    ensures Flipped(Plus(x, y), f) == (x + y) ^ f
  {
  }

  /** One byte more: the byte is added to the sum, and 256 times its position is mixed in, all in 32 bits. */
  lemma OneByteMore(data: seq<byte>, b: byte)
    ensures Checksum([]).bits == 0
    ensures Checksum(data + [b]).bits == (Checksum(data).bits + b as bv32) ^ ((256 * |data|) % Common.UINT32_RANGE) as bv32
  {
    TotalAppend(Sum(0), data, [b], 0);
    OneFeed(Checksum(data), b, |data|);
    MixedFactor(Checksum(data), b, |data|);
    FactorIsProduct(|data|);
  }

  // ---------- The low byte ----------

  function LowByte(s: Sum): byte {
    (s.bits & 0xFF) as byte
  }

  /** The bytes added one by one to `start`, modulo 256. */
  function ByteSum(start: byte, data: seq<byte>): byte
    decreases |data|
  {
    if data == [] then start else ByteSum(start + data[0], data[1..])
  }

  lemma FeedLowByte(s: Sum, b: byte, i: nat)
    ensures LowByte(Feed(s, b, i)) == LowByte(s) + b
  {
    MixKeepsLowByte(Add(s, b), Low32(i));
    AddLowByte(s, b);
  }

  lemma MixKeepsLowByte(s: Sum, x: bv32)
    ensures LowByte(Mix(s, Sum(x << 8))) == LowByte(s)
  {
  }

  lemma AddLowByte(s: Sum, b: byte)
    ensures LowByte(Add(s, b)) == LowByte(s) + b
  {
  }

  lemma {:induction false} TotalLowByte(s: Sum, data: seq<byte>, i: nat)
    ensures LowByte(Total(s, data, i)) == ByteSum(LowByte(s), data)
    decreases |data|
  {
    if data == [] {
    } else {
      FeedLowByte(s, data[0], i);
      TotalLowByte(Feed(s, data[0], i), data[1..], i + 1);
    }
  }

  /** Positions only reach the upper 24 bits: the low byte of the checksum is the plain byte sum. */
  lemma ChecksumLowByte(data: seq<byte>)
    ensures LowByte(Checksum(data)) == ByteSum(0, data)
  {
    TotalLowByte(Sum(0), data, 0);
  }

  // ---------- Addition and exclusive or ----------

  lemma Nested(x: bv32, y: bv32, z: bv32)
    ensures Plus(Plus(x, y), z) == Plus(x + y, z)
  {
  }

  lemma Flat(x: bv32, y: bv32, z: bv32)
    ensures Plus(x + y, z) == (x + y) + z
  {
  }

  lemma Swaps(x: bv32, y: bv32, z: bv32)
    ensures Plus(Plus(x, y), z) == Plus(Plus(x, z), y)
  {
    calc {
      Plus(Plus(x, y), z);
      { Nested(x, y, z); Flat(x, y, z); }
      (x + y) + z;
      (x + z) + y;
      { Nested(x, z, y); Flat(x, z, y); }
      Plus(Plus(x, z), y);
    }
  }

  lemma Commutes(x: bv32, y: bv32)
    ensures Plus(x, y) == Plus(y, x)
  {
  }

  lemma TakeBack(x: bv32, z: bv32)
    ensures Plus(Plus(x, z), 0 - z) == x
  {
    calc {
      Plus(Plus(x, z), 0 - z);
      { Nested(x, z, 0 - z); Flat(x, z, 0 - z); }
      (x + z) + (0 - z);
      x;
    }
  }

  lemma Cancels(x: bv32, y: bv32, z: bv32)
    ensures Plus(x, z) == Plus(y, z) <==> x == y
  {
    TakeBack(x, z);
    TakeBack(y, z);
  }

  /** Adding numbers without a common bit needs no carries. */
  lemma DisjointSum(x: bv32, y: bv32)
    requires x & y == 0
    ensures Plus(x, y) == x | y
  {
  }

  lemma PartBits(x: bv32, f: bv32)
    ensures (x & !f) & (x & f) == 0 && (x & !f) | (x & f) == x
  {
  }

  lemma Parts(x: bv32, f: bv32)
    ensures Plus(x & !f, x & f) == x
  {
    PartBits(x, f);
    DisjointSum(x & !f, x & f);
  }

  lemma XorBits(x: bv32, f: bv32)
    ensures (x & !f) & (f & !x) == 0 && (x & !f) | (f & !x) == x ^ f
  {
  }

  lemma XorParts(x: bv32, f: bv32)
    ensures Plus(x & !f, f & !x) == x ^ f
  {
    XorBits(x, f);
    DisjointSum(x & !f, f & !x);
  }

  /** Exclusive or is addition without the carries of the common bits. */
  lemma XorIsSum(x: bv32, f: bv32)
    ensures Plus(Plus(x ^ f, x & f), x & f) == Plus(x, f)
  {
    Parts(x, f);
    Parts(f, x);
    XorParts(x, f);
    TwoPairs(x & !f, f & !x, x & f);
  }

  lemma TwoPairs(d: bv32, e: bv32, u: bv32)
    ensures Plus(Plus(Plus(d, e), u), u) == Plus(Plus(d, u), Plus(e, u))
  {
    calc {
      Plus(Plus(Plus(d, e), u), u);
      { Swaps(d, e, u); }
      Plus(Plus(Plus(d, u), e), u);
      { Associates(Plus(d, u), e, u); }
      Plus(Plus(d, u), Plus(e, u));
    }
  }

  lemma Associates(x: bv32, y: bv32, z: bv32)
    ensures Plus(Plus(x, y), z) == Plus(x, Plus(y, z))
  {
    calc {
      Plus(Plus(x, y), z);
      { Commutes(x, y); }
      Plus(Plus(y, x), z);
      { Swaps(y, x, z); }
      Plus(Plus(y, z), x);
      { Commutes(Plus(y, z), x); }
      Plus(x, Plus(y, z));
    }
  }

  // ---------- What the position factor does not see ----------

  lemma Collect(p: bv32, u: bv32, b: bv32)
    ensures Plus(Plus(p, b), Plus(u, u)) == Plus(Plus(Plus(p, u), u), b)
  {
    calc {
      Plus(Plus(p, b), Plus(u, u));
      { Associates(Plus(p, b), u, u); }
      Plus(Plus(Plus(p, b), u), u);
      { Swaps(p, b, u); }
      Plus(Plus(Plus(p, u), b), u);
      { Swaps(Plus(p, u), b, u); }
      Plus(Plus(Plus(p, u), u), b);
    }
  }

  lemma Balance(p: bv32, u: bv32, x: bv32, f: bv32, b: bv32)
    requires Plus(Plus(p, u), u) == Plus(x, f)
    ensures Plus(Plus(p, b), Plus(u, u)) == Plus(Plus(x, b), f)
  {
    Collect(p, u, b);
    Swaps(x, f, b);
  }

  lemma SameBalance(p: bv32, q: bv32, u: bv32, v: bv32)
    requires Plus(p, u) == Plus(q, v)
    ensures p == q <==> u == v
  {
    Commutes(p, u);
    Commutes(q, v);
    Cancels(u, v, p);
    Cancels(p, q, u);
  }

  function Doubled(u: bv32): bv32 {
    u << 1
  }

  function Low31(u: bv32): bv32 {
    u & 0x7FFF_FFFF
  }

  /** The set bits two numbers have in common. */
  function Shared(x: bv32, f: bv32): bv32 {
    x & f
  }

  lemma PlusItself(u: bv32)
    ensures Plus(u, u) == Doubled(u)
  {
  }

  function Halved(d: bv32): bv32 {
    d >> 1
  }

  lemma DoublingLosesTop(u: bv32)
    ensures Halved(Doubled(u)) == Low31(u) && Doubled(Low31(u)) == Doubled(u)
  {
  }

  lemma DoublesAgree(u: bv32, v: bv32)
    ensures Plus(u, u) == Plus(v, v) <==> Low31(u) == Low31(v)
  {
    PlusItself(u);
    PlusItself(v);
    DoublingLosesTop(u);
    DoublingLosesTop(v);
  }

  lemma FlipIsSum(x: bv32, f: bv32)
    ensures Plus(Plus(Flipped(x, f), Shared(x, f)), Shared(x, f)) == Plus(x, f)
  {
    XorIsSum(x, f);
  }

  lemma Weigh(p: bv32, u: bv32, x: bv32, b: bv32, q: bv32, v: bv32, y: bv32, a: bv32, f: bv32)
    requires Plus(Plus(p, u), u) == Plus(x, f) && Plus(Plus(q, v), v) == Plus(y, f) && Plus(x, b) == Plus(y, a)
    ensures Plus(p, b) == Plus(q, a) <==> Plus(u, u) == Plus(v, v)
  {
    Balance(p, u, x, f, b);
    Balance(q, v, y, f, a);
    SameBalance(Plus(p, b), Plus(q, a), Plus(u, u), Plus(v, v));
  }

  lemma WeighLow(p: bv32, u: bv32, x: bv32, b: bv32, q: bv32, v: bv32, y: bv32, a: bv32, f: bv32)
    requires Plus(Plus(p, u), u) == Plus(x, f) && Plus(Plus(q, v), v) == Plus(y, f) && Plus(x, b) == Plus(y, a)
    ensures Plus(p, b) == Plus(q, a) <==> Low31(u) == Low31(v)
  {
    Weigh(p, u, x, b, q, v, y, a, f);
    DoublesAgree(u, v);
  }

  lemma FlippedThenAdded(x: bv32, y: bv32, f: bv32, a: bv32, b: bv32)
    requires Plus(x, b) == Plus(y, a)
    ensures Plus(Flipped(x, f), b) == Plus(Flipped(y, f), a) <==> Low31(Shared(x, f)) == Low31(Shared(y, f))
  {
    FlipIsSum(x, f);
    FlipIsSum(y, f);
    WeighLow(Flipped(x, f), Shared(x, f), x, b, Flipped(y, f), Shared(y, f), y, a, f);
  }

  lemma TwoFeeds(s: Sum, a: byte, b: byte, i: nat)
    ensures Total(s, [a, b], i) == Feed(Feed(s, a, i), b, i + 1)
  {
    assert [a] + [b] == [a, b];
    TotalAppend(s, [a], [b], i);
    OneFeed(s, a, i);
    OneFeed(Feed(s, a, i), b, i + 1);
  }

  lemma AroundPair(head: seq<byte>, a: byte, b: byte, tail: seq<byte>)
    ensures var s, n := Total(Sum(0), head, 0), |head|;
            Checksum(head + [a, b] + tail) == Total(Feed(Feed(s, a, n), b, n + 1), tail, n + 2)
  {
    TotalAppend(Sum(0), head + [a, b], tail, 0);
    TotalAppend(Sum(0), head, [a, b], 0);
    TwoFeeds(Total(Sum(0), head, 0), a, b, |head|);
  }

  /** The bits of the running sum after `head` and one more byte that the position factor flips, but for the highest. */
  function FlippedBits(head: seq<byte>, a: byte): bv32 {
    Low31(Shared(Add(Total(Sum(0), head, 0), a).bits, Factor(|head|).bits))
  }

  /**
   * Exchanging two neighbouring bytes goes unnoticed exactly when the position factor meets the same bits
   * of the running sum either way: flipping bits is then the same as adding a constant.
   */
  lemma ExchangeUnnoticedIff(head: seq<byte>, a: byte, b: byte, tail: seq<byte>)
    ensures Checksum(head + [a, b] + tail) == Checksum(head + [b, a] + tail)
       <==> FlippedBits(head, a) == FlippedBits(head, b)
  {
    var s, n := Total(Sum(0), head, 0), |head|;
    var x, y, f := Add(s, a).bits, Add(s, b).bits, Factor(n).bits;
    AroundPair(head, a, b, tail);
    AroundPair(head, b, a, tail);
    TotalInjective(Feed(Feed(s, a, n), b, n + 1), Feed(Feed(s, b, n), a, n + 1), tail, n + 2);
    MixInjective(Add(Feed(s, a, n), b), Add(Feed(s, b, n), a), Factor(n + 1));
    Swaps(s.bits, a as bv32, b as bv32);
    FlippedThenAdded(x, y, f, a as bv32, b as bv32);
  }

  lemma ZeroFlipsNothing(x: bv32)
    ensures Low31(Shared(x, 0)) == 0
  {
  }

  /** Where the position factor is zero, an exchange is never noticed: so for the first two bytes. */
  lemma ExchangeAtZeroFactor(head: seq<byte>, a: byte, b: byte, tail: seq<byte>)
    requires Factor(|head|) == Sum(0)
    ensures Checksum(head + [a, b] + tail) == Checksum(head + [b, a] + tail)
  {
    var s := Total(Sum(0), head, 0);
    ZeroFlipsNothing(Add(s, a).bits);
    ZeroFlipsNothing(Add(s, b).bits);
    ExchangeUnnoticedIff(head, a, b, tail);
  }

  lemma SwapOfFirstTwoUnnoticed(a: byte, b: byte, tail: seq<byte>)
    ensures Checksum([a, b] + tail) == Checksum([b, a] + tail)
  {
    assert Factor(0) == Sum(0);
    ExchangeAtZeroFactor([], a, b, tail);
    assert [] + [a, b] == [a, b] && [] + [b, a] == [b, a];
  }

  /** At any position, an exchange that carries nothing out of the low byte either way is never noticed. */
  lemma ExchangeWithoutCarry(head: seq<byte>, a: byte, b: byte, tail: seq<byte>)
    requires var low := LowByte(Total(Sum(0), head, 0)) as int; low + a as int < 256 && low + b as int < 256
    ensures Checksum(head + [a, b] + tail) == Checksum(head + [b, a] + tail)
  {
    ExchangeUnnoticedIff(head, a, b, tail);
  }

  lemma FirstByteAdded()
    ensures Total(Sum(0), [255], 0) == Sum(255)
  {
    OneFeed(Sum(0), 255, 0);
    assert Factor(0) == Sum(0);
    assert Add(Sum(0), 255) == Sum(255);
  }

  /** With a carry it can be noticed. */
  lemma ExchangeNoticed(tail: seq<byte>)
    ensures Checksum([255] + [1, 0] + tail) != Checksum([255] + [0, 1] + tail)
  {
    FirstByteAdded();
    assert Factor(1) == Sum(256);
    assert FlippedBits([255], 1) == 256 && FlippedBits([255], 0) == 0;
    ExchangeUnnoticedIff([255], 1, 0, tail);
  }
}
