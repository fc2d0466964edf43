/**
 * The CRC-32 of include/Common.h, a bit-by-bit loop, against the table-driven update of section 8 of
 * RFC 1952, and what the checksum detects.
 */
module Crc32 {
  type byte = bv8

  /** A 32-bit register. Proofs treat it as an element of a group under Xor and look inside only where bits matter. */
  datatype Word = Word(bits: bv32)

  const POLY := Word(0xEDB88320)
  const ONES := Word(0xFFFFFFFF)
  const ZERO := Word(0)

  function Xor(a: Word, b: Word): Word {
    Word(a.bits ^ b.bits)
  }

  function FromByte(b: byte): Word {
    Word(b as bv32)
  }

  function Half(c: Word): Word {
    Word(c.bits >> 1)
  }

  predicate Odd(c: Word) {
    c.bits & 1 == 1
  }

  /** One turn of the inner loop: shift right, and subtract the polynomial when a one falls out. */
  function Shift(crc: Word): Word {
    if Odd(crc) then Xor(Half(crc), POLY) else Half(crc)
  }

  function Shifts(crc: Word, n: nat): Word
    decreases n
  {
    if n == 0 then crc else Shifts(Shift(crc), n - 1)
  }

  /** The running register after all bytes. */
  function Update(crc: Word, data: seq<byte>): Word
    decreases |data|
  {
    if data == [] then crc else Update(Shifts(Xor(crc, FromByte(data[0])), 8), data[1..])
  }

  function Crc(data: seq<byte>): Word {
    Xor(Update(ONES, data), ONES)
  }

  method CalculateChecksum(data: array<byte>) returns (checksum: bv32)
    ensures Word(checksum) == Crc(data[..])
  {
    var crc: bv32 := 0xFFFFFFFF;
    for i := 0 to data.Length
      invariant Update(ONES, data[..]) == Update(Word(crc), data[i..])
    {
      crc := FeedByte(crc, data[i]);
      assert data[i..][1..] == data[i + 1..];
    }
    return crc ^ 0xFFFFFFFF;
  }

  /** The body of the outer loop. */
  method FeedByte(crc: bv32, b: byte) returns (next: bv32)
    ensures Word(next) == Shifts(Xor(Word(crc), FromByte(b)), 8)
  {
    next := crc ^ b as bv32;
    ghost var start := Word(next);
    for j := 0 to 8
      invariant Shifts(start, 8) == Shifts(Word(next), 8 - j)
    {
      TurnIsShift(next);
      next := (next >> 1) ^ (if next & 1 == 1 then 0xEDB88320 else 0);
    }
  }

  lemma TurnIsShift(crc: bv32)
    ensures Word((crc >> 1) ^ (if crc & 1 == 1 then 0xEDB88320 else 0)) == Shift(Word(crc))
  {
    if crc & 1 == 1 {
    } else {
    }
  }

  // ---------- The reference algorithm: section 8 of RFC 1952 ----------

  /** One step of make_crc_table. */
  function TableStep(c: Word): Word {
    if Odd(c) then Xor(POLY, Half(c)) else Half(c)
  }

  function TableSteps(c: Word, n: nat): Word {
    if n == 0 then c else TableStep(TableSteps(c, n - 1))
  }

  function TableEntry(n: byte): Word {
    TableSteps(FromByte(n), 8)
  }

  function LowByte(x: Word): byte {
    (x.bits & 0xFF) as byte
  }

  function DropByte(x: Word): Word {
    Word(x.bits >> 8)
  }

  /** The loop of update_crc. */
  function TableUpdate(c: Word, data: seq<byte>): Word
    decreases |data|
  {
    if data == [] then c
    else TableUpdate(Xor(TableEntry(LowByte(Xor(c, FromByte(data[0])))), DropByte(c)), data[1..])
  }

  function ReferenceCrc(data: seq<byte>): Word {
    Xor(TableUpdate(Xor(ZERO, ONES), data), ONES)
  }

  // ---------- Linearity ----------

  lemma Associative(a: Word, b: Word, c: Word)
    ensures Xor(Xor(a, b), c) == Xor(a, Xor(b, c))
  {
  }

  lemma Commutative(a: Word, b: Word)
    ensures Xor(a, b) == Xor(b, a)
  {
  }

  lemma Cancel(a: Word, b: Word)
    ensures Xor(Xor(a, b), b) == a
  {
  }

  lemma Neutral(a: Word)
    ensures Xor(a, ZERO) == a && Xor(ZERO, a) == a
  {
  }

  lemma SelfInverse(a: Word)
    ensures Xor(a, a) == ZERO
  {
  }

  lemma LeftInjective(a: Word, b: Word, c: Word)
    ensures Xor(a, c) == Xor(b, c) <==> a == b
    ensures Xor(c, a) == Xor(c, b) <==> a == b
  {
    Cancel(a, c);
    Cancel(b, c);
    Commutative(a, c);
    Commutative(b, c);
  }

  lemma Exchange(a: Word, b: Word, c: Word, d: Word)
    ensures Xor(Xor(a, b), Xor(c, d)) == Xor(Xor(a, c), Xor(b, d))
  {
    Associative(a, b, Xor(c, d));
    Associative(b, c, d);
    Commutative(b, c);
    Associative(c, b, d);
    Associative(a, c, Xor(b, d));
  }

  lemma HalfXor(a: Word, b: Word)
    ensures Half(Xor(a, b)) == Xor(Half(a), Half(b))
  {
  }

  lemma OddXor(a: Word, b: Word)
    ensures Odd(Xor(a, b)) <==> Odd(a) != Odd(b)
  {
  }

  lemma ShiftXor(a: Word, b: Word)
    ensures Shift(Xor(a, b)) == Xor(Shift(a), Shift(b))
  {
    HalfXor(a, b);
    OddXor(a, b);
    var x, y := Half(a), Half(b);
    Associative(x, y, POLY);
    Associative(x, POLY, y);
    Commutative(POLY, y);
    Exchange(x, POLY, y, POLY);
    SelfInverse(POLY);
    Neutral(Xor(x, y));
  }

  lemma {:induction false} ShiftsXor(a: Word, b: Word, n: nat)
    ensures Shifts(Xor(a, b), n) == Xor(Shifts(a, n), Shifts(b, n))
    decreases n
  {
    if n == 0 {
    } else {
      ShiftXor(a, b);
      ShiftsXor(Shift(a), Shift(b), n - 1);
    }
  }

  lemma {:induction false} ShiftsAdd(a: Word, m: nat, n: nat)
    ensures Shifts(a, m + n) == Shifts(Shifts(a, m), n)
    decreases m
  {
    if m == 0 {
    } else {
      ShiftsAdd(Shift(a), m - 1, n);
    }
  }

  /** A register moved left by up to eight bits. */
  function Up(x: Word, k: bv8): Word
    requires k <= 8
  {
    Word(x.bits << k)
  }

  /** At most three bytes wide. */
  predicate Narrow(x: Word) {
    x.bits >> 24 == 0
  }

  lemma HalfOfUp(x: Word, k: bv8)
    requires Narrow(x) && k <= 7
    ensures !Odd(Up(x, k + 1)) && Half(Up(x, k + 1)) == Up(x, k)
  {
  }

  lemma OneDown(x: Word, k: bv8, n: nat)
    requires Narrow(x) && k <= 7
    ensures Shifts(Up(x, k + 1), n + 1) == Shifts(Up(x, k), n)
  {
    HalfOfUp(x, k);
  }

  /** Eight shifts bring a register back that was moved left by eight bits: only zeros fall out. */
  lemma ShiftsOfUp(x: Word)
    requires Narrow(x)
    ensures Shifts(Up(x, 8), 8) == x
  {
    OneDown(x, 7, 7);
    OneDown(x, 6, 6);
    OneDown(x, 5, 5);
    OneDown(x, 4, 4);
    OneDown(x, 3, 3);
    OneDown(x, 2, 2);
    OneDown(x, 1, 1);
    OneDown(x, 0, 0);
  }

  /** Eight shifts act on the low byte of a register and bring the rest down. */
  lemma ShiftsOverByte(y: Word, low: Word, high: Word)
    requires y == Xor(low, Up(high, 8)) && Narrow(high)
    ensures Shifts(y, 8) == Xor(Shifts(low, 8), high)
  {
    ShiftsXor(low, Up(high, 8), 8);
    ShiftsOfUp(high);
  }

  // ---------- The loop computes the reference ----------

  lemma {:induction false} TableStepsAreShifts(c: Word, n: nat)
    ensures TableSteps(c, n) == Shifts(c, n)
  {
    if n == 0 {
    } else {
      TableStepsAreShifts(c, n - 1);
      ShiftsAdd(c, n - 1, 1);
      var d := Shifts(c, n - 1);
      assert Shifts(d, 1) == Shifts(Shift(d), 0);
      Commutative(Half(d), POLY);
    }
  }

  lemma SplitLowByte(c: Word)
    ensures c == Xor(FromByte(LowByte(c)), Up(DropByte(c), 8)) && Narrow(DropByte(c))
  {
  }

  lemma DropByteIgnores(c: Word, b: byte)
    ensures DropByte(Xor(c, FromByte(b))) == DropByte(c)
  {
  }

  /** By linearity one byte of the loop is one table look-up. */
  lemma OneByte(c: Word, b: byte)
    ensures Shifts(Xor(c, FromByte(b)), 8) == Xor(TableEntry(LowByte(Xor(c, FromByte(b)))), DropByte(c))
  {
    var y := Xor(c, FromByte(b));
    DropByteIgnores(c, b);
    EightShifts(y);
  }

  lemma EightShifts(y: Word)
    ensures Shifts(y, 8) == Xor(TableEntry(LowByte(y)), DropByte(y))
  {
    SplitLowByte(y);
    ShiftsOverByte(y, FromByte(LowByte(y)), DropByte(y));
    TableStepsAreShifts(FromByte(LowByte(y)), 8);
  }

  lemma {:induction false} UpdateIsTableUpdate(c: Word, data: seq<byte>)
    ensures Update(c, data) == TableUpdate(c, data)
    decreases |data|
  {
    if data == [] {
    } else {
      OneByte(c, data[0]);
      UpdateIsTableUpdate(Shifts(Xor(c, FromByte(data[0])), 8), data[1..]);
    }
  }

  /** For every byte string the bit-by-bit loop gives the CRC of RFC 1952. */
  lemma CrcIsReferenceCrc(data: seq<byte>)
    ensures Crc(data) == ReferenceCrc(data)
  {
    Neutral(ONES);
    UpdateIsTableUpdate(ONES, data);
  }

  // ---------- Injectivity ----------

  predicate TopBit(c: Word) {
    c.bits & 0x80000000 != 0
  }

  function Double(c: Word, bit: bv32): Word {
    Word((c.bits << 1) | bit)
  }

  /** Undoes a shift: the top bit of the polynomial tells whether a one fell out. */
  function Unshift(c: Word): Word {
    if TopBit(c) then Double(Xor(c, POLY), 1) else Double(c, 0)
  }

  lemma DoubleHalf(a: Word)
    ensures a == Double(Half(a), if Odd(a) then 1 else 0)
    ensures !TopBit(Half(a)) && TopBit(Xor(Half(a), POLY))
  {
  }

  lemma ShiftReversible(a: Word)
    ensures Unshift(Shift(a)) == a
  {
    DoubleHalf(a);
    Cancel(Half(a), POLY);
  }

  lemma {:induction false} ShiftsInjective(a: Word, b: Word, n: nat)
    ensures Shifts(a, n) == Shifts(b, n) <==> a == b
    decreases n
  {
    if n == 0 {
    } else {
      ShiftsInjective(Shift(a), Shift(b), n - 1);
      ShiftReversible(a);
      ShiftReversible(b);
    }
  }

  lemma {:induction false} UpdateInjective(a: Word, b: Word, data: seq<byte>)
    ensures Update(a, data) == Update(b, data) <==> a == b
    decreases |data|
  {
    if data == [] {
    } else {
      var d := FromByte(data[0]);
      UpdateInjective(Shifts(Xor(a, d), 8), Shifts(Xor(b, d), 8), data[1..]);
      ShiftsInjective(Xor(a, d), Xor(b, d), 8);
      LeftInjective(a, b, d);
    }
  }

  lemma {:induction false} UpdateAppend(c: Word, a: seq<byte>, b: seq<byte>)
    ensures Update(c, a + b) == Update(Update(c, a), b)
    decreases |a|
  {
    if a == [] {
      assert a + b == b;
    } else {
      UpdateAppend(Shifts(Xor(c, FromByte(a[0])), 8), a[1..], b);
      assert (a + b)[1..] == a[1..] + b;
    }
  }

  // ---------- Windows of at most four bytes ----------

  /** Up to four bytes as a little-endian word. */
  function Little(w: seq<byte>): Word
    requires |w| <= 4
    decreases |w|
  {
    if w == [] then ZERO else Xor(FromByte(w[0]), Up(Little(w[1..]), 8))
  }

  lemma AddByte(b: byte, x: Word)
    requires Narrow(x)
    ensures LowByte(Xor(FromByte(b), Up(x, 8))) == b && DropByte(Xor(FromByte(b), Up(x, 8))) == x
  {
  }

  /** Adding a byte below widens a register by one byte. */
  lemma Widens(b: byte, x: Word)
    ensures x == ZERO ==> Xor(FromByte(b), Up(x, 8)).bits >> 8 == 0
    ensures x.bits >> 8 == 0 ==> Xor(FromByte(b), Up(x, 8)).bits >> 16 == 0
    ensures x.bits >> 16 == 0 ==> Xor(FromByte(b), Up(x, 8)).bits >> 24 == 0
  {
  }

  lemma ShorterIsNarrow(x: Word)
    ensures (x == ZERO || x.bits >> 8 == 0 || x.bits >> 16 == 0) ==> Narrow(x)
  {
  }

  lemma {:induction false} LittleFits(w: seq<byte>)
    requires |w| <= 3
    ensures |w| == 0 ==> Little(w) == ZERO
    ensures |w| == 1 ==> Little(w).bits >> 8 == 0
    ensures |w| == 2 ==> Little(w).bits >> 16 == 0
    ensures Narrow(Little(w))
    decreases |w|
  {
    if w == [] {
    } else {
      LittleFits(w[1..]);
      Widens(w[0], Little(w[1..]));
    }
    ShorterIsNarrow(Little(w));
  }

  lemma {:induction false} LittleInjective(v: seq<byte>, w: seq<byte>)
    requires |v| == |w| <= 4
    ensures Little(v) == Little(w) <==> v == w
    decreases |v|
  {
    if v == [] {
    } else {
      LittleFits(v[1..]);
      LittleFits(w[1..]);
      AddByte(v[0], Little(v[1..]));
      AddByte(w[0], Little(w[1..]));
      LittleInjective(v[1..], w[1..]);
      assert v == [v[0]] + v[1..] && w == [w[0]] + w[1..];
    }
  }

  /** Feeding up to four bytes is feeding their little-endian word at once. */
  lemma {:induction false} WindowUpdate(c: Word, w: seq<byte>)
    requires |w| <= 4
    ensures Update(c, w) == Shifts(Xor(c, Little(w)), 8 * |w|)
    decreases |w|
  {
    if w == [] {
      Neutral(c);
    } else {
      var b, x := FromByte(w[0]), Little(w[1..]);
      LittleFits(w[1..]);
      Associative(c, b, Up(x, 8));
      ShiftsAdd(Xor(c, Little(w)), 8, 8 * |w| - 8);
      ShiftsOverByte(Xor(c, Little(w)), Xor(c, b), x);
      WindowUpdate(Shifts(Xor(c, b), 8), w[1..]);
    }
  }

  /** With the same beginning and end, the CRC tells windows of up to four bytes apart. */
  lemma WindowInjective(head: seq<byte>, v: seq<byte>, w: seq<byte>, tail: seq<byte>)
    requires |v| == |w| <= 4
    ensures Crc(head + v + tail) == Crc(head + w + tail) <==> v == w
  {
    var s := Update(ONES, head);
    UpdateAppend(ONES, head, v);
    UpdateAppend(ONES, head, w);
    UpdateAppend(ONES, head + v, tail);
    UpdateAppend(ONES, head + w, tail);
    UpdateInjective(Update(s, v), Update(s, w), tail);
    WindowUpdate(s, v);
    WindowUpdate(s, w);
    ShiftsInjective(Xor(s, Little(v)), Xor(s, Little(w)), 8 * |v|);
    LeftInjective(Little(v), Little(w), s);
    LittleInjective(v, w);
    LeftInjective(Update(ONES, head + v + tail), Update(ONES, head + w + tail), ONES);
  }

  /** Two messages that differ at most inside a window of four bytes have equal CRCs only if they are equal. */
  lemma BurstDetected(a: seq<byte>, b: seq<byte>, lo: nat, hi: nat)
    requires |a| == |b| && lo <= hi <= |a| && hi - lo <= 4
    requires a[..lo] == b[..lo] && a[hi..] == b[hi..]
    ensures Crc(a) == Crc(b) <==> a == b
  {
    var v, w := a[lo..hi], b[lo..hi];
    assert a == a[..lo] + v + a[hi..] && b == a[..lo] + w + a[hi..];
    WindowInjective(a[..lo], v, w, a[hi..]);
  }

  // ---------- Residue ----------

  function LittleBytes(x: Word): seq<byte> {
    [LowByte(x), LowByte(DropByte(x)), LowByte(DropByte(DropByte(x))), LowByte(DropByte(DropByte(DropByte(x))))]
  }

  lemma FourDrops(x: Word)
    ensures DropByte(DropByte(DropByte(DropByte(x)))) == ZERO
  {
  }

  lemma LittleOfBytes(x: Word)
    ensures Little(LittleBytes(x)) == x
  {
    var w := LittleBytes(x);
    var y := DropByte(x);
    var z := DropByte(y);
    var u := DropByte(z);
    SplitLowByte(x);
    SplitLowByte(y);
    SplitLowByte(z);
    SplitLowByte(u);
    FourDrops(x);
    assert w[1..] == [LowByte(y), LowByte(z), LowByte(u)];
    assert w[1..][1..] == [LowByte(z), LowByte(u)] && w[1..][1..][1..] == [LowByte(u)];
    assert Little([LowByte(u)]) == u;
    assert Little([LowByte(z), LowByte(u)]) == z;
    assert Little([LowByte(y), LowByte(z), LowByte(u)]) == y;
  }

  lemma ResidueRegister()
    ensures Shifts(ONES, 32) == Word(0xDEBB20E3)
  {
    ShiftsAdd(ONES, 8, 24);
    ShiftsAdd(Word(0x2DFD1072), 8, 16);
    ShiftsAdd(Word(0xBE26ED00), 8, 8);
    assert Shifts(ONES, 8) == Word(0x2DFD1072);
    assert Shifts(Word(0x2DFD1072), 8) == Word(0xBE26ED00);
    assert Shifts(Word(0xBE26ED00), 8) == Word(0x00BE26ED);
    assert Shifts(Word(0x00BE26ED), 8) == Word(0xDEBB20E3);
  }

  /** A message followed by its own CRC in little-endian order always has the CRC 0x2144DF1C. */
  lemma Residue(m: seq<byte>)
    ensures Crc(m + LittleBytes(Crc(m))) == Word(0x2144DF1C)
  {
    var s, c := Update(ONES, m), Crc(m);
    UpdateAppend(ONES, m, LittleBytes(c));
    WindowUpdate(s, LittleBytes(c));
    LittleOfBytes(c);
    Associative(s, s, ONES);
    SelfInverse(s);
    Neutral(ONES);
    ResidueRegister();
    assert |LittleBytes(c)| == 4 && Xor(s, c) == ONES;
    assert Update(s, LittleBytes(c)) == Shifts(ONES, 32);
    assert Xor(Word(0xDEBB20E3), ONES) == Word(0x2144DF1C);
  }

  // ---------- Differences ----------

  function XorBytes(a: seq<byte>, b: seq<byte>): (c: seq<byte>)
    requires |a| == |b|
    ensures |c| == |a|
  {
    seq(|a|, i requires 0 <= i < |a| => a[i] ^ b[i])
  }

  function Zeros(n: nat): seq<byte> {
    seq(n, _ => 0)
  }

  lemma FromByteXor(a: byte, b: byte)
    ensures FromByte(a ^ b) == Xor(FromByte(a), FromByte(b))
  {
  }

  lemma FeedXor(c: Word, d: Word, a: byte, b: byte)
    ensures Shifts(Xor(Xor(c, d), FromByte(a ^ b)), 8)
         == Xor(Shifts(Xor(c, FromByte(a)), 8), Shifts(Xor(d, FromByte(b)), 8))
  {
    FromByteXor(a, b);
    Exchange(c, d, FromByte(a), FromByte(b));
    ShiftsXor(Xor(c, FromByte(a)), Xor(d, FromByte(b)), 8);
  }

  lemma {:induction false} UpdateXor(c: Word, d: Word, a: seq<byte>, b: seq<byte>)
    requires |a| == |b|
    ensures Update(Xor(c, d), XorBytes(a, b)) == Xor(Update(c, a), Update(d, b))
    decreases |a|
  {
    if a == [] {
    } else {
      FeedXor(c, d, a[0], b[0]);
      assert XorBytes(a, b)[1..] == XorBytes(a[1..], b[1..]);
      UpdateXor(Shifts(Xor(c, FromByte(a[0])), 8), Shifts(Xor(d, FromByte(b[0])), 8), a[1..], b[1..]);
    }
  }

  /** The CRC of a difference is the difference of the CRCs, up to the CRC of equally many zeros. */
  lemma CrcOfXor(a: seq<byte>, b: seq<byte>)
    requires |a| == |b|
    ensures Crc(XorBytes(a, b)) == Xor(Xor(Crc(a), Crc(b)), Crc(Zeros(|a|)))
  {
    var z := Zeros(|a|);
    var ua, ub, uz := Update(ONES, a), Update(ONES, b), Update(ONES, z);
    UpdateXor(ONES, ONES, a, b);
    UpdateXor(Xor(ONES, ONES), ONES, XorBytes(a, b), z);
    assert XorBytes(XorBytes(a, b), z) == XorBytes(a, b) by {
      ZeroByte(XorBytes(a, b));
    }
    SelfInverse(ONES);
    Neutral(ONES);
    Exchange(ua, ONES, ub, ONES);
    Neutral(Xor(ua, ub));
    Associative(Xor(ua, ub), uz, ONES);
  }

  lemma ZeroByte(a: seq<byte>)
    ensures XorBytes(a, Zeros(|a|)) == a
  {
  }

  /** The shortest difference that goes unnoticed: five bytes, the polynomial itself. */
  const BLIND: seq<byte> := [0x01, 0x96, 0x30, 0x07, 0x77]

  lemma BlindRegister()
    ensures Update(ZERO, BLIND) == ZERO
  {
    Neutral(FromByte(0x01));
    assert Shifts(Word(1), 8) == Word(0x77073096);
    assert BLIND[1..] == [0x96, 0x30, 0x07, 0x77];
    var w := BLIND[1..];
    WindowUpdate(Word(0x77073096), w);
    LittleOfBytes(Word(0x77073096));
    assert w == LittleBytes(Word(0x77073096));
    SelfInverse(Word(0x77073096));
    ZeroStays(32);
  }

  lemma {:induction false} ZeroStays(n: nat)
    ensures Shifts(ZERO, n) == ZERO
    decreases n
  {
    if n == 0 {
    } else {
      ZeroStays(n - 1);
    }
  }

  /** Four bytes is the limit: every window of five bytes can be changed without changing the CRC. */
  lemma FiveBytesEscape(head: seq<byte>, w: seq<byte>, tail: seq<byte>)
    requires |w| == 5
    ensures XorBytes(w, BLIND) != w
    ensures Crc(head + XorBytes(w, BLIND) + tail) == Crc(head + w + tail)
  {
    var s := Update(ONES, head);
    UpdateXor(s, ZERO, w, BLIND);
    Neutral(s);
    BlindRegister();
    Neutral(Update(s, w));
    UpdateAppend(ONES, head, w);
    UpdateAppend(ONES, head, XorBytes(w, BLIND));
    UpdateAppend(ONES, head + w, tail);
    UpdateAppend(ONES, head + XorBytes(w, BLIND), tail);
    assert XorBytes(w, BLIND)[0] == w[0] ^ 0x01;
  }
}
