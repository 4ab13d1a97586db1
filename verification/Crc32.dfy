/** CRC-32 (section 8 of RFC 1952): the table-driven loop against the bit-serial definition. */
module Crc32 {
  const POLYNOMIAL: bv32 := 0xEDB88320
  const ONES: bv32 := 0xFFFF_FFFF

  function Xor(a: bv32, b: bv32): bv32 { a ^ b }

  function Half(c: bv32): bv32 { c >> 1 }

  /** One shift of the register. */
  function Shift(c: bv32): bv32 {
    if c & 1 == 1 then POLYNOMIAL ^ (c >> 1) else c >> 1
  }

  function Shifts(c: bv32, n: nat): bv32
    decreases n
  {
    if n == 0 then c else Shifts(Shift(c), n - 1)
  }

  /** One message bit, the lowest of r, enters the register. */
  function AddBit(c: bv32, r: bv32): bv32 {
    Shift(c ^ (r & 1))
  }

  /** The n low bits of r enter the register one by one, least significant first. */
  function AddBits(c: bv32, r: bv32, n: nat): bv32
    decreases n
  {
    if n == 0 then c else AddBits(AddBit(c, r), Half(r), n - 1)
  }

  function AddByte(c: bv32, u: bv8): bv32 {
    AddBits(c, u as bv32, 8)
  }

  function AddBytes(c: bv32, buffer: seq<bv8>): bv32 {
    if buffer == [] then c else AddByte(AddBytes(c, buffer[..|buffer| - 1]), buffer[|buffer| - 1])
  }

  /** The checksum of `buffer` continuing from `start`, bit by bit. */
  function Crc(start: bv32, buffer: seq<bv8>): bv32 {
    Xor(AddBytes(Xor(start, ONES), buffer), ONES)
  }

  // --- the register is linear and loses nothing -----------------------------------------------

  predicate Odd(c: bv32) { c & 1 == 1 }

  function Mix(odd: bool, half: bv32): bv32 {
    if odd then Xor(POLYNOMIAL, half) else half
  }

  lemma ShiftIsMix(c: bv32)
    ensures Shift(c) == Mix(Odd(c), Half(c))
  {
  }

  lemma HalfOfXor(a: bv32, b: bv32)
    ensures Half(Xor(a, b)) == Xor(Half(a), Half(b))
  {
  }

  lemma OddOfXor(a: bv32, b: bv32)
    ensures Odd(Xor(a, b)) == (Odd(a) != Odd(b))
  {
  }

  lemma XorAssociative(a: bv32, b: bv32, c: bv32)
    ensures Xor(Xor(a, b), c) == Xor(a, Xor(b, c))
  {
  }

  lemma XorCommutative(a: bv32, b: bv32)
    ensures Xor(a, b) == Xor(b, a)
  {
  }

  lemma XorUndoes(p: bv32, x: bv32)
    ensures Xor(p, Xor(p, x)) == x
  {
  }

  lemma XorLaws(p: bv32, x: bv32, y: bv32)
    ensures Xor(Xor(p, x), y) == Xor(p, Xor(x, y))
    ensures Xor(x, Xor(p, y)) == Xor(p, Xor(x, y))
    ensures Xor(Xor(p, x), Xor(p, y)) == Xor(x, y)
  {
    hide Xor;
    XorAssociative(p, x, y);
    XorAssociative(x, p, y);
    XorCommutative(x, p);
    XorAssociative(p, x, Xor(p, y));
    XorUndoes(p, Xor(x, y));
  }

  lemma ShiftLinear(a: bv32, b: bv32)
    ensures Shift(Xor(a, b)) == Xor(Shift(a), Shift(b))
  {
    hide Shift, Xor, Half, Odd;
    ShiftIsMix(a);
    ShiftIsMix(b);
    ShiftIsMix(Xor(a, b));
    HalfOfXor(a, b);
    OddOfXor(a, b);
    XorLaws(POLYNOMIAL, Half(a), Half(b));
  }

  lemma {:induction false} ShiftsLinear(a: bv32, b: bv32, n: nat)
    ensures Shifts(Xor(a, b), n) == Xor(Shifts(a, n), Shifts(b, n))
    decreases n
  {
    hide Shift, Xor;
    if n > 0 {
      ShiftLinear(a, b);
      ShiftsLinear(Shift(a), Shift(b), n - 1);
    }
  }

  lemma ShiftInjective(a: bv32, b: bv32)
    ensures Shift(a) == Shift(b) ==> a == b
  {
  }

  lemma {:induction false} ShiftsInjective(a: bv32, b: bv32, n: nat)
    ensures Shifts(a, n) == Shifts(b, n) ==> a == b
    decreases n
  {
    hide Shift;
    if n > 0 {
      ShiftInjective(a, b);
      ShiftsInjective(Shift(a), Shift(b), n - 1);
    }
  }

  // --- a byte at a time -----------------------------------------------------------------------

  function Halves(r: bv32, n: nat): bv32
    decreases n
  {
    if n == 0 then r else Halves(Half(r), n - 1)
  }

  lemma EvenShift(c: bv32)
    requires c & 1 == 0
    ensures Shift(c) == Half(c)
  {
  }

  lemma SplitLowBit(c: bv32, r: bv32)
    ensures var rest := r ^ (r & 1); rest & 1 == 0 && rest >> 1 == r >> 1
    ensures (c ^ (r & 1)) ^ (r ^ (r & 1)) == c ^ r
  {
  }

  lemma OneBit(c: bv32, r: bv32)
    ensures Xor(AddBit(c, r), Half(r)) == Shift(Xor(c, r))
  {
    SplitLowBit(c, r);
    var rest, d := r ^ (r & 1), c ^ (r & 1);
    assert Xor(d, rest) == Xor(c, r) && Half(rest) == Half(r);
    EvenShift(rest);
    ShiftLinear(d, rest);
    assert AddBit(c, r) == Shift(d);
    hide Shift, Xor, Half, AddBit;
  }

  /** Bits may as well be added all at once, except that those not reached yet are then still there. */
  lemma {:induction false} AddBitsAtOnce(c: bv32, r: bv32, n: nat)
    ensures Xor(AddBits(c, r, n), Halves(r, n)) == Shifts(Xor(c, r), n)
    decreases n
  {
    hide Shift, Xor, Half, AddBit;
    if n > 0 {
      OneBit(c, r);
      AddBitsAtOnce(AddBit(c, r), Half(r), n - 1);
    }
  }

  lemma EightHalves(r: bv32)
    ensures Halves(r, 8) == Half(Half(Half(Half(Half(Half(Half(Half(r))))))))
  {
    hide Half;
    assert Halves(r, 8) == Halves(Half(Half(r)), 6);
    var s := Half(Half(Half(Half(r))));
    assert Halves(r, 8) == Halves(s, 4);
    assert Halves(s, 4) == Halves(Half(Half(s)), 2);
  }

  lemma HalfTwice(r: bv32)
    ensures Half(Half(r)) == r >> 2 && (r >> 2) >> 2 == r >> 4 && (r >> 4) >> 4 == r >> 8
  {
  }

  lemma HalfFourTimes(r: bv32)
    ensures Half(Half(Half(Half(r)))) == r >> 4
  {
    HalfTwice(r);
    HalfTwice(r >> 2);
    hide Half;
  }

  lemma EightDown(r: bv32)
    ensures Halves(r, 8) == r >> 8
  {
    EightHalves(r);
    HalfFourTimes(r);
    HalfFourTimes(r >> 4);
    HalfTwice(r);
    hide Half, Halves;
  }

  lemma ByteIsGone(u: bv8)
    ensures (u as bv32) >> 8 == 0
  {
  }

  lemma XorZero(c: bv32)
    ensures Xor(c, 0) == c && Xor(0, c) == c
  {
  }

  lemma AddByteAtOnce(c: bv32, u: bv8)
    ensures AddByte(c, u) == Shifts(Xor(c, u as bv32), 8)
  {
    hide Shifts, AddBits, Halves, Xor;
    var r := u as bv32;
    AddBitsAtOnce(c, r, 8);
    EightDown(r);
    ByteIsGone(u);
    XorZero(AddBits(c, r, 8));
  }

  /** The n low bits of m are ones. */
  predicate LowOnes(m: bv32, n: nat) {
    n == 0 || (Odd(m) && LowOnes(Half(m), n - 1))
  }

  lemma LowByteOnes()
    ensures LowOnes(0xFF, 8)
  {
    assert Half(0xFF) == 0x7F && Half(0x7F) == 0x3F && Half(0x3F) == 0x1F && Half(0x1F) == 0xF;
    assert Half(0xF) == 7 && Half(7) == 3 && Half(3) == 1 && Half(1) == 0;
    assert LowOnes(0, 0) && LowOnes(1, 1) && LowOnes(3, 2) && LowOnes(7, 3) && LowOnes(0xF, 4);
    assert LowOnes(0x1F, 5) && LowOnes(0x3F, 6) && LowOnes(0x7F, 7);
  }

  lemma ClearBit(c: bv32, m: bv32)
    requires c & m == 0 && Odd(m)
    ensures Shift(c) == Half(c) && Half(c) & Half(m) == 0
  {
  }

  /** Shifting out n clear bits only moves the register down. */
  lemma {:induction false} ClearBitsMoveDown(c: bv32, m: bv32, n: nat)
    requires c & m == 0 && LowOnes(m, n)
    ensures Shifts(c, n) == Halves(c, n)
    decreases n
  {
    hide Shift, Half, Odd;
    if n > 0 {
      ClearBit(c, m);
      ClearBitsMoveDown(Half(c), Half(m), n - 1);
    }
  }

  lemma HighBytesMoveDown(c: bv32)
    requires c & 0xFF == 0
    ensures Shifts(c, 8) == c >> 8
  {
    hide Shifts, Halves, LowOnes;
    LowByteOnes();
    ClearBitsMoveDown(c, 0xFF, 8);
    EightDown(c);
  }

  lemma SplitLowByte(c: bv32, u: bv8)
    ensures var x := c ^ u as bv32;
            var low, high := x & 0xFF, x & 0xFFFF_FF00;
            x == Xor(low, high) && high & 0xFF == 0 && high >> 8 == c >> 8
  {
  }

  /** One lookup does what eight bits do. */
  lemma TableStep(c: bv32, u: bv8)
    ensures Xor(Shifts((c ^ u as bv32) & 0xFF, 8), c >> 8) == AddByte(c, u)
  {
    hide Shifts, AddByte, Halves, LowOnes;
    var x := c ^ u as bv32;
    var low, high := x & 0xFF, x & 0xFFFF_FF00;
    assert x == Xor(c, u as bv32);
    SplitLowByte(c, u);
    HighBytesMoveDown(high);
    AddByteAtOnce(c, u);
    hide Xor;
    ShiftsLinear(low, high, 8);
  }

  // --- the code -------------------------------------------------------------------------------

  /** The entry a register value selects. */
  function TableEntry(table: seq<bv32>, k: bv32): bv32
    requires |table| == 256 && k <= 0xFF
  {
    table[k as int]
  }

  ghost predicate TableReady(table: seq<bv32>) {
    |table| == 256 && forall k: bv32 | k <= 0xFF :: TableEntry(table, k) == Shifts(k, 8)
  }

  /** Fills the table unless its last entry shows that it already is. */
  method EnsureTable(table: array<bv32>)
    requires table.Length == 256
    requires table[255] != 0 ==> TableReady(table[..])
    modifies table
    ensures TableReady(table[..])
  {
    hide Shifts;
    if table[255] != 0 {
      return;
    }
    for i := 0 to 256
      invariant forall k: bv32 | k <= 0xFF && k as int < i :: TableEntry(table[..], k) == Shifts(k, 8)
    {
      var c := TableValue(i as bv32);
      table[i] := c;
    }
  }

  /** The inner loop of the table: eight shifts. */
  method TableValue(i: bv32) returns (c: bv32)
    ensures c == Shifts(i, 8)
  {
    hide Shift;
    c := i;
    for j := 0 to 8
      invariant Shifts(c, 8 - j) == Shifts(i, 8)
    {
      c := Shift(c);
    }
  }

  /** One turn of the table-driven loop. */
  method StepByTable(table: array<bv32>, c: bv32, u: bv8) returns (r: bv32)
    requires TableReady(table[..])
    ensures r == AddByte(c, u)
  {
    hide Shifts, AddByte;
    TableStep(c, u);
    var index := (c ^ u as bv32) & 0xFF;
    assert TableEntry(table[..], index) == Shifts(index, 8);
    r := Xor(table[index as int], c >> 8);
  }

  /** The table-driven loop computes the bit-serial checksum, for every start value and buffer. */
  method UpdateCrc32(table: array<bv32>, start: bv32, buffer: seq<bv8>) returns (crc: bv32)
    requires table.Length == 256
    requires table[255] != 0 ==> TableReady(table[..])
    modifies table
    ensures crc == Crc(start, buffer)
    ensures TableReady(table[..])
  {
    hide TableReady, AddByte, Xor;
    EnsureTable(table);
    var c := Xor(start, ONES);
    for i := 0 to |buffer|
      invariant TableReady(table[..])
      invariant c == AddBytes(Xor(start, ONES), buffer[..i])
    {
      c := StepByTable(table, c, buffer[i]);
      assert buffer[..i + 1][..i] == buffer[..i];
    }
    assert buffer[..|buffer|] == buffer;
    crc := Xor(c, ONES);
  }

  // --- what the checksum promises -------------------------------------------------------------

  lemma {:induction false} AddBytesAppend(c: bv32, a: seq<bv8>, b: seq<bv8>)
    ensures AddBytes(c, a + b) == AddBytes(AddBytes(c, a), b)
    decreases |b|
  {
    hide AddByte;
    if b == [] {
      assert a + b == a;
    } else {
      AddBytesAppend(c, a, b[..|b| - 1]);
      assert (a + b)[..|a + b| - 1] == a + b[..|b| - 1];
    }
  }

  /** Checking a then b, starting from the result for a, is checking a followed by b. */
  lemma CrcAppend(start: bv32, a: seq<bv8>, b: seq<bv8>)
    ensures Crc(Crc(start, a), b) == Crc(start, a + b)
  {
    hide AddBytes, Xor;
    var c := AddBytes(Xor(start, ONES), a);
    AddBytesAppend(Xor(start, ONES), a, b);
    XorCommutative(c, ONES);
    XorCommutative(Xor(c, ONES), ONES);
    XorUndoes(ONES, c);
  }

  /** Up to four bytes as one word, the first byte lowest. */
  function Word(bytes: seq<bv8>): bv32 {
    if bytes == [] then 0 else Xor(bytes[0] as bv32, Up(Word(bytes[1..])))
  }

  function Up(c: bv32): bv32 { c << 8 }

  lemma {:induction false} WordFits(bytes: seq<bv8>)
    requires |bytes| <= 3
    ensures Word(bytes) <= 0xFF_FFFF
    ensures |bytes| <= 2 ==> Word(bytes) <= 0xFFFF
    ensures |bytes| <= 1 ==> Word(bytes) <= 0xFF
    ensures |bytes| == 0 ==> Word(bytes) == 0
    decreases |bytes|
  {
    if bytes != [] {
      WordFits(bytes[1..]);
      WordGrows(bytes[0], Word(bytes[1..]));
      hide Word, Xor, Up;
    }
  }

  lemma WordGrows(u: bv8, w: bv32)
    ensures w == 0 ==> Xor(u as bv32, Up(w)) <= 0xFF
    ensures w <= 0xFF ==> Xor(u as bv32, Up(w)) <= 0xFFFF
    ensures w <= 0xFFFF ==> Xor(u as bv32, Up(w)) <= 0xFF_FFFF
  {
  }

  /** Eight shifts bring a word back down that was moved up by a byte. */
  lemma UpThenDown(w: bv32)
    requires w <= 0xFF_FFFF
    ensures Shifts(Up(w), 8) == w
  {
    hide Up, Shifts;
    UpClears(w);
    HighBytesMoveDown(Up(w));
  }

  lemma UpClears(w: bv32)
    requires w <= 0xFF_FFFF
    ensures Up(w) & 0xFF == 0 && Up(w) >> 8 == w
  {
  }

  /** Up to four bytes may as well be added at once, before all their shifts. */
  lemma {:induction false} AddWordAtOnce(c: bv32, bytes: seq<bv8>)
    requires |bytes| <= 4
    ensures AddBytes(c, bytes) == Shifts(Xor(c, Word(bytes)), 8 * |bytes|)
    decreases |bytes|
  {
    hide Xor, AddByte, Shifts, Up;
    if bytes == [] {
      XorZero(c);
      NoShifts(c);
    } else {
      var first, rest := bytes[0], bytes[1..];
      var u := first as bv32;
      assert bytes == [first] + rest;
      AddBytesAppend(c, [first], rest);
      AddOne(c, first);
      AddByteAtOnce(c, first);
      var d := AddByte(c, first);
      AddWordAtOnce(d, rest);
      WordFits(rest);
      var w := Word(rest);
      UpThenDown(w);
      ShiftsLinear(Xor(c, u), Up(w), 8);
      XorAssociative(c, u, Up(w));
      ShiftsAdd(Xor(c, Word(bytes)), 8, 8 * |rest|);
    }
  }

  lemma NoShifts(c: bv32)
    ensures Shifts(c, 0) == c
  {
  }

  lemma AddOne(c: bv32, u: bv8)
    ensures AddBytes(c, [u]) == AddByte(c, u)
  {
    hide AddByte;
    assert [u][..0] == [];
  }

  lemma {:induction false} ShiftsAdd(c: bv32, m: nat, n: nat)
    ensures Shifts(Shifts(c, m), n) == Shifts(c, m + n)
    decreases m
  {
    hide Shift;
    if m > 0 {
      ShiftsAdd(Shift(c), m - 1, n);
    }
  }

  lemma {:induction false} WordInjective(a: seq<bv8>, b: seq<bv8>)
    requires |a| == |b| <= 4 && Word(a) == Word(b)
    ensures a == b
    decreases |a|
  {
    hide Word, Xor, Up;
    if a != [] {
      WordFits(a[1..]);
      WordFits(b[1..]);
      WordCons(a);
      WordCons(b);
      WordParts(a[0], Word(a[1..]), b[0], Word(b[1..]));
      WordInjective(a[1..], b[1..]);
      assert a == [a[0]] + a[1..] && b == [b[0]] + b[1..];
    }
  }

  lemma WordCons(a: seq<bv8>)
    requires a != []
    ensures Word(a) == Xor(a[0] as bv32, Up(Word(a[1..])))
  {
  }

  lemma WordParts(u: bv8, x: bv32, v: bv8, y: bv32)
    requires x <= 0xFF_FFFF && y <= 0xFF_FFFF
    requires Xor(u as bv32, Up(x)) == Xor(v as bv32, Up(y))
    ensures u == v && x == y
  {
  }

  lemma {:induction false} AddBytesInjective(c: bv32, d: bv32, bytes: seq<bv8>)
    ensures AddBytes(c, bytes) == AddBytes(d, bytes) ==> c == d
    decreases |bytes|
  {
    if bytes != [] {
      var before, u := bytes[..|bytes| - 1], bytes[|bytes| - 1];
      var x, y := AddBytes(c, before), AddBytes(d, before);
      AddBytesInjective(c, d, before);
      hide AddByte, Xor, Shifts;
      AddByteAtOnce(x, u);
      AddByteAtOnce(y, u);
      ShiftsInjective(Xor(x, u as bv32), Xor(y, u as bv32), 8);
      XorInjective(x, y, u as bv32);
    }
  }

  lemma XorInjective(a: bv32, b: bv32, c: bv32)
    ensures Xor(a, c) == Xor(b, c) ==> a == b
    ensures Xor(c, a) == Xor(c, b) ==> a == b
  {
    hide Xor;
    XorUndoes(c, a);
    XorUndoes(c, b);
    XorCommutative(a, c);
    XorCommutative(b, c);
  }

  /** A change confined to at most four consecutive bytes always changes the checksum. */
  lemma BurstIsDetected(start: bv32, front: seq<bv8>, a: seq<bv8>, b: seq<bv8>, back: seq<bv8>)
    requires |a| == |b| <= 4 && a != b
    ensures Crc(start, front + a + back) != Crc(start, front + b + back)
  {
    hide AddBytes, Xor, Word, Shifts;
    var s := Xor(start, ONES);
    var c := AddBytes(s, front);
    AddBytesAppend(s, front, a);
    AddBytesAppend(s, front, b);
    AddBytesAppend(s, front + a, back);
    AddBytesAppend(s, front + b, back);
    var x, y := AddBytes(c, a), AddBytes(c, b);
    AddWordAtOnce(c, a);
    AddWordAtOnce(c, b);
    if x == y {
      ShiftsInjective(Xor(c, Word(a)), Xor(c, Word(b)), 8 * |a|);
      XorInjective(Word(a), Word(b), c);
      WordInjective(a, b);
      assert false;
    }
    AddBytesInjective(x, y, back);
    XorInjective(AddBytes(x, back), AddBytes(y, back), ONES);
  }

  // --- a check value ----------------------------------------------------------------------------

  /** The checksum of the text abc. */
  lemma CheckValue()
    ensures Crc(0, [97, 98, 99]) == 0x352441C2
  {
    assert AddByte(ONES, 97) == 0x174841bc;
    assert AddByte(0x174841bc, 98) == 0x617cb792;
    assert AddByte(0x617cb792, 99) == 0xcadbbe3d;
    hide AddByte;
    var text: seq<bv8> := [97, 98, 99];
    assert text[..2] == [97, 98] && [97, 98][..1] == [97] && [97][..0] == [];
    assert AddBytes(ONES, [97]) == AddByte(ONES, 97);
    assert AddBytes(ONES, [97, 98]) == AddByte(AddBytes(ONES, [97]), 98);
  }
}
