/** A growable window over bytes, with typed values and read marks. */
module ByteBuffer {
  import opened ByteOrder
  import opened Arithmetic
  import Memory

  const DEFAULT_SIZE: nat := 4096

  datatype Order = Network | Host

  /** How values look in memory: the order asked for, and the order of the machine. */
  datatype Layout = Layout(order: Order, hostBigEndian: bool)

  // --- a value's bytes in memory ----------------------------------------------------------------

  function Native(layout: Layout, v: nat, n: nat): (s: seq<byte>)
    ensures |s| == n
  {
    if layout.hostBigEndian then BigEndian(v, n) else LittleEndian(v, n)
  }

  function FromNative(layout: Layout, s: seq<byte>): nat {
    if layout.hostBigEndian then FromBigEndian(s) else FromLittleEndian(s)
  }

  /** HostToNetwork16, 32, 64: the number whose native bytes are the big-endian bytes of v. */
  function HostToNetwork(layout: Layout, v: nat, n: nat): nat {
    FromNative(layout, BigEndian(v, n))
  }

  /** NetworkToHost16, 32, 64. */
  function NetworkToHost(layout: Layout, v: nat, n: nat): nat {
    FromBigEndian(Native(layout, v, n))
  }

  lemma NativeOfFromNative(layout: Layout, s: seq<byte>)
    ensures Native(layout, FromNative(layout, s), |s|) == s
  {
    FromBigEndianRoundTrip(s);
    FromLittleEndianRoundTrip(s);
  }

  lemma FromNativeOfNative(layout: Layout, v: nat, n: nat)
    ensures FromNative(layout, Native(layout, v, n)) == v % Power256(n)
  {
    BigEndianRoundTrip(v, n);
    LittleEndianRoundTrip(v, n);
  }

  /** The integer widths the buffer knows. */
  type Width = n: nat | n == 1 || n == 2 || n == 3 || n == 4 || n == 8 witness 1

  /** The memory word a value of this width is put through: 24-bit values use 32 bits. */
  function WordSize(n: Width): nat {
    if n == 3 then 4 else n
  }

  /** Where a 24-bit value starts inside its 32-bit word. */
  function Skip(layout: Layout, n: Width): nat {
    if n == 3 && (layout.order.Network? || layout.hostBigEndian) then 1 else 0
  }

  /** The bytes WriteUInt8 ... WriteUInt64 put into the buffer. */
  function ValueBytes(layout: Layout, v: nat, n: Width): (s: seq<byte>)
    ensures |s| == n
  {
    var word := if layout.order.Network? then HostToNetwork(layout, v, WordSize(n)) else v;
    Native(layout, word, WordSize(n))[Skip(layout, n)..Skip(layout, n) + n]
  }

  /** The value ReadUInt8 ... ReadUInt64 make of the next bytes. */
  function BytesValue(layout: Layout, s: seq<byte>, n: Width): nat
    requires |s| == n
  {
    var memory := Zeros(Skip(layout, n)) + s + Zeros(WordSize(n) - Skip(layout, n) - n);
    var word := FromNative(layout, memory);
    if layout.order.Network? then NetworkToHost(layout, word, WordSize(n)) else word
  }

  function Zeros(n: nat): (s: seq<byte>)
    ensures |s| == n
    ensures forall i | 0 <= i < n :: s[i] == 0
  {
    seq(n, _ => 0)
  }

  /** The largest value of a width, plus one. */
  function Limit(n: Width): nat {
    Power256(n)
  }

  lemma Powers()
    ensures Power256(1) == 0x100 && Power256(2) == 0x1_0000 && Power256(3) == 0x100_0000 && Power256(4) == 0x1_0000_0000
  {
    assert Power256(2) == 256 * Power256(1);
    assert Power256(3) == 256 * Power256(2);
    assert Power256(4) == 256 * Power256(3);
  }

  /** In network order the bytes are the big-endian bytes, on any machine. */
  lemma NetworkBytes(layout: Layout, v: nat, n: Width)
    requires layout.order.Network?
    ensures ValueBytes(layout, v, n) == BigEndian(v, n)
  {
    var w := WordSize(n);
    NativeOfFromNative(layout, BigEndian(v, w));
    if n == 3 {
      BigEndianTail(v);
    }
  }

  lemma BigEndianTail(v: nat)
    ensures BigEndian(v, 4)[1..] == BigEndian(v, 3)
    ensures v < 0x100_0000 ==> BigEndian(v, 4)[0] == 0
  {
    var a, b, c := v / 256, v / 256 / 256, v / 256 / 256 / 256;
    assert BigEndian(v, 4) == BigEndian(a, 3) + [v % 256];
    assert BigEndian(a, 3) == BigEndian(b, 2) + [a % 256];
    assert BigEndian(b, 2) == BigEndian(c, 1) + [b % 256];
    assert BigEndian(c, 1) == BigEndian(c / 256, 0) + [c % 256];
    assert BigEndian(v, 3) == BigEndian(a, 2) + [v % 256];
    assert BigEndian(a, 2) == BigEndian(b, 1) + [a % 256];
    assert BigEndian(b, 1) == BigEndian(b / 256, 0) + [b % 256];
  }

  /** What is written in any order and width reads back exactly when it fits the width. */
  lemma ValueRoundTrip(layout: Layout, v: nat, n: Width)
    ensures BytesValue(layout, ValueBytes(layout, v, n), n) == v <==> v < Limit(n)
  {
    hide BytesValue, ValueBytes;
    if v < Limit(n) {
      ValueReadsBack(layout, v, n);
    }
    BytesValueFits(layout, ValueBytes(layout, v, n), n);
  }

  lemma BytesValueFits(layout: Layout, s: seq<byte>, n: Width)
    requires |s| == n
    ensures BytesValue(layout, s, n) < Limit(n)
  {
    hide BigEndian, FromBigEndian, Reverse, Native, FromNative, Power256;
    var k, w := Skip(layout, n), WordSize(n);
    var memory := Zeros(k) + s + Zeros(w - k - n);
    NativeOfFromNative(layout, memory);
    WordFits(layout, memory);
    if n == 3 {
      if layout.order.Network? || layout.hostBigEndian {
        assert memory == [0] + s;
        TopZero(s);
        BigEndianMemory(layout, memory);
      } else {
        assert memory == s + [0];
        LittleTopZero(layout, s);
      }
    } else {
      assert memory == s;
    }
  }

  lemma BigEndianMemory(layout: Layout, memory: seq<byte>)
    ensures layout.hostBigEndian ==> FromNative(layout, memory) == FromBigEndian(memory)
  {
    hide FromBigEndian;
  }

  lemma WordFits(layout: Layout, memory: seq<byte>)
    ensures FromNative(layout, memory) < Power256(|memory|) && FromBigEndian(memory) < Power256(|memory|)
  {
    hide BigEndian, FromBigEndian, LittleEndian, FromLittleEndian, Power256;
    FromBigEndianRoundTrip(memory);
    FromLittleEndianRoundTrip(memory);
  }

  lemma LittleTopZero(layout: Layout, s: seq<byte>)
    requires !layout.hostBigEndian
    ensures FromNative(layout, s + [0]) < Power256(|s|)
  {
    hide BigEndian, FromBigEndian, Power256;
    ReverseTopZero(s);
    TopZero(Reverse(s));
  }

  lemma ReverseTopZero(s: seq<byte>)
    ensures Reverse(s + [0]) == [0] + Reverse(s)
  {
  }

  lemma TopZero(s: seq<byte>)
    ensures FromBigEndian([0] + s) == FromBigEndian(s) < Power256(|s|)
    decreases |s|
  {
    FromBigEndianRoundTrip(s);
    if s != [] {
      TopZero(s[..|s| - 1]);
      assert ([0] + s)[..|s|] == [0] + s[..|s| - 1];
    }
  }

  lemma ValueReadsBack(layout: Layout, v: nat, n: Width)
    requires v < Limit(n)
    ensures BytesValue(layout, ValueBytes(layout, v, n), n) == v
  {
    hide BigEndian, FromBigEndian, Reverse, Native, FromNative;
    var s, w := ValueBytes(layout, v, n), WordSize(n);
    var memory := Zeros(Skip(layout, n)) + s + Zeros(w - Skip(layout, n) - n);
    FullWord(layout, v, n);
    LimitFits(v, n);
    if layout.order.Network? {
      assert memory == BigEndian(v, w);
      NativeOfFromNative(layout, memory);
      BigEndianRoundTrip(v, w);
    } else {
      assert memory == Native(layout, v, w);
      FromNativeOfNative(layout, v, w);
    }
  }

  lemma LimitFits(v: nat, n: Width)
    requires v < Limit(n)
    ensures v % Power256(WordSize(n)) == v
  {
    Powers();
    assert v < Power256(WordSize(n));
    ModuloIs(v, Power256(WordSize(n)), 0, v);
  }

  /** The bytes left out of a 24-bit value's word are zero. */
  lemma FullWord(layout: Layout, v: nat, n: Width)
    requires v < Limit(n)
    ensures var s, w := ValueBytes(layout, v, n), WordSize(n);
            Zeros(Skip(layout, n)) + s + Zeros(w - Skip(layout, n) - n)
            == if layout.order.Network? then BigEndian(v, w) else Native(layout, v, w)
  {
    hide BigEndian, LittleEndian, FromNative, Native, Power256;
    var w, k := WordSize(n), Skip(layout, n);
    NativeOfFromNative(layout, BigEndian(v, w));
    if n == 3 {
      TopByteIsZero(layout, v);
    }
    var word := if layout.order.Network? then BigEndian(v, w) else Native(layout, v, w);
    Pad(word, k, w - k - n);
  }

  lemma Pad(word: seq<byte>, front: nat, back: nat)
    requires front + back <= |word| && (front > 0 ==> front == 1 && word[0] == 0)
    requires back > 0 ==> back == 1 && word[|word| - 1] == 0
    ensures Zeros(front) + word[front..|word| - back] + Zeros(back) == word
  {
  }

  lemma TopByteIsZero(layout: Layout, v: nat)
    requires v < Limit(3)
    ensures BigEndian(v, 4)[0] == 0
    ensures Native(layout, v, 4)[if layout.hostBigEndian then 0 else 3] == 0
  {
    Powers();
    BigEndianTail(v);
  }

  // --- the buffer -------------------------------------------------------------------------------

  datatype ReadPosition = ReadPosition(start: nat, version: nat)

  class Buffer {
    const layout: Layout
    var bytes: array<byte>
    var start: nat
    var end: nat
    var version: nat

    /** The unread bytes. */
    ghost function Contents(): seq<byte>
      requires Valid()
      reads this, bytes
    {
      bytes[start..end]
    }

    /** Everything written since the last move of the data, read or not: what a mark can reach back into. */
    ghost function Log(): seq<byte>
      requires Valid()
      reads this, bytes
    {
      bytes[..end]
    }

    ghost predicate Valid()
      reads this
    {
      start <= end <= bytes.Length
    }

    constructor (layout: Layout)
      ensures Valid() && fresh(bytes) && Contents() == [] && version == 0 && this.layout == layout
    {
      this.layout := layout;
      bytes := new byte[DEFAULT_SIZE];
      start, end, version := 0, 0, 0;
    }

    constructor FromBytes(initial: seq<byte>, layout: Layout)
      ensures Valid() && fresh(bytes) && Contents() == initial && version == 0 && this.layout == layout
    {
      this.layout := layout;
      bytes := new byte[|initial|];
      start, end, version := 0, |initial|, 0;
      new;
      Memory.Copy(bytes, 0, initial);
    }

    /** Reads and removes the next n bytes, or does nothing when there are fewer. */
    method ReadBytes(n: nat) returns (ok: bool, val: seq<byte>)
      requires Valid()
      modifies this`start
      ensures Valid() && version == old(version) && Log() == old(Log())
      ensures ok == (n <= |old(Contents())|)
      ensures ok ==> old(Contents()) == val + Contents() && |val| == n
      ensures !ok ==> Contents() == old(Contents())
    {
      if n > end - start {
        return false, [];
      }
      val := bytes[start..start + n];
      start := start + n;
      return true, val;
    }

    method Consume(n: nat) returns (ok: bool)
      requires Valid()
      modifies this`start
      ensures Valid() && version == old(version) && Log() == old(Log())
      ensures ok == (n <= |old(Contents())|)
      ensures Contents() == if ok then old(Contents())[n..] else old(Contents())
    {
      if n > end - start {
        return false;
      }
      start := start + n;
      return true;
    }

    /** Resize: keeps at most `size` unread bytes, moved to the front of the old memory or of larger memory. */
    method Resize(size: nat)
      requires Valid()
      modifies this`bytes, this`start, this`end, this`version, bytes
      ensures Valid() && version == old(version) + 1 && start == 0
      ensures bytes == old(bytes) || fresh(bytes)
      ensures bytes.Length == if size <= old(bytes.Length) then old(bytes.Length) else Max(size, 3 * old(bytes.Length) / 2)
      ensures Contents() == if size < |old(Contents())| then old(Contents())[..size] else old(Contents())
    {
      var len := if end - start < size then end - start else size;
      if size <= bytes.Length {
        Memory.MoveToFront(bytes, start, len);
      } else {
        var larger := new byte[Max(size, 3 * bytes.Length / 2)];
        Memory.Copy(larger, 0, bytes[start..start + len]);
        bytes := larger;
      }
      assert bytes[..len] == old(bytes[start..start + len]);
      start, end, version := 0, len, version + 1;
    }

    /** ReserveWriteBuffer: makes room for n bytes after the unread ones; what they hold is up to the caller. */
    method ReserveWriteBuffer(n: nat) returns (at: nat)
      requires Valid()
      modifies this`bytes, this`start, this`end, this`version, bytes
      ensures Valid() && (bytes == old(bytes) || fresh(bytes))
      ensures at + n == end && start <= at && bytes[start..at] == old(Contents())
      ensures version == old(version) ==> start == old(start) && bytes[..at] == old(Log())
      ensures version == old(version) || (version == old(version) + 1 && start == 0)
    {
      if end - start + n > bytes.Length - start {
        Resize(end - start + n);
      }
      at := end;
      end := end + n;
    }

    method WriteBytes(val: seq<byte>)
      requires Valid()
      modifies this`bytes, this`start, this`end, this`version, bytes
      ensures Valid() && (bytes == old(bytes) || fresh(bytes))
      ensures Contents() == old(Contents()) + val
      ensures version == old(version) ==> start == old(start) && Log() == old(Log()) + val
      ensures version == old(version) || version == old(version) + 1
    {
      var at := ReserveWriteBuffer(|val|);
      Memory.Copy(bytes, at, val);
      assert bytes[start..end] == bytes[start..at] + val;
      assert bytes[..end] == bytes[..at] + val;
    }

    /** Clear: nothing is left, and no mark survives. */
    method Clear()
      requires Valid()
      modifies this`start, this`end, this`version, bytes
      ensures Valid() && Contents() == [] && version == old(version) + 1
    {
      for i := 0 to bytes.Length
        invariant version == old(version)
      {
        bytes[i] := 0;
      }
      start, end, version := 0, 0, version + 1;
    }

    function GetReadPosition(): ReadPosition
      reads this
    {
      ReadPosition(start, version)
    }

    /** SetReadPosition: goes back to a mark unless the data was moved since. */
    method SetReadPosition(position: ReadPosition) returns (ok: bool)
      requires Valid()
      requires position.version == version ==> position.start <= end
      modifies this`start
      ensures Valid() && version == old(version) && Log() == old(Log())
      ensures ok == (position.version == version)
      ensures ok ==> Contents() == Log()[position.start..]
      ensures !ok ==> Contents() == old(Contents())
    {
      if position.version != version {
        return false;
      }
      start := position.start;
      return true;
    }

    /** WriteUInt8 ... WriteUInt64. */
    method WriteUInt(v: nat, n: Width)
      requires Valid() && v < Limit(WordSize(n))
      modifies this`bytes, this`start, this`end, this`version, bytes
      ensures Valid() && (bytes == old(bytes) || fresh(bytes))
      ensures Contents() == old(Contents()) + ValueBytes(layout, v, n)
    {
      WriteBytes(ValueBytes(layout, v, n));
    }

    /** ReadUInt8 ... ReadUInt64: fails and reads nothing when too few bytes are left. */
    method ReadUInt(n: Width) returns (ok: bool, v: nat)
      requires Valid()
      modifies this`start
      ensures Valid()
      ensures ok == (n <= |old(Contents())|)
      ensures ok ==> v == BytesValue(layout, old(Contents())[..n], n) && Contents() == old(Contents())[n..]
      ensures !ok ==> Contents() == old(Contents())
    {
      var s;
      ok, s := ReadBytes(n);
      v := if ok then BytesValue(layout, s, n) else 0;
    }

    /** Writes any list of values, one after the other. */
    method WriteValues(values: seq<Value>)
      requires Valid() && forall i | 0 <= i < |values| :: values[i].Fits()
      modifies this`bytes, this`start, this`end, this`version, bytes
      ensures Valid() && (bytes == old(bytes) || fresh(bytes))
      ensures Contents() == old(Contents()) + AllBytes(layout, values)
    {
      hide ValueBytes;
      for i := 0 to |values|
        invariant Valid() && (bytes == old(bytes) || fresh(bytes))
        invariant Contents() == old(Contents()) + AllBytes(layout, values[..i])
      {
        WordHolds(values[i]);
        WriteUInt(values[i].v, values[i].width);
        assert values[..i + 1][..i] == values[..i];
      }
      assert values[..|values|] == values;
    }

    /**
     * Reads values of the widths the list was written with: the same values come back, and what
     * followed them is left.
     */
    method ReadBack(values: seq<Value>, ghost rest: seq<byte>) returns (got: seq<Value>)
      requires Valid() && forall i | 0 <= i < |values| :: values[i].Fits()
      requires Contents() == AllBytes(layout, values) + rest
      modifies this`start
      ensures Valid() && got == values && Contents() == rest
    {
      hide ValueBytes, BytesValue, AllBytes;
      got := [];
      assert values[0..] == values;
      for i := 0 to |values|
        invariant Valid()
        invariant got == values[..i]
        invariant Contents() == AllBytes(layout, values[i..]) + rest
      {
        var w := values[i].width;
        NextValue(layout, values, i, rest);
        var ok, v := ReadUInt(w);
        got := got + [UInt(v, w)];
      }
      NoBytes(layout, values[|values|..], rest);
    }

    /** Marks that are good point into what was written since the last move of the data. */
    ghost predicate GoodMarks(marks: seq<ReadPosition>)
      reads this
    {
      forall i | 0 <= i < |marks| :: marks[i].version <= version && (marks[i].version == version ==> marks[i].start <= end)
    }

    /** One operation; marks taken along the way are kept in `marks`. */
    method Apply(op: Op, marks: seq<ReadPosition>) returns (marks': seq<ReadPosition>)
      requires Valid() && GoodMarks(marks)
      modifies this`bytes, this`start, this`end, this`version, bytes
      ensures Valid() && GoodMarks(marks') && (bytes == old(bytes) || fresh(bytes))
      ensures !op.GoBack? ==> Contents() == Effect(old(Contents()), op)
      ensures version >= old(version)
      ensures version == old(version) ==> Log() == old(Log()) + Written(op)
      ensures op.GoBack? ==> version == old(version)
      ensures op.GoBack? && op.k < |marks| && marks[op.k].version == version ==> Contents() == Log()[marks[op.k].start..]
      ensures op.GoBack? && !(op.k < |marks| && marks[op.k].version == version) ==> Contents() == old(Contents())
      ensures marks' == if op.SetMark? then marks + [ReadPosition(start, version)] else marks
    {
      marks' := marks;
      match op
      case Write(val) => WriteBytes(val);
      case Read(n) => var ok, val := ReadBytes(n);
      case Drop(n) => var ok := Consume(n);
      case ResizeTo(n) => Resize(n);
      case ClearAll => Clear();
      case SetMark => marks' := marks + [GetReadPosition()];
      case GoBack(k) =>
        if k < |marks| {
          var ok := SetReadPosition(marks[k]);
        }
    }

    /**
     * Takes a mark, does anything at all, taking other marks and going back to them included, and
     * goes back to the mark. If the mark is still good the buffer holds the bytes unread at the mark
     * followed by all those written since, however much was read; otherwise, if it did not go back in
     * between, it holds what the same operations leave of a plain byte sequence.
     */
    method MarkAndReturn(ops: seq<Op>) returns (ok: bool)
      requires Valid()
      modifies this`bytes, this`start, this`end, this`version, bytes
      ensures Valid() && (bytes == old(bytes) || fresh(bytes))
      ensures ok == (version == old(version))
      ensures ok ==> Contents() == old(Contents()) + WrittenBy(ops)
      ensures !ok && NeverBack(ops) ==> Contents() == Effects(old(Contents()), ops)
    {
      hide Effect, Effects, Written, WrittenBy;
      NothingDone(old(Contents()), ops[..0]);
      assert old(Log()) + [] == old(Log());
      var mark := GetReadPosition();
      var marks := [mark];
      for i := 0 to |ops|
        invariant Valid() && GoodMarks([mark]) && GoodMarks(marks) && (bytes == old(bytes) || fresh(bytes))
        invariant version >= old(version)
        invariant version == old(version) ==> Log() == old(Log()) + WrittenBy(ops[..i])
        invariant NeverBack(ops) ==> Contents() == Effects(old(Contents()), ops[..i])
      {
        OneMore(old(Contents()), ops, i);
        label Before:
        marks := Apply(ops[i], marks);
        assert old@Before(Log()) + Written(ops[i]) == Log() || version > old(version);
        assert (old(Log()) + WrittenBy(ops[..i])) + Written(ops[i]) == old(Log()) + WrittenBy(ops[..i + 1]);
      }
      assert ops[..|ops|] == ops;
      assert [mark][0] == mark;
      ok := SetReadPosition(mark);
      if ok {
        assert (old(Log()) + WrittenBy(ops))[mark.start..] == old(Contents()) + WrittenBy(ops);
      }
    }
  }

  // --- what the operations mean for a plain byte sequence -----------------------------------------

  datatype Op = Write(val: seq<byte>) | Read(n: nat) | Drop(n: nat) | ResizeTo(n: nat) | ClearAll | SetMark | GoBack(k: nat)

  predicate NeverBack(ops: seq<Op>) {
    forall i | 0 <= i < |ops| :: !ops[i].GoBack?
  }

  /** What an operation other than going back does to the unread bytes. */
  function Effect(contents: seq<byte>, op: Op): seq<byte> {
    match op
    case Write(val) => contents + val
    case Read(n) => if n <= |contents| then contents[n..] else contents
    case Drop(n) => if n <= |contents| then contents[n..] else contents
    case ResizeTo(n) => if n < |contents| then contents[..n] else contents
    case ClearAll => []
    case SetMark => contents
    case GoBack(_) => contents
  }

  function Effects(contents: seq<byte>, ops: seq<Op>): seq<byte> {
    if ops == [] then contents else Effect(Effects(contents, ops[..|ops| - 1]), ops[|ops| - 1])
  }

  function Written(op: Op): seq<byte> {
    if op.Write? then op.val else []
  }

  function WrittenBy(ops: seq<Op>): seq<byte> {
    if ops == [] then [] else WrittenBy(ops[..|ops| - 1]) + Written(ops[|ops| - 1])
  }

  lemma NothingDone(contents: seq<byte>, ops: seq<Op>)
    requires ops == []
    ensures Effects(contents, ops) == contents && WrittenBy(ops) == []
  {
  }

  lemma OneMore(contents: seq<byte>, ops: seq<Op>, i: nat)
    requires i < |ops|
    ensures Effects(contents, ops[..i + 1]) == Effect(Effects(contents, ops[..i]), ops[i])
    ensures WrittenBy(ops[..i + 1]) == WrittenBy(ops[..i]) + Written(ops[i])
  {
    hide Effect, Written;
    assert ops[..i + 1][..i] == ops[..i];
  }

  /** A typed value. */
  datatype Value = UInt(v: nat, width: Width) {
    predicate Fits() { v < Limit(width) }
  }

  function AllBytes(layout: Layout, values: seq<Value>): seq<byte> {
    if values == [] then []
    else
      var last := values[|values| - 1];
      AllBytes(layout, values[..|values| - 1]) + ValueBytes(layout, last.v, last.width)
  }

  lemma {:induction false} AllBytesFront(layout: Layout, values: seq<Value>)
    requires values != []
    ensures AllBytes(layout, values) == ValueBytes(layout, values[0].v, values[0].width) + AllBytes(layout, values[1..])
    decreases |values|
  {
    hide ValueBytes;
    if |values| == 1 {
      assert values[..0] == [] && values[1..] == [];
    } else {
      AllBytesFront(layout, values[..|values| - 1]);
      assert values[..|values| - 1][1..] == values[1..][..|values| - 2];
    }
  }

  lemma NoBytes(layout: Layout, values: seq<Value>, rest: seq<byte>)
    requires values == []
    ensures AllBytes(layout, values) + rest == rest
  {
  }

  /** The front of a list's bytes reads as the next value. */
  lemma NextValue(layout: Layout, values: seq<Value>, i: nat, rest: seq<byte>)
    requires i < |values| && values[i].Fits()
    ensures var all, w := AllBytes(layout, values[i..]) + rest, values[i].width;
            && w <= |all|
            && BytesValue(layout, all[..w], w) == values[i].v
            && all[w..] == AllBytes(layout, values[i + 1..]) + rest
  {
    hide ValueBytes, BytesValue, AllBytes;
    AllBytesFront(layout, values[i..]);
    assert values[i..][1..] == values[i + 1..];
    ValueRoundTrip(layout, values[i].v, values[i].width);
    Front(ValueBytes(layout, values[i].v, values[i].width), AllBytes(layout, values[i + 1..]), rest);
  }

  lemma Front(a: seq<byte>, b: seq<byte>, rest: seq<byte>)
    ensures (a + b + rest)[..|a|] == a && (a + b + rest)[|a|..] == b + rest
  {
  }

  lemma WordHolds(value: Value)
    requires value.Fits()
    ensures value.v < Limit(WordSize(value.width))
  {
    Powers();
  }

  function Max(a: nat, b: nat): nat {
    if a > b then a else b
  }
}