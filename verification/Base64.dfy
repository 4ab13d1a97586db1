/** Base64 (sections 3.5 and 4 of RFC 4648): the encoder and the flag-driven decoder. */
module Base64 {
  const PAD_CHAR: bv8 := 61  // '='

  // What the decode table gives for characters outside the alphabet.
  const PAD: bv8 := 0xFD
  const SPACE: bv8 := 0xFE
  const ILLEGAL: bv8 := 0xFF

  /** The encoding table: A-Z, a-z, 0-9, plus, slash. */
  function Symbol(v: bv8): bv8
    requires v < 64
  {
    if v < 26 then 65 + v else if v < 52 then 71 + v else if v < 62 then v - 4 else if v == 62 then 43 else 47
  }

  /** The decoding table. */
  function Lookup(c: bv8): bv8 {
    if 65 <= c <= 90 then c - 65
    else if 97 <= c <= 122 then c - 71
    else if 48 <= c <= 57 then c + 4
    else if c == 43 then 62
    else if c == 47 then 63
    else if c == PAD_CHAR then PAD
    else if 9 <= c <= 13 || c == 32 then SPACE
    else ILLEGAL
  }

  /** Decoding undoes encoding, symbol by symbol, and nothing else decodes to a symbol's value. */
  lemma SymbolLookup(v: bv8)
    requires v < 64
    ensures Lookup(Symbol(v)) == v
  {
  }

  lemma LookupSymbol(c: bv8)
    ensures Lookup(c) < 64 ==> Symbol(Lookup(c)) == c
    ensures Lookup(c) < 64 || Lookup(c) == PAD || Lookup(c) == SPACE || Lookup(c) == ILLEGAL
    ensures Lookup(c) == PAD <==> c == PAD_CHAR
  {
  }

  /** The alphabet in its order: the capitals from A, the small letters from a, the digits from 0, plus, slash. */
  lemma SymbolOrder(v: bv8)
    requires v < 64
    ensures Symbol(0) == 65 && Symbol(26) == 97 && Symbol(52) == 48 && Symbol(62) == 43 && Symbol(63) == 47
    ensures v != 25 && v != 51 && v < 61 ==> Symbol(v + 1) == Symbol(v) + 1
  {
  }

  /** The white space: blank, tab, line feed, vertical tab, form feed, carriage return. */
  lemma SpacesAre(c: bv8)
    ensures Lookup(c) == SPACE <==> c in [32, 9, 10, 11, 12, 13]
  {
  }

  // --- three bytes, four sextets ----------------------------------------------------------------

  function Sextet0(b0: bv8): (s: bv8) ensures s < 64 { (b0 >> 2) & 0x3f }
  function Sextet1(b0: bv8, b1: bv8): (s: bv8) ensures s < 64 { ((b0 << 4) & 0x3f) | ((b1 >> 4) & 0x0f) }
  function Sextet2(b1: bv8, b2: bv8): (s: bv8) ensures s < 64 { ((b1 << 2) & 0x3f) | ((b2 >> 6) & 0x03) }
  function Sextet3(b2: bv8): (s: bv8) ensures s < 64 { b2 & 0x3f }

  function Octet0(s0: bv8, s1: bv8): bv8 { (s0 << 2) | ((s1 >> 4) & 0x3) }
  function Octet1(s1: bv8, s2: bv8): bv8 { ((s1 << 4) & 0xf0) | ((s2 >> 2) & 0xf) }
  function Octet2(s2: bv8, s3: bv8): bv8 { ((s2 << 6) & 0xc0) | s3 }

  lemma OctetsOfSextets(b0: bv8, b1: bv8, b2: bv8)
    ensures Octet0(Sextet0(b0), Sextet1(b0, b1)) == b0
    ensures Octet1(Sextet1(b0, b1), Sextet2(b1, b2)) == b1
    ensures Octet2(Sextet2(b1, b2), Sextet3(b2)) == b2
    ensures Octet1(Sextet1(b0, 0), 0) == 0 && Octet2(Sextet2(b1, 0), 0) == 0
  {
  }

  lemma SextetsOfOctets(s0: bv8, s1: bv8, s2: bv8, s3: bv8)
    requires s0 < 64 && s1 < 64 && s2 < 64 && s3 < 64
    ensures Sextet0(Octet0(s0, s1)) == s0
    ensures Sextet1(Octet0(s0, s1), Octet1(s1, s2)) == s1
    ensures Sextet2(Octet1(s1, s2), Octet2(s2, s3)) == s2
    ensures Sextet3(Octet2(s2, s3)) == s3
  {
  }

  // --- encoding -----------------------------------------------------------------------------------

  /** The four characters for the first three bytes, or for the one or two that are left. */
  function Quad(b: seq<bv8>): (q: seq<bv8>)
    requires b != []
    ensures |q| == 4
  {
    var b1, b2 := if |b| > 1 then b[1] else 0, if |b| > 2 then b[2] else 0;
    [Symbol(Sextet0(b[0])),
     Symbol(Sextet1(b[0], b1)),
     if |b| > 1 then Symbol(Sextet2(b1, b2)) else PAD_CHAR,
     if |b| > 2 then Symbol(Sextet3(b2)) else PAD_CHAR]
  }

  function AfterQuad(b: seq<bv8>): seq<bv8> {
    if |b| <= 3 then [] else b[3..]
  }

  /** The canonical encoding: four characters for every three bytes, padded at the end. */
  function Encode(b: seq<bv8>): (s: seq<bv8>)
    ensures |s| == (|b| + 2) / 3 * 4
    decreases |b|
  {
    if b == [] then [] else Quad(b) + Encode(AfterQuad(b))
  }

  /** One turn of the encoder's loop; the input position moves past the bytes it used. */
  method EncodeQuad(data: seq<bv8>, start: nat, result: array<bv8>, dest: nat) returns (i: nat)
    requires start < |data| && dest + 4 <= result.Length
    modifies result
    ensures start < i <= |data| && data[i..] == AfterQuad(data[start..])
    ensures result[dest..dest + 4] == Quad(data[start..])
    ensures result[..dest] == old(result[..dest])
  {
    hide Symbol, Sextet0, Sextet1, Sextet2, Sextet3;
    i := start;
    var b0 := data[i];
    var b1, b2 := 0, 0;
    result[dest] := Symbol(Sextet0(b0));
    i := i + 1;
    if i < |data| {
      b1 := data[i];
    }
    result[dest + 1] := Symbol(Sextet1(b0, b1));
    if i < |data| {
      i := i + 1;
      if i < |data| {
        b2 := data[i];
      }
      result[dest + 2] := Symbol(Sextet2(b1, b2));
    } else {
      result[dest + 2] := PAD_CHAR;
    }
    if i < |data| {
      result[dest + 3] := Symbol(Sextet3(b2));
      i := i + 1;
    } else {
      result[dest + 3] := PAD_CHAR;
    }
  }

  /** EncodeFromArray: fills the result quad by quad. */
  method EncodeFromArray(data: seq<bv8>) returns (result: array<bv8>)
    ensures fresh(result) && result[..] == Encode(data)
  {
    hide Quad, AfterQuad;
    result := new bv8[(|data| + 2) / 3 * 4];
    var i, dest := 0, 0;
    assert data[0..] == data;
    while i < |data|
      invariant 0 <= i <= |data| && dest + |Encode(data[i..])| == result.Length
      invariant result[..dest] + Encode(data[i..]) == Encode(data)
    {
      ghost var rest, done := data[i..], result[..dest];
      i := EncodeQuad(data, i, result, dest);
      dest := dest + 4;
      Regroup(done, Quad(rest), Encode(data[i..]), result[..dest]);
    }
    assert data[i..] == [] && result[..dest] == result[..] && result[..] + [] == result[..];
  }

  lemma Regroup(done: seq<bv8>, quad: seq<bv8>, rest: seq<bv8>, now: seq<bv8>)
    requires |now| == |done| + |quad| && now[..|done|] == done && now[|done|..] == quad
    ensures now + rest == done + (quad + rest)
  {
  }

  // --- decoding -----------------------------------------------------------------------------------

  datatype ParseMode = ParseStrict | ParseWhite | ParseAny
  datatype PadMode = PadYes | PadAny | PadNo
  datatype TermMode = TermBuffer | TermChar | TermAny
  datatype Flags = Flags(parse: ParseMode, pad: PadMode, term: TermMode)

  const STRICT := Flags(ParseStrict, PadYes, TermBuffer)

  /** Inside a quantum: how far we are, the sextets so far, and the pads since the last of them. */
  datatype Scan = Scan(pos: nat, values: seq<bv8>, pads: nat, padStart: nat)

  /** What one character does to a scan; None when it ends the quantum here. */
  datatype Move = Stop | Go(scan: Scan)

  function Read(parse: ParseMode, illegalPads: bool, c: bv8, s: Scan): Move
  {
    var v := Lookup(c);
    var skip := s.(pos := s.pos + 1);
    if v == ILLEGAL || (illegalPads && v == PAD) then
      if parse.ParseAny? then Go(skip) else Stop
    else if v == SPACE then
      if parse.ParseStrict? then Stop else Go(skip)
    else if v == PAD then
      if |s.values| < 2 || |s.values| + s.pads >= 4 then
        if parse.ParseAny? then Go(skip) else Stop
      else Go(skip.(pads := s.pads + 1, padStart := if s.pads == 0 then s.pos else s.padStart))
    else if s.pads > 0 && !parse.ParseAny? then Stop
    else Go(skip.(pads := 0, padStart := 0, values := s.values + [v]))
  }

  function ScanOn(parse: ParseMode, illegalPads: bool, data: seq<bv8>, s: Scan): Scan
    requires s.pos <= |data|
    decreases |data| - s.pos
  {
    if |s.values| == 4 || s.pos == |data| then s
    else
      match Read(parse, illegalPads, data[s.pos], s)
      case Stop => s
      case Go(t) => ScanOn(parse, illegalPads, data, t)
  }

  lemma ScanEnds(parse: ParseMode, illegalPads: bool, data: seq<bv8>, s: Scan)
    requires s.pos <= |data| && (|s.values| == 4 || s.pos == |data|)
    ensures ScanOn(parse, illegalPads, data, s) == s
  {
  }

  lemma ScanStep(parse: ParseMode, illegalPads: bool, data: seq<bv8>, s: Scan)
    requires s.pos < |data| && |s.values| != 4
    ensures var move := Read(parse, illegalPads, data[s.pos], s);
            ScanOn(parse, illegalPads, data, s) == if move.Stop? then s else ScanOn(parse, illegalPads, data, move.scan)
  {
    hide Read;
  }

  datatype Quantum = Quantum(values: seq<bv8>, padded: bool, used: nat)

  const START := Scan(0, [], 0, 0)

  /** A quantum at the front of `data`; pads that do not complete it are given back. */
  function NextQuantum(parse: ParseMode, illegalPads: bool, data: seq<bv8>): Quantum {
    Close(ScanOn(parse, illegalPads, data, START))
  }

  function Close(s: Scan): Quantum {
    var padded := |s.values| + s.pads == 4;
    Quantum(s.values, padded, if padded || s.pads == 0 then s.pos else s.padStart)
  }

  /** The scan has gone at least as far as it has sextets, and pads began somewhere behind it. */
  predicate Sane(s: Scan, n: nat) {
    |s.values| <= s.pos <= n && |s.values| <= 4 && (s.pads > 0 ==> s.padStart < s.pos && |s.values| < 4)
  }

  lemma {:induction false} ScanIsSane(parse: ParseMode, illegalPads: bool, data: seq<bv8>, s: Scan)
    requires Sane(s, |data|)
    ensures Sane(ScanOn(parse, illegalPads, data, s), |data|)
    ensures s.values <= ScanOn(parse, illegalPads, data, s).values
    decreases |data| - s.pos
  {
    if |s.values| < 4 && s.pos < |data| {
      var move := Read(parse, illegalPads, data[s.pos], s);
      if move.Go? {
        ScanIsSane(parse, illegalPads, data, move.scan);
      }
    }
  }

  function Value(values: seq<bv8>, i: nat): bv8 {
    if i < |values| then values[i] else 0
  }

  /** The bytes that the sextets of a quantum make. */
  function Bytes(v: seq<bv8>): seq<bv8> {
    (if |v| >= 2 then [Octet0(v[0], v[1])] else [])
    + (if |v| >= 3 then [Octet1(v[1], v[2])] else [])
    + (if |v| >= 4 then [Octet2(v[2], v[3])] else [])
  }

  /** The bits of the last sextet that make no byte. */
  function Unused(v: seq<bv8>): bv8 {
    if |v| < 2 then Octet0(Value(v, 0), 0)
    else if |v| == 2 then Octet1(v[1], 0)
    else if |v| == 3 then Octet2(v[2], 0)
    else 0
  }

  datatype Decoded = Decoded(success: bool, bytes: seq<bv8>, used: nat)

  function Decode(flags: Flags, data: seq<bv8>): Decoded
    decreases |data|
  {
    if data == [] then Decoded(true, [], 0)
    else
      var q := NextQuantum(flags.parse, flags.pad.PadNo?, data);
      ScanIsSane(flags.parse, flags.pad.PadNo?, data, START);
      if |q.values| == 4 then
        var more := Decode(flags, data[q.used..]);
        Decoded(more.success, Bytes(q.values) + more.bytes, q.used + more.used)
      else
        Decoded(
          && (flags.term.TermAny? || Unused(q.values) == 0)
          && (!flags.pad.PadYes? || q.padded)
          && (!flags.term.TermBuffer? || q.used == |data|),
          Bytes(q.values), q.used)
  }

  // --- the decoder's loops --------------------------------------------------------------------------

  /** Fills the rest of the four places with zero. */
  method ClearFrom(qbuf: array<bv8>, len: nat)
    requires len <= 4 == qbuf.Length
    modifies qbuf
    ensures qbuf[..len] == old(qbuf[..len])
    ensures forall i | len <= i < 4 :: qbuf[i] == 0
  {
    for i := len to 4
      invariant forall k | len <= k < i :: qbuf[k] == 0
      invariant qbuf[..len] == old(qbuf[..len])
    {
      qbuf[i] := 0;
    }
  }

  /** GetNextQuantum: one pass over the characters from `start`, into a four-place buffer. */
  method GetNextQuantum(parse: ParseMode, illegalPads: bool, data: seq<bv8>, start: nat, qbuf: array<bv8>)
    returns (len: nat, padded: bool, dpos: nat)
    requires start <= |data| && qbuf.Length == 4
    modifies qbuf
    ensures len <= 4 && start <= dpos <= |data| && (len == 4 ==> start + 4 <= dpos)
    ensures Quantum(qbuf[..len], padded, dpos - start) == NextQuantum(parse, illegalPads, data[start..])
    ensures forall i | len <= i < 4 :: qbuf[i] == 0
  {
    hide ScanOn, Lookup;
    ghost var rest := data[start..];
    dpos := start;
    len := 0;
    var pads, padStart := 0, 0;
    ScanIsSane(parse, illegalPads, rest, START);
    while len < 4 && dpos < |data|
      invariant len <= 4 && start <= dpos <= |data|
      invariant pads > 0 ==> start <= padStart <= dpos
      invariant ScanOn(parse, illegalPads, rest, START)
             == ScanOn(parse, illegalPads, rest, Scan(dpos - start, qbuf[..len], pads, if pads > 0 then padStart - start else 0))
      decreases |data| - dpos
    {
      var v := Lookup(data[dpos]);
      assert rest[dpos - start] == data[dpos];
      ScanStep(parse, illegalPads, rest, Scan(dpos - start, qbuf[..len], pads, if pads > 0 then padStart - start else 0));
      if v == ILLEGAL || (illegalPads && v == PAD) {
        if !parse.ParseAny? { break; }
      } else if v == SPACE {
        if parse.ParseStrict? { break; }
      } else if v == PAD {
        if len < 2 || len + pads >= 4 {
          if !parse.ParseAny? { break; }
        } else {
          pads := pads + 1;
          if pads == 1 {
            padStart := dpos;
          }
        }
      } else {
        if pads > 0 {
          if !parse.ParseAny? { break; }
          pads := 0;
        }
        qbuf[len] := v;
        len := len + 1;
        assert qbuf[..len] == qbuf[..len - 1] + [v];
      }
      dpos := dpos + 1;
    }
    if len == 4 || dpos == |data| {
      ScanEnds(parse, illegalPads, rest, Scan(dpos - start, qbuf[..len], pads, if pads > 0 then padStart - start else 0));
    }
    ClearFrom(qbuf, len);
    padded := len + pads == 4;
    if !padded && pads > 0 {
      dpos := padStart;
    }
  }

  /** Appends the bytes of a quantum and returns the bits that were left over. */
  method PushBytes(sofar: seq<bv8>, qbuf: array<bv8>, len: nat) returns (result: seq<bv8>, c: bv8)
    requires qbuf.Length == 4 && len <= 4
    requires forall i | len <= i < 4 :: qbuf[i] == 0
    ensures result == sofar + Bytes(qbuf[..len])
    ensures c == Unused(qbuf[..len])
  {
    hide Octet0, Octet1, Octet2;
    result := sofar;
    c := Octet0(qbuf[0], qbuf[1]);
    if len >= 2 {
      result := result + [c];
      c := Octet1(qbuf[1], qbuf[2]);
      if len >= 3 {
        result := result + [c];
        c := Octet2(qbuf[2], qbuf[3]);
        if len >= 4 {
          result := result + [c];
          c := 0;
        }
      }
    }
  }

  /** DecodeFromArray: quantum after quantum, for any flags. */
  method DecodeFromArray(data: seq<bv8>, flags: Flags) returns (success: bool, result: seq<bv8>, used: nat)
    ensures Decoded(success, result, used) == Decode(flags, data)
  {
    hide NextQuantum, Bytes, Unused, ScanOn, Octet0, Octet1, Octet2, Decode, Resumes;
    result, used := [], 0;
    NotBegun(Decode(flags, data));
    var qbuf := new bv8[4];
    assert data[0..] == data;
    while used < |data|
      invariant used <= |data|
      invariant Resumes(Decode(flags, data), result, used, Decode(flags, data[used..]))
    {
      ghost var rest, done, before := data[used..], used, result;
      var len, padded, next := GetNextQuantum(flags.parse, flags.pad.PadNo?, data, used, qbuf);
      var c;
      result, c := PushBytes(result, qbuf, len);
      used := next;
      OneQuantum(flags, rest);
      Resume(Decode(flags, data), before, done, Decode(flags, rest));
      if len < 4 {
        success := true;
        if !flags.term.TermAny? && c != 0 {
          success := false;
        }
        if flags.pad.PadYes? && !padded {
          success := false;
        }
        if flags.term.TermBuffer? && used != |data| {
          success := false;
        }
        return;
      }
      assert rest[next - done..] == data[used..];
      Resumed(Decode(flags, data), before, done, Bytes(qbuf[..len]), next - done, Decode(flags, rest), Decode(flags, data[used..]));
    }
    DecodeNothing(flags);
    assert data[used..] == [];
    Resume(Decode(flags, data), result, used, Decode(flags, []));
    success := true;
  }

  lemma OneQuantum(flags: Flags, data: seq<bv8>)
    requires data != []
    ensures var q := NextQuantum(flags.parse, flags.pad.PadNo?, data);
            if |q.values| == 4 && q.used <= |data| then
              var more := Decode(flags, data[q.used..]);
              Decode(flags, data) == Decoded(more.success, Bytes(q.values) + more.bytes, q.used + more.used)
            else |q.values| < 4 ==>
              Decode(flags, data) == Decoded(
                && (flags.term.TermAny? || Unused(q.values) == 0)
                && (!flags.pad.PadYes? || q.padded)
                && (!flags.term.TermBuffer? || q.used == |data|),
                Bytes(q.values), q.used)
  {
    hide NextQuantum, Bytes, Unused, ScanOn;
  }

  lemma NotBegun(whole: Decoded)
    ensures Resumes(whole, [], 0, whole)
  {
    assert [] + whole.bytes == whole.bytes;
  }

  lemma Resume(whole: Decoded, result: seq<bv8>, used: nat, more: Decoded)
    requires Resumes(whole, result, used, more)
    ensures whole == Decoded(more.success, result + more.bytes, used + more.used)
  {
  }

  lemma Resumed(whole: Decoded, result: seq<bv8>, used: nat, bytes: seq<bv8>, n: nat, here: Decoded, more: Decoded)
    requires Resumes(whole, result, used, here) && here == Decoded(more.success, bytes + more.bytes, n + more.used)
    ensures Resumes(whole, result + bytes, used + n, more)
  {
    assert result + (bytes + more.bytes) == (result + bytes) + more.bytes;
  }

  /** The whole decoding is what was produced so far, and then the decoding of the rest. */
  ghost predicate Resumes(whole: Decoded, result: seq<bv8>, used: nat, more: Decoded) {
    whole == Decoded(more.success, result + more.bytes, used + more.used)
  }

  // --- any characters: only the alphabet counts -----------------------------------------------------

  /** The values of the alphabet characters in `data`, everything else left out. */
  function Alphabet(data: seq<bv8>): seq<bv8> {
    if data == [] then []
    else InAlphabet(data[0]) + Alphabet(data[1..])
  }

  function AllBytes(values: seq<bv8>): seq<bv8> {
    if |values| < 4 then Bytes(values) else Bytes(values[..4]) + AllBytes(values[4..])
  }

  function InAlphabet(c: bv8): seq<bv8> {
    if Lookup(c) < 64 then [Lookup(c)] else []
  }

  lemma AnyRead(illegalPads: bool, c: bv8, s: Scan, n: nat)
    requires Sane(s, n) && |s.values| < 4 && s.pos < n
    ensures var move := Read(ParseAny, illegalPads, c, s);
            move.Go? && Sane(move.scan, n) && move.scan.pos == s.pos + 1 && move.scan.values == s.values + InAlphabet(c)
  {
    LookupSymbol(c);
    hide Lookup, Symbol;
  }

  /** A quantum takes the next alphabet characters, whatever pads were counted, cancelled or skipped. */
  lemma {:induction false} AnyScan(illegalPads: bool, data: seq<bv8>, s: Scan)
    requires Sane(s, |data|)
    ensures var t := ScanOn(ParseAny, illegalPads, data, s);
            && t.pos <= |data| && (|t.values| < 4 ==> t.pos == |data|)
            && s.values + Alphabet(data[s.pos..]) == t.values + Alphabet(data[t.pos..])
    decreases |data| - s.pos
  {
    hide Read, InAlphabet;
    if |s.values| < 4 && s.pos < |data| {
      var c := data[s.pos];
      AnyRead(illegalPads, c, s, |data|);
      var next := Read(ParseAny, illegalPads, c, s).scan;
      AnyScan(illegalPads, data, next);
      var rest := data[s.pos..];
      assert rest[0] == c && rest[1..] == data[s.pos + 1..];
      assert s.values + (InAlphabet(c) + Alphabet(rest[1..])) == (s.values + InAlphabet(c)) + Alphabet(rest[1..]);
    }
  }

  /**
   * When every character may be parsed, the decoded bytes depend only on the alphabet characters
   * in the input, for every pad and termination mode.
   */
  lemma AnyDecoding(flags: Flags, data: seq<bv8>)
    requires flags.parse.ParseAny?
    ensures Decode(flags, data).bytes == AllBytes(Alphabet(data))
  {
    hide Decode, AllBytes, Alphabet;
    AnyCharacters(flags, data);
  }

  // --- white space ------------------------------------------------------------------------------

  predicate Blank(c: bv8) { Lookup(c) == SPACE }

  /** The text without its white space. */
  function Strip(data: seq<bv8>): seq<bv8> {
    if data == [] then [] else (if Blank(data[0]) then [] else [data[0]]) + Strip(data[1..])
  }

  /** A scan of the text and a scan of the stripped text that have the same to come and found the same. */
  ghost predicate InStep(data: seq<bv8>, s: Scan, text: seq<bv8>, t: Scan) {
    && s.pos <= |data| && t.pos <= |text| && Strip(data[s.pos..]) == text[t.pos..]
    && s.values == t.values && s.pads == t.pads
    && (s.pads > 0 ==> && s.padStart < s.pos && t.padStart < t.pos && !Blank(data[s.padStart])
                       && Strip(data[s.padStart..]) == text[t.padStart..])
  }

  lemma SameRead(illegalPads: bool, c: bv8, s: Scan, t: Scan)
    requires !Blank(c) && s.values == t.values && s.pads == t.pads
    requires s.pads > 0 ==> s.padStart < s.pos && t.padStart < t.pos
    ensures var a, b := Read(ParseWhite, illegalPads, c, s), Read(ParseStrict, illegalPads, c, t);
            && a.Go? == b.Go?
            && (a.Go? ==> a.scan.pos == s.pos + 1 && b.scan.pos == t.pos + 1
                          && a.scan.values == b.scan.values && a.scan.pads == b.scan.pads
                          && (a.scan.pads > 0 ==> a.scan.padStart == (if s.pads == 0 then s.pos else s.padStart)
                                                  && b.scan.padStart == (if t.pads == 0 then t.pos else t.padStart)))
  {
    hide Lookup;
  }

  lemma BlankRead(illegalPads: bool, c: bv8, s: Scan)
    requires Blank(c)
    ensures Read(ParseWhite, illegalPads, c, s) == Go(s.(pos := s.pos + 1))
  {
    hide Lookup;
  }

  /** Skipping white space on the way and never having had any lead to the same place. */
  lemma {:induction false} WhiteScan(illegalPads: bool, data: seq<bv8>, s: Scan, text: seq<bv8>, t: Scan)
    requires InStep(data, s, text, t)
    ensures InStep(data, ScanOn(ParseWhite, illegalPads, data, s), text, ScanOn(ParseStrict, illegalPads, text, t))
    ensures var end := ScanOn(ParseWhite, illegalPads, data, s);
            |end.values| < 4 ==>
              && (end.pos == |data| <==> ScanOn(ParseStrict, illegalPads, text, t).pos == |text|)
              && (end.pos == |data| || !Blank(data[end.pos]))
    decreases |data| - s.pos
  {
    hide Read, Blank, ScanOn;
    if |s.values| == 4 || s.pos == |data| {
      ScanEnds(ParseWhite, illegalPads, data, s);
      ScanEnds(ParseStrict, illegalPads, text, t);
    } else {
      var c, rest := data[s.pos], data[s.pos..];
      assert rest[0] == c && rest[1..] == data[s.pos + 1..];
      ScanStep(ParseWhite, illegalPads, data, s);
      if Blank(c) {
        BlankRead(illegalPads, c, s);
        WhiteScan(illegalPads, data, s.(pos := s.pos + 1), text, t);
      } else {
        assert text[t.pos..] == [c] + Strip(rest[1..]) && text[t.pos] == text[t.pos..][0];
        assert text[t.pos + 1..] == text[t.pos..][1..];
        ScanStep(ParseStrict, illegalPads, text, t);
        SameRead(illegalPads, c, s, t);
        var move := Read(ParseWhite, illegalPads, c, s);
        if move.Go? {
          WhiteScan(illegalPads, data, move.scan, text, Read(ParseStrict, illegalPads, c, t).scan);
        }
      }
    }
  }

  /** What is left is the same but for white space, and does not begin with any. */
  ghost predicate SameLeft(data: seq<bv8>, used: nat, text: seq<bv8>, textUsed: nat) {
    && used <= |data| && textUsed <= |text| && Strip(data[used..]) == text[textUsed..]
    && (used < |data| ==> !Blank(data[used]))
  }

  lemma LeftBehind(data: seq<bv8>, k: nat, used: nat, text: seq<bv8>, j: nat, textUsed: nat)
    requires k <= |data| && j <= |text| && SameLeft(data[k..], used, text[j..], textUsed)
    ensures SameLeft(data, k + used, text, j + textUsed)
  {
    hide Blank, Strip;
    assert data[k..][used..] == data[k + used..] && text[j..][textUsed..] == text[j + textUsed..];
    assert used < |data[k..]| ==> data[k..][used] == data[k + used];
  }

  lemma SameLeftAtEnd(data: seq<bv8>, s: Scan, text: seq<bv8>, t: Scan)
    requires InStep(data, s, text, t) && |s.values| < 4 && (s.pos == |data| || !Blank(data[s.pos]))
    ensures SameLeft(data, Close(s).used, text, Close(t).used)
  {
    hide Blank, Strip;
  }

  predicate BlankEnd(data: seq<bv8>) {
    data != [] && Blank(data[|data| - 1])
  }

  lemma {:induction false} NothingButBlanks(data: seq<bv8>)
    requires data != [] && Strip(data) == []
    ensures BlankEnd(data)
    decreases |data|
  {
    hide Blank;
    if |data| > 1 {
      NothingButBlanks(data[1..]);
    }
  }

  /** A scan that finds its fourth sextet stops right behind it. */
  lemma {:induction false} EndsOnSymbol(illegalPads: bool, data: seq<bv8>, s: Scan)
    requires s.pos <= |data| && |s.values| < 4
    ensures var t := ScanOn(ParseWhite, illegalPads, data, s);
            |t.values| == 4 ==> 0 < t.pos <= |data| && !Blank(data[t.pos - 1])
    decreases |data| - s.pos
  {
    hide Read, Blank, ScanOn;
    if s.pos == |data| {
      ScanEnds(ParseWhite, illegalPads, data, s);
    } else {
      var c := data[s.pos];
      ScanStep(ParseWhite, illegalPads, data, s);
      ReadGrows(illegalPads, c, s);
      var move := Read(ParseWhite, illegalPads, c, s);
      if move.Go? {
        if |move.scan.values| == 4 {
          ScanEnds(ParseWhite, illegalPads, data, move.scan);
        } else {
          EndsOnSymbol(illegalPads, data, move.scan);
        }
      }
    }
  }

  lemma ReadGrows(illegalPads: bool, c: bv8, s: Scan)
    ensures var move := Read(ParseWhite, illegalPads, c, s);
            move.Go? ==> && move.scan.pos == s.pos + 1
                         && (move.scan.values == s.values || (|move.scan.values| == |s.values| + 1 && !Blank(c)))
  {
    hide Lookup;
  }

  /** A padded quantum makes one byte or two. */
  lemma PaddedQuantum(text: seq<bv8>, t: Scan)
    requires StrictShape(text, t) && |t.values| < 4 && |t.values| + t.pads == 4
    ensures |Bytes(t.values)| == 1 || |Bytes(t.values)| == 2
  {
    hide Symbol, Octet0, Octet1, Octet2;
  }

  /**
   * In white-space mode white space does not matter: for every pad and termination mode the bytes are
   * those of the stripped text, and so is success, except that required padding is missed when
   * white space follows an encoding that needs none.
   */
  lemma {:induction false} WhiteDecoding(flags: Flags, data: seq<bv8>)
    requires flags.parse.ParseWhite?
    ensures var white, strict := Decode(flags, data), Decode(flags.(parse := ParseStrict), Strip(data));
            && white.bytes == strict.bytes
            && (white.success <==> strict.success && !(flags.pad.PadYes? && |strict.bytes| % 3 == 0 && BlankEnd(data)))
    decreases |data|
  {
    hide Read, Blank, ScanOn, Bytes, Unused, StrictShape, Decode, Sane;
    if data == [] {
      DecodeNothing(flags);
      DecodeNothing(flags.(parse := ParseStrict));
    } else {
      var illegalPads, text := flags.pad.PadNo?, Strip(data);
      assert data[0..] == data && text[0..] == text;
      WhiteScan(illegalPads, data, START, text, START);
      DecodeStep(flags, data);
      var s := ScanOn(ParseWhite, illegalPads, data, START);
      if text == [] {
        ScanEnds(ParseStrict, illegalPads, text, START);
        DecodeNothing(flags.(parse := ParseStrict));
        EmptyQuantum();
        NothingButBlanks(data);
      } else {
        DecodeStep(flags.(parse := ParseStrict), text);
        if |s.values| == 4 {
          EndsOnSymbol(illegalPads, data, START);
          WhiteDecoding(flags, data[s.pos..]);
          FullQuantum(s.values);
        } else if flags.pad.PadYes? {
          PaddedBytes(text);
        }
      }
    }
  }

  /** What is used: all up to where strict decoding of the stripped text stops, and the white space behind it. */
  lemma {:induction false} WhiteUsed(flags: Flags, data: seq<bv8>)
    requires flags.parse.ParseWhite?
    ensures SameLeft(data, Decode(flags, data).used, Strip(data), Decode(flags.(parse := ParseStrict), Strip(data)).used)
    decreases |data|
  {
    hide Read, Blank, ScanOn, Bytes, Unused, Decode, Sane, SameLeft, InStep, Strip;
    if data == [] {
      DecodeNothing(flags);
      NothingLeftOver();
      DecodeNothing(flags.(parse := ParseStrict));
    } else {
      var illegalPads, text := flags.pad.PadNo?, Strip(data);
      StartInStep(data);
      WhiteScan(illegalPads, data, START, text, START);
      DecodeStep(flags, data);
      var s, t := ScanOn(ParseWhite, illegalPads, data, START), ScanOn(ParseStrict, illegalPads, text, START);
      SameFound(data, s, text, t);
      if text == [] {
        ScanEnds(ParseStrict, illegalPads, text, START);
        DecodeNothing(flags.(parse := ParseStrict));
        SameLeftAtEnd(data, s, text, t);
      } else {
        DecodeStep(flags.(parse := ParseStrict), text);
        if |s.values| == 4 {
          WhiteUsed(flags, data[s.pos..]);
          LeftBehind(data, s.pos, Decode(flags, data[s.pos..]).used,
                     text, t.pos, Decode(flags.(parse := ParseStrict), text[t.pos..]).used);
        } else {
          SameLeftAtEnd(data, s, text, t);
        }
      }
    }
  }

  lemma NothingLeftOver()
    ensures Strip([]) == [] && SameLeft([], 0, [], 0)
  {
  }

  lemma StartInStep(data: seq<bv8>)
    ensures InStep(data, START, Strip(data), START)
  {
    hide Strip;
    assert data[0..] == data && Strip(data)[0..] == Strip(data);
  }

  lemma SameFound(data: seq<bv8>, s: Scan, text: seq<bv8>, t: Scan)
    requires InStep(data, s, text, t)
    ensures s.values == t.values && s.pos <= |data| && t.pos <= |text| && Strip(data[s.pos..]) == text[t.pos..]
  {
  }

  lemma DecodeNothing(flags: Flags)
    ensures Decode(flags, []) == Decoded(true, [], 0)
  {
  }

  /** What decoding makes of a quantum that does not fill up, the scan having ended as `s` in n characters. */
  function Finish(flags: Flags, s: Scan, n: nat): Decoded {
    var q := Close(s);
    Decoded(
      && (flags.term.TermAny? || Unused(q.values) == 0)
      && (!flags.pad.PadYes? || q.padded)
      && (!flags.term.TermBuffer? || q.used == n),
      Bytes(q.values), q.used)
  }

  lemma DecodeStep(flags: Flags, data: seq<bv8>)
    requires data != []
    ensures var s := ScanOn(flags.parse, flags.pad.PadNo?, data, START);
            && s.pos <= |data| && (|s.values| == 4 ==> s.pos >= 4)
            && (if |s.values| == 4 then
                  var more := Decode(flags, data[s.pos..]);
                  Decode(flags, data) == Decoded(more.success, Bytes(s.values) + more.bytes, s.pos + more.used)
                else |s.values| < 4 && Decode(flags, data) == Finish(flags, s, |data|))
  {
    hide ScanOn, Bytes, Unused;
    ScanIsSane(flags.parse, flags.pad.PadNo?, data, START);
  }

  lemma PaddedBytes(text: seq<bv8>)
    ensures var t := ScanOn(ParseStrict, false, text, START);
            |t.values| < 4 && |t.values| + t.pads == 4 ==> |Bytes(t.values)| % 3 != 0
  {
    hide ScanOn, Bytes, StrictShape;
    StartShape(text);
    StrictScan(text, START);
    var t := ScanOn(ParseStrict, false, text, START);
    if |t.values| < 4 && |t.values| + t.pads == 4 {
      PaddedQuantum(text, t);
    }
  }

  lemma StartShape(text: seq<bv8>)
    ensures StrictShape(text, START)
  {
  }

  lemma EmptyQuantum()
    ensures Bytes([]) == [] && Unused([]) == 0
  {
  }

  // --- strict: exactly the canonical encodings ------------------------------------------------------

  /** A strict scan has taken symbols, then pads, and nothing else. */
  ghost predicate StrictShape(data: seq<bv8>, s: Scan) {
    && s.pos == |s.values| + s.pads <= |data|
    && s.pos <= 4 && (s.pads > 0 ==> |s.values| >= 2 && s.padStart == |s.values|)
    && (forall i | 0 <= i < |s.values| :: s.values[i] < 64 && data[i] == Symbol(s.values[i]))
    && (forall i | |s.values| <= i < s.pos :: data[i] == PAD_CHAR)
  }

  lemma {:induction false} StrictScan(data: seq<bv8>, s: Scan)
    requires StrictShape(data, s)
    ensures StrictShape(data, ScanOn(ParseStrict, false, data, s))
    decreases |data| - s.pos
  {
    if |s.values| < 4 && s.pos < |data| {
      LookupSymbol(data[s.pos]);
      hide Lookup, Symbol;
      var move := Read(ParseStrict, false, data[s.pos], s);
      if move.Go? {
        StrictScan(data, move.scan);
      }
    }
  }

  lemma UnusedIsZero(s0: bv8, s1: bv8, s2: bv8)
    requires s0 < 64 && s1 < 64 && s2 < 64
    ensures Octet1(s1, 0) == 0 ==> Sextet1(Octet0(s0, s1), 0) == s1
    ensures Octet2(s2, 0) == 0 ==> Sextet2(Octet1(s1, s2), 0) == s2
    ensures Sextet0(Octet0(s0, s1)) == s0 && Sextet1(Octet0(s0, s1), Octet1(s1, s2)) == s1
  {
  }

  /** A strictly accepted quantum of four characters is the quad of its bytes. */
  lemma StrictQuad(data: seq<bv8>, s: Scan)
    requires StrictShape(data, s) && s.pos == 4 && Unused(s.values) == 0
    ensures var b := Bytes(s.values);
            |s.values| >= 2 && |b| == |s.values| - 1 && Quad(b) == data[..4]
  {
    var v := s.values;
    if |v| == 2 {
      UnusedIsZero(v[0], v[1], 0);
    } else if |v| == 3 {
      UnusedIsZero(v[0], v[1], v[2]);
    } else if |v| == 4 {
      SextetsOfOctets(v[0], v[1], v[2], v[3]);
    }
    hide Symbol, Octet0, Octet1, Octet2, Sextet0, Sextet1, Sextet2, Sextet3;
  }

  lemma {:induction false} StrictIsCanonical(data: seq<bv8>)
    ensures var d := Decode(STRICT, data); d.success ==> data == Encode(d.bytes)
    decreases |data|
  {
    if data != [] {
      ScanIsSane(ParseStrict, false, data, START);
      StrictScan(data, START);
      var t := ScanOn(ParseStrict, false, data, START);
      hide ScanOn, Unused, Bytes, Quad;
      var d := Decode(STRICT, data);
      if |t.values| == 4 {
        FullQuantum(t.values);
        StrictQuad(data, t);
        StrictIsCanonical(data[4..]);
        var b := Bytes(t.values);
        QuadOfFront(b, d.bytes);
        assert data == data[..4] + data[4..];
        assert AfterQuad(d.bytes) == Decode(STRICT, data[4..]).bytes;
      } else if d.success {
        StrictQuad(data, t);
        assert data[..4] == data;
        assert AfterQuad(d.bytes) == [] && data + [] == data;
      }
    }
  }

  lemma FullQuantum(v: seq<bv8>)
    requires |v| == 4
    ensures Unused(v) == 0 && |Bytes(v)| == 3
  {
  }

  lemma QuadOfFront(front: seq<bv8>, all: seq<bv8>)
    requires |front| == 3 && front <= all
    ensures Quad(all) == Quad(front)
  {
  }

  lemma SymbolStep(data: seq<bv8>, s: Scan, v: bv8)
    requires s.pos < |data| && |s.values| < 4 && s.pads == 0 && s.padStart == 0
    requires v < 64 && data[s.pos] == Symbol(v)
    ensures ScanOn(ParseStrict, false, data, s) == ScanOn(ParseStrict, false, data, Scan(s.pos + 1, s.values + [v], 0, 0))
  {
    hide Lookup, Symbol;
    SymbolLookup(v);
  }

  lemma PadRead(data: seq<bv8>, s: Scan)
    requires s.pos < |data| && 2 <= |s.values| && |s.values| + s.pads < 4 && data[s.pos] == PAD_CHAR
    ensures Read(ParseStrict, false, data[s.pos], s)
         == Go(Scan(s.pos + 1, s.values, s.pads + 1, if s.pads == 0 then s.pos else s.padStart))
  {
    hide Lookup, Symbol;
    LookupSymbol(PAD_CHAR);
  }

  lemma PadStep(data: seq<bv8>, s: Scan)
    requires s.pos < |data| && 2 <= |s.values| && |s.values| + s.pads < 4 && data[s.pos] == PAD_CHAR
    ensures ScanOn(ParseStrict, false, data, s)
         == ScanOn(ParseStrict, false, data, Scan(s.pos + 1, s.values, s.pads + 1, if s.pads == 0 then s.pos else s.padStart))
  {
    hide Lookup, Symbol, Read;
    PadRead(data, s);
  }

  /** The sextets a quad carries. */
  function Sextets(b: seq<bv8>): seq<bv8>
    requires b != []
  {
    var b1, b2 := if |b| > 1 then b[1] else 0, if |b| > 2 then b[2] else 0;
    [Sextet0(b[0]), Sextet1(b[0], b1)]
    + (if |b| > 1 then [Sextet2(b1, b2)] else [])
    + (if |b| > 2 then [Sextet3(b2)] else [])
  }

  lemma QuadSymbols(b: seq<bv8>, data: seq<bv8>)
    requires b != [] && |data| >= 4 && data[..4] == Quad(b)
    ensures var v := Sextets(b);
            && |v| == (if |b| > 2 then 4 else |b| + 1)
            && (forall i | 0 <= i < |v| :: v[i] < 64 && data[i] == Symbol(v[i]))
            && (forall i | |v| <= i < 4 :: data[i] == PAD_CHAR)
  {
    hide Symbol, Sextet0, Sextet1, Sextet2, Sextet3;
    assert data[0] == Quad(b)[0] && data[1] == Quad(b)[1] && data[2] == Quad(b)[2] && data[3] == Quad(b)[3];
  }

  lemma {:induction false} SymbolsScan(data: seq<bv8>, v: seq<bv8>, i: nat)
    requires i <= |v| <= 4 <= |data| && forall k | 0 <= k < |v| :: v[k] < 64 && data[k] == Symbol(v[k])
    ensures ScanOn(ParseStrict, false, data, START) == ScanOn(ParseStrict, false, data, Scan(i, v[..i], 0, 0))
  {
    hide Symbol, ScanOn;
    if i > 0 {
      SymbolsScan(data, v, i - 1);
      SymbolStep(data, Scan(i - 1, v[..i - 1], 0, 0), v[i - 1]);
      assert v[..i - 1] + [v[i - 1]] == v[..i];
    }
  }

  lemma {:induction false} PadsScan(data: seq<bv8>, v: seq<bv8>, pads: nat)
    requires |data| >= 4 && 2 <= |v| && |v| + pads <= 4
    requires forall k | |v| <= k < 4 :: data[k] == PAD_CHAR
    ensures ScanOn(ParseStrict, false, data, Scan(|v|, v, 0, 0))
         == ScanOn(ParseStrict, false, data, Scan(|v| + pads, v, pads, if pads == 0 then 0 else |v|))
  {
    hide ScanOn;
    if pads > 0 {
      PadsScan(data, v, pads - 1);
      PadStep(data, Scan(|v| + pads - 1, v, pads - 1, if pads == 1 then 0 else |v|));
    }
  }

  /** A strict scan of an encoding takes exactly its first quad. */
  lemma QuadScan(b: seq<bv8>, data: seq<bv8>)
    requires b != [] && |data| >= 4 && data[..4] == Quad(b) && (|b| <= 2 ==> |data| == 4)
    ensures var s := ScanOn(ParseStrict, false, data, START);
            s.values == Sextets(b) && s.pos == 4 && |s.values| + s.pads == 4
  {
    hide Symbol, Quad, Sextets, ScanOn;
    var v := Sextets(b);
    QuadSymbols(b, data);
    SymbolsScan(data, v, |v|);
    assert v[..|v|] == v;
    PadsScan(data, v, 4 - |v|);
    ScanEnds(ParseStrict, false, data, Scan(4, v, 4 - |v|, if |v| == 4 then 0 else |v|));
  }

  lemma SextetBytes(b: seq<bv8>)
    requires b != []
    ensures |Sextets(b)| == if |b| > 2 then 4 else |b| + 1
    ensures Bytes(Sextets(b)) == (if |b| <= 3 then b else b[..3]) && Unused(Sextets(b)) == 0
  {
    OctetsOfSextets(b[0], if |b| > 1 then b[1] else 0, if |b| > 2 then b[2] else 0);
    hide Octet0, Octet1, Octet2, Sextet0, Sextet1, Sextet2, Sextet3;
  }

  /** Decoding undoes encoding. */
  lemma {:induction false} StrictRoundTrip(b: seq<bv8>)
    ensures Decode(STRICT, Encode(b)) == Decoded(true, b, |Encode(b)|)
    decreases |b|
  {
    hide ScanOn, Unused, Bytes, Quad, Sextets;
    if b != [] {
      var data := Encode(b);
      QuadScan(b, data);
      SextetBytes(b);
      ScanIsSane(ParseStrict, false, data, START);
      if |b| > 2 {
        StrictRoundTrip(AfterQuad(b));
        assert data[4..] == Encode(AfterQuad(b));
        assert b == (if |b| <= 3 then b else b[..3]) + AfterQuad(b);
      }
    }
  }

  /** Strict decoding gives r exactly for the canonical encoding of r. */
  lemma StrictAcceptsCanonical(data: seq<bv8>, r: seq<bv8>)
    ensures (Decode(STRICT, data).success && Decode(STRICT, data).bytes == r) <==> data == Encode(r)
  {
    hide Decode, Encode;
    StrictIsCanonical(data);
    StrictRoundTrip(r);
  }

  // --- white space after an encoding ----------------------------------------------------------------

  lemma SymbolIsNoBlank(v: bv8)
    requires v < 64
    ensures !Blank(Symbol(v)) && !Blank(PAD_CHAR)
  {
  }

  ghost predicate NoBlanks(data: seq<bv8>) {
    forall i | 0 <= i < |data| :: !Blank(data[i])
  }

  lemma QuadHasNoBlank(b: seq<bv8>)
    requires b != []
    ensures NoBlanks(Quad(b))
  {
    hide Symbol, Blank, Sextet0, Sextet1, Sextet2, Sextet3;
    var b1, b2 := if |b| > 1 then b[1] else 0, if |b| > 2 then b[2] else 0;
    SymbolIsNoBlank(Sextet0(b[0]));
    SymbolIsNoBlank(Sextet1(b[0], b1));
    SymbolIsNoBlank(Sextet2(b1, b2));
    SymbolIsNoBlank(Sextet3(b2));
  }

  lemma {:induction false} EncodingHasNoBlank(b: seq<bv8>)
    ensures NoBlanks(Encode(b))
    decreases |b|
  {
    hide Quad, Blank;
    if b != [] {
      QuadHasNoBlank(b);
      EncodingHasNoBlank(AfterQuad(b));
    }
  }

  lemma {:induction false} StripBlankEnd(data: seq<bv8>, c: bv8)
    requires NoBlanks(data) && Blank(c)
    ensures Strip(data + [c]) == data
    decreases |data|
  {
    hide Blank;
    if data == [] {
      assert [c][1..] == [];
    } else {
      assert forall i | 0 <= i < |data| - 1 :: data[1..][i] == data[i + 1];
      StripBlankEnd(data[1..], c);
      assert (data + [c])[1..] == data[1..] + [c];
    }
  }

  const WHITE := Flags(ParseWhite, PadYes, TermBuffer)

  /**
   * Allowing white space and requiring padding: an encoding followed by one white-space character is
   * accepted exactly when it ends in padding.
   */
  lemma BlankAfterEncoding(b: seq<bv8>, c: bv8)
    requires Blank(c)
    ensures Decode(WHITE, Encode(b) + [c]).bytes == b
    ensures Decode(WHITE, Encode(b) + [c]).success <==> |b| % 3 != 0
  {
    hide Decode, Encode, Blank;
    EncodingHasNoBlank(b);
    StripBlankEnd(Encode(b), c);
    WhiteDecoding(WHITE, Encode(b) + [c]);
    StrictRoundTrip(b);
  }

  // --- what is decoded, said over the text: strict parsing ------------------------------------------

  predicate IsSymbol(c: bv8) { Lookup(c) < 64 }

  /** How many characters of the alphabet the text begins with. */
  function SymbolRun(data: seq<bv8>): (n: nat)
    ensures n <= |data| && (forall i | 0 <= i < n :: IsSymbol(data[i])) && (n < |data| ==> !IsSymbol(data[n]))
  {
    if data == [] || !IsSymbol(data[0]) then 0 else 1 + SymbolRun(data[1..])
  }

  lemma SymbolRunIs(data: seq<bv8>, n: nat)
    requires n <= |data| && (forall i | 0 <= i < n :: IsSymbol(data[i])) && (n < |data| ==> !IsSymbol(data[n]))
    ensures SymbolRun(data) == n
  {
  }

  function Values(data: seq<bv8>): (v: seq<bv8>)
    ensures |v| == |data| && forall i | 0 <= i < |data| :: v[i] == Lookup(data[i])
  {
    seq(|data|, i requires 0 <= i < |data| => Lookup(data[i]))
  }

  /** The sextets that do not fill a quantum. */
  function LastValues(values: seq<bv8>): seq<bv8> {
    values[|values| - |values| % 4..]
  }

  /** The n symbols at the front are followed by the pads that complete their last quantum. */
  predicate Padded(data: seq<bv8>, n: nat)
    requires n <= |data|
  {
    n % 4 >= 2 && n + 4 - n % 4 <= |data| && forall i | n <= i < n + 4 - n % 4 :: data[i] == PAD_CHAR
  }

  /** How many pads follow the front n characters. */
  function PadRun(data: seq<bv8>, n: nat): (p: nat)
    requires n <= |data|
    ensures n + p <= |data| && (forall i | n <= i < n + p :: data[i] == PAD_CHAR) && (n + p < |data| ==> data[n + p] != PAD_CHAR)
    decreases |data| - n
  {
    if n == |data| || data[n] != PAD_CHAR then 0 else 1 + PadRun(data, n + 1)
  }

  /** How many of them a strict scan takes behind n symbols. */
  function PadsTaken(illegalPads: bool, data: seq<bv8>, n: nat): nat
    requires n <= |data| && n < 4
  {
    if illegalPads || n < 2 then 0 else if PadRun(data, n) > 4 - n then 4 - n else PadRun(data, n)
  }

  lemma SymbolMove(illegalPads: bool, c: bv8, s: Scan)
    requires IsSymbol(c) && s.pads == 0 && s.padStart == 0
    ensures Read(ParseStrict, illegalPads, c, s) == Go(Scan(s.pos + 1, s.values + [Lookup(c)], 0, 0))
  {
    hide Lookup;
  }

  lemma {:induction false} StrictSymbols(illegalPads: bool, data: seq<bv8>, i: nat)
    requires i <= SymbolRun(data) && i <= 4
    ensures ScanOn(ParseStrict, illegalPads, data, START) == ScanOn(ParseStrict, illegalPads, data, Scan(i, Values(data[..i]), 0, 0))
  {
    hide Lookup, Read, ScanOn, SymbolRun;
    if i > 0 {
      StrictSymbols(illegalPads, data, i - 1);
      var s := Scan(i - 1, Values(data[..i - 1]), 0, 0);
      ScanStep(ParseStrict, illegalPads, data, s);
      SymbolMove(illegalPads, data[i - 1], s);
      assert Values(data[..i - 1]) + [Lookup(data[i - 1])] == Values(data[..i]);
    }
  }

  /** A strict scan behind its symbols: a pad it may take, or the end of the quantum. */
  lemma PadMove(illegalPads: bool, c: bv8, n: nat, p: nat, values: seq<bv8>)
    requires |values| == n < 4 && (!IsSymbol(c) || p > 0) && (p > 0 ==> n >= 2 && n + p <= 4)
    ensures var move := Read(ParseStrict, illegalPads, c, Scan(n + p, values, p, if p == 0 then 0 else n));
            if c == PAD_CHAR && !illegalPads && n >= 2 && n + p < 4 then move == Go(Scan(n + p + 1, values, p + 1, n)) else move.Stop?
  {
    LookupSymbol(c);
    hide Lookup, Symbol;
  }

  lemma {:induction false} StrictPads(illegalPads: bool, data: seq<bv8>, n: nat, p: nat)
    requires n == SymbolRun(data) < 4 && p <= PadsTaken(illegalPads, data, n)
    ensures ScanOn(ParseStrict, illegalPads, data, Scan(n + p, Values(data[..n]), p, if p == 0 then 0 else n))
         == Scan(n + PadsTaken(illegalPads, data, n), Values(data[..n]), PadsTaken(illegalPads, data, n),
                 if PadsTaken(illegalPads, data, n) == 0 then 0 else n)
    decreases PadsTaken(illegalPads, data, n) - p
  {
    hide Lookup, Read, ScanOn, SymbolRun, PadRun;
    var v, s := Values(data[..n]), Scan(n + p, Values(data[..n]), p, if p == 0 then 0 else n);
    if n + p == |data| {
      ScanEnds(ParseStrict, illegalPads, data, s);
    } else {
      ScanStep(ParseStrict, illegalPads, data, s);
      PadMove(illegalPads, data[n + p], n, p, v);
      if p < PadsTaken(illegalPads, data, n) {
        StrictPads(illegalPads, data, n, p + 1);
      }
    }
  }

  /** What a strict scan finds: four symbols, or fewer and as many pads as complete them. */
  lemma StrictScanIs(illegalPads: bool, data: seq<bv8>)
    ensures var n, s := SymbolRun(data), ScanOn(ParseStrict, illegalPads, data, START);
            if n >= 4 then s == Scan(4, Values(data[..4]), 0, 0)
            else s == Scan(n + PadsTaken(illegalPads, data, n), Values(data[..n]), PadsTaken(illegalPads, data, n),
                           if PadsTaken(illegalPads, data, n) == 0 then 0 else n)
  {
    hide Lookup, ScanOn, SymbolRun, PadRun, PadsTaken;
    var n := SymbolRun(data);
    if n >= 4 {
      StrictSymbols(illegalPads, data, 4);
      ScanEnds(ParseStrict, illegalPads, data, Scan(4, Values(data[..4]), 0, 0));
    } else {
      StrictSymbols(illegalPads, data, n);
      StrictPads(illegalPads, data, n, 0);
    }
  }

  lemma PaddedIs(data: seq<bv8>, n: nat)
    requires n <= |data| && n < 4
    ensures Padded(data, n) <==> n + PadsTaken(false, data, n) == 4
    ensures PadsTaken(true, data, n) == 0 && (n < 2 ==> PadsTaken(false, data, n) == 0)
  {
  }

  /**
   * What strict parsing is to make of a text, for every pad and termination mode. The bytes are those of the
   * symbols at the front. Used are these symbols, and with them the pads that complete their last
   * quantum, unless padding is disallowed. Success is: nothing but whole quanta; or no bits left over
   * (unless any end will do), the pads there if required, and all characters used if required.
   */
  function StrictText(flags: Flags, data: seq<bv8>): Decoded {
    var n := SymbolRun(data);
    Concluded(flags, n, |data|, !flags.pad.PadNo? && Padded(data, n), Values(data[..n]))
  }

  /** The outcome for n symbols of these values in a text of this size. */
  function Concluded(flags: Flags, n: nat, size: nat, padded: bool, values: seq<bv8>): Decoded {
    Decoded(Accepted(flags, n, size, padded, Unused(LastValues(values)) == 0), AllBytes(values), UsedOf(n, padded))
  }

  function UsedOf(n: nat, padded: bool): nat {
    if padded then n + 4 - n % 4 else n
  }

  predicate Accepted(flags: Flags, n: nat, size: nat, padded: bool, nothingLeft: bool) {
    || (n == size && n % 4 == 0)
    || (&& (flags.term.TermAny? || nothingLeft)
        && (flags.pad.PadYes? ==> padded)
        && (flags.term.TermBuffer? ==> UsedOf(n, padded) == size))
  }

  lemma WholeQuantumLess(flags: Flags, n: nat, size: nat, padded: bool, nothingLeft: bool)
    requires 4 <= n <= size
    ensures UsedOf(n, padded) == 4 + UsedOf(n - 4, padded)
    ensures Accepted(flags, n, size, padded, nothingLeft) <==> Accepted(flags, n - 4, size - 4, padded, nothingLeft)
  {
    assert n % 4 == (n - 4) % 4;
  }

  lemma {:induction false} StrictDecoding(flags: Flags, data: seq<bv8>)
    requires flags.parse.ParseStrict?
    ensures Decode(flags, data) == StrictText(flags, data)
    decreases |data|
  {
    hide Decode, ScanOn, SymbolRun, Bytes, PadsTaken, Values, Lookup, StrictText, Finish;
    if data == [] {
      DecodeNothing(flags);
      NoText(flags);
    } else {
      DecodeStep(flags, data);
      StrictScanIs(flags.pad.PadNo?, data);
      if SymbolRun(data) >= 4 {
        StrictDecoding(flags, data[4..]);
        FrontText(flags, data);
      } else {
        LastQuantum(flags, data);
      }
    }
  }

  lemma NoText(flags: Flags)
    ensures StrictText(flags, []) == Decoded(true, [], 0)
  {
    NoValues();
  }

  lemma FrontText(flags: Flags, data: seq<bv8>)
    requires SymbolRun(data) >= 4
    ensures var more := StrictText(flags, data[4..]);
            StrictText(flags, data) == Decoded(more.success, Bytes(Values(data[..4])) + more.bytes, 4 + more.used)
  {
    hide SymbolRun, Padded, Unused, Bytes, AllBytes, Values, Lookup, LastValues, Accepted, UsedOf;
    FrontQuantum(data);
    var n := SymbolRun(data);
    WholeQuantumLess(flags, n, |data|, !flags.pad.PadNo? && Padded(data, n), Unused(LastValues(Values(data[..n]))) == 0);
  }

  lemma NoValues()
    ensures Values([]) == [] && AllBytes([]) == [] && Bytes([]) == [] && !Padded([], 0)
  {
  }

  lemma FrontQuantum(data: seq<bv8>)
    requires SymbolRun(data) >= 4
    ensures var n, values := SymbolRun(data), Values(data[..SymbolRun(data)]);
            && SymbolRun(data[4..]) == n - 4
            && AllBytes(values) == Bytes(Values(data[..4])) + AllBytes(Values(data[4..][..n - 4]))
            && LastValues(values) == LastValues(Values(data[4..][..n - 4]))
            && (Padded(data, n) <==> Padded(data[4..], n - 4))
  {
    hide Lookup, Bytes, SymbolRun, Values, Padded, AllBytes, LastValues;
    var n := SymbolRun(data);
    RunBehind(data);
    ValuesSplit(data, n);
    ValuesLength(data[..4]);
    FourMore(Values(data[..4]), Values(data[4..][..n - 4]));
    PaddedBehind(data, n);
  }

  lemma RunBehind(data: seq<bv8>)
    requires SymbolRun(data) >= 4
    ensures SymbolRun(data[4..]) == SymbolRun(data) - 4
  {
    hide Lookup, SymbolRun;
    SymbolRunIs(data[4..], SymbolRun(data) - 4);
  }

  lemma ValuesSplit(data: seq<bv8>, n: nat)
    requires 4 <= n <= |data|
    ensures Values(data[..n]) == Values(data[..4]) + Values(data[4..][..n - 4])
  {
    hide Lookup;
  }

  lemma PaddedBehind(data: seq<bv8>, n: nat)
    requires 4 <= n <= |data|
    ensures Padded(data, n) <==> Padded(data[4..], n - 4)
  {
    var rest, k := data[4..], 4 - n % 4;
    assert n % 4 == (n - 4) % 4;
    assert forall i | 0 <= i < |rest| :: rest[i] == data[i + 4];
    assert forall i | 4 <= i < |data| :: data[i] == rest[i - 4];
  }

  /** The end of a strict decoding: fewer than four symbols, and their pads. */
  lemma LastQuantum(flags: Flags, data: seq<bv8>)
    requires data != [] && SymbolRun(data) < 4
    ensures var n := SymbolRun(data);
            var taken, values := PadsTaken(flags.pad.PadNo?, data, n), Values(data[..n]);
            Finish(flags, Scan(n + taken, values, taken, if taken == 0 then 0 else n), |data|) == StrictText(flags, data)
  {
    hide Lookup, Unused, Bytes, SymbolRun, PadsTaken, Padded, Values, AllBytes, LastValues, Finish, Accepted, UsedOf;
    var n := SymbolRun(data);
    PaddedIs(data, n);
    FewValues(Values(data[..n]));
    ValuesLength(data[..n]);
    FinishIs(flags, n, PadsTaken(flags.pad.PadNo?, data, n), Values(data[..n]), |data|);
  }

  lemma FinishIs(flags: Flags, n: nat, taken: nat, values: seq<bv8>, size: nat)
    requires |values| == n < 4 && (flags.pad.PadNo? ==> taken == 0) && 0 < size && (n < 2 ==> taken == 0)
    ensures Finish(flags, Scan(n + taken, values, taken, if taken == 0 then 0 else n), size)
         == Decoded(Accepted(flags, n, size, n + taken == 4, Unused(values) == 0), Bytes(values), UsedOf(n, n + taken == 4))
  {
    hide Unused, Bytes;
  }

  lemma FewValues(values: seq<bv8>)
    requires |values| < 4
    ensures AllBytes(values) == Bytes(values) && LastValues(values) == values
  {
    hide Bytes;
  }

  // --- strict parsing and the encodings, padded or not ----------------------------------------------

  /** The encoding without the pads at its end. */
  function Unpadded(b: seq<bv8>): seq<bv8> {
    Encode(b)[..(4 * |b| + 2) / 3]
  }

  lemma {:induction false} AllBytesLength(values: seq<bv8>)
    ensures |AllBytes(values)| == |values| / 4 * 3 + (if |values| % 4 >= 2 then |values| % 4 - 1 else 0)
    decreases |values|
  {
    hide Octet0, Octet1, Octet2;
    if |values| >= 4 {
      AllBytesLength(values[4..]);
    }
  }

  /** A lone sextet makes no byte. */
  lemma {:induction false} LoneSextet(values: seq<bv8>)
    requires |values| % 4 == 1
    ensures AllBytes(values) == AllBytes(values[..|values| - 1])
    decreases |values|
  {
    hide Octet0, Octet1, Octet2;
    var front := values[..|values| - 1];
    if |values| >= 4 {
      LoneSextet(values[4..]);
      assert front[4..] == values[4..][..|values[4..]| - 1] && front[..4] == values[..4];
    }
  }

  lemma LeftOfOne(v: bv8)
    requires v < 64 && Unused([v]) == 0
    ensures v == 0
  {
  }

  lemma ZeroLeft()
    ensures Unused([0]) == 0 && Lookup(Symbol(0)) == 0 && Lookup(PAD_CHAR) == PAD
  {
  }

  lemma StrictDecodes(data: seq<bv8>)
    ensures Decode(STRICT, data).success <==> StrictText(STRICT, data).success
    ensures StrictText(STRICT, data).success ==> data == Encode(StrictText(STRICT, data).bytes)
  {
    hide Decode, StrictText, Encode;
    StrictDecoding(STRICT, data);
    StrictIsCanonical(data);
  }

  lemma RunOfAll(data: seq<bv8>, n: nat)
    requires n <= |data| && n == SymbolRun(data)
    ensures SymbolRun(data[..n]) == n
  {
    SymbolRunIs(data[..n], n);
  }

  /** Symbols alone, no bits left over: an encoding without its pads, or a whole one and a lone zero symbol. */
  lemma SymbolsAlone(data: seq<bv8>)
    requires SymbolRun(data) == |data| && Unused(LastValues(Values(data))) == 0
    ensures var r := AllBytes(Values(data));
            data == Unpadded(r) || (|r| % 3 == 0 && data == Encode(r) + [Symbol(0)])
  {
    hide SymbolRun, Encode, AllBytes, Lookup, Unused, Symbol, Values, LastValues, Unpadded;
    if |data| % 4 == 1 {
      LoneAtEnd(data);
    } else if |data| % 4 == 0 {
      WholeQuanta(data);
    } else {
      CompletedByPads(data);
    }
  }

  lemma LoneAtEnd(data: seq<bv8>)
    requires |data| % 4 == 1 && SymbolRun(data) == |data| && Unused(LastValues(Values(data))) == 0
    ensures var r := AllBytes(Values(data)); |r| % 3 == 0 && data == Encode(r) + [Symbol(0)]
  {
    hide SymbolRun, Encode, AllBytes, Lookup, Unused, Symbol, Values, LastValues;
    var front := data[..|data| - 1];
    FrontRun(data);
    LoneZero(data);
    ValuesLength(data);
    LoneSextet(Values(data));
    ValuesAppend(front, data[|data| - 1]);
    assert data == front + [data[|data| - 1]];
    ValuesLength(front);
    assert Values(data)[..|front|] == Values(front);
    WholeQuanta(front);
  }

  lemma FrontRun(data: seq<bv8>)
    requires data != [] && SymbolRun(data) == |data|
    ensures SymbolRun(data[..|data| - 1]) == |data| - 1
  {
    hide SymbolRun, Lookup;
    SymbolRunIs(data[..|data| - 1], |data| - 1);
  }

  lemma LoneZero(data: seq<bv8>)
    requires |data| % 4 == 1 && SymbolRun(data) == |data| && Unused(LastValues(Values(data))) == 0
    ensures data[|data| - 1] == Symbol(0)
  {
    hide SymbolRun, Unused, Lookup, Symbol;
    var n := |data|;
    assert LastValues(Values(data)) == [Lookup(data[n - 1])];
    assert IsSymbol(data[n - 1]);
    LeftOfOne(Lookup(data[n - 1]));
    LookupSymbol(data[n - 1]);
  }

  lemma WholeQuanta(data: seq<bv8>)
    requires |data| % 4 == 0 && SymbolRun(data) == |data|
    ensures var r := AllBytes(Values(data)); |r| % 3 == 0 && data == Encode(r) == Unpadded(r)
  {
    hide SymbolRun, Encode, AllBytes, Unused, LastValues, Padded;
    assert data[..|data|] == data;
    StrictDecodes(data);
    AllBytesLength(Values(data));
    var r := AllBytes(Values(data));
    WholeLength(|data|, |r|);
    assert Encode(r)[..|data|] == Encode(r);
  }

  lemma WholeLength(n: nat, b: nat)
    requires n % 4 == 0 && b == n / 4 * 3
    ensures b % 3 == 0 && (4 * b + 2) / 3 == n
  {
  }

  lemma PartLength(n: nat, b: nat)
    requires n % 4 >= 2 && b == n / 4 * 3 + n % 4 - 1
    ensures (4 * b + 2) / 3 == n && b % 3 == n % 4 - 1
  {
  }

  lemma CompletedByPads(data: seq<bv8>)
    requires |data| % 4 >= 2 && SymbolRun(data) == |data| && Unused(LastValues(Values(data))) == 0
    ensures data == Unpadded(AllBytes(Values(data)))
  {
    hide SymbolRun, Encode, AllBytes, Unused, LastValues, Lookup;
    var n := |data|;
    var text := data + seq(4 - n % 4, _ => PAD_CHAR);
    ZeroLeft();
    SymbolRunIs(text, n);
    assert text[..n] == data;
    StrictDecodes(text);
    AllBytesLength(Values(data));
    PartLength(n, |AllBytes(Values(data))|);
  }

  /** An encoding is its symbols, then the pads that complete their last quantum. */
  lemma EncodingIs(b: seq<bv8>)
    ensures var e, n := Encode(b), (4 * |b| + 2) / 3;
            && n <= |e| && SymbolRun(e) == n && n % 4 != 1 && AllBytes(Values(e[..n])) == b
            && Unused(LastValues(Values(e[..n]))) == 0
            && (if n % 4 == 0 then n == |e| && |b| % 3 == 0 else Padded(e, n) && n + 4 - n % 4 == |e|)
  {
    hide SymbolRun, Decode, Encode, AllBytes, Unused, Padded, Lookup, Values;
    var e := Encode(b);
    StrictRoundTrip(b);
    StrictDecoding(STRICT, e);
    var n := SymbolRun(e);
    AllBytesLength(Values(e[..n]));
    ValuesLength(e[..n]);
    if n % 4 == 0 {
      WholeLength(n, |b|);
      NothingLeft(Values(e[..n]));
      NoPads(e, n);
    } else {
      PaddedHas(e, n);
      PartLength(n, |b|);
    }
  }

  lemma ValuesLength(data: seq<bv8>)
    ensures |Values(data)| == |data|
  {
  }

  lemma NoPads(data: seq<bv8>, n: nat)
    requires n <= |data| && n % 4 == 0
    ensures !Padded(data, n)
  {
  }

  lemma PaddedHas(data: seq<bv8>, n: nat)
    requires n <= |data|
    ensures Padded(data, n) ==> n % 4 >= 2
  {
  }

  lemma NothingLeft(values: seq<bv8>)
    requires |values| % 4 == 0
    ensures Unused(LastValues(values)) == 0
  {
    EmptyQuantum();
    assert LastValues(values) == [];
  }

  const STRICT_NO_PAD := Flags(ParseStrict, PadNo, TermBuffer)
  const STRICT_ANY_PAD := Flags(ParseStrict, PadAny, TermBuffer)

  /** A text that is nothing but an encoding without pads, or such a text and a lone zero symbol. */
  ghost predicate UnpaddedText(data: seq<bv8>, r: seq<bv8>) {
    data == Unpadded(r) || (|r| % 3 == 0 && data == Unpadded(r) + [Symbol(0)])
  }

  lemma UnpaddedDecodes(flags: Flags, data: seq<bv8>, r: seq<bv8>)
    requires flags.parse.ParseStrict? && !flags.pad.PadYes? && UnpaddedText(data, r)
    ensures Decode(flags, data) == Decoded(true, r, |data|)
  {
    hide SymbolRun, Decode, Encode, AllBytes, Unused, Padded, Lookup, Symbol, Values, LastValues;
    EncodingIs(r);
    var e, n := Encode(r), (4 * |r| + 2) / 3;
    if data == e[..n] {
      RunOfAll(e, n);
    } else {
      LoneZeroText(e, n, data);
    }
    hide UnpaddedText;
    SymbolsDecode(flags, data);
  }

  lemma SymbolsDecode(flags: Flags, data: seq<bv8>)
    requires flags.parse.ParseStrict? && !flags.pad.PadYes? && SymbolRun(data) == |data| && Unused(LastValues(Values(data))) == 0
    ensures Decode(flags, data) == Decoded(true, AllBytes(Values(data)), |data|)
  {
    hide SymbolRun, Decode, AllBytes, Unused, Padded, Lookup, Values, LastValues;
    StrictDecoding(flags, data);
    TooShort(data, |data|);
    assert data[..|data|] == data;
  }

  lemma TooShort(data: seq<bv8>, n: nat)
    requires n == |data|
    ensures !Padded(data, n)
  {
  }

  lemma LoneZeroText(e: seq<bv8>, n: nat, data: seq<bv8>)
    requires n <= |e| && SymbolRun(e) == n && n % 4 == 0 && data == e[..n] + [Symbol(0)]
    ensures SymbolRun(data) == n + 1 == |data|
    ensures AllBytes(Values(data)) == AllBytes(Values(e[..n])) && Unused(LastValues(Values(data))) == 0
  {
    hide SymbolRun, AllBytes, Unused, Symbol, Lookup, Values, LastValues;
    ZeroLeft();
    OneMoreSymbol(e, n, data);
    LoneValues(Values(e[..n]));
    ValuesLength(e[..n]);
    ValuesAppend(e[..n], Symbol(0));
  }

  lemma OneMoreSymbol(e: seq<bv8>, n: nat, data: seq<bv8>)
    requires n <= |e| && SymbolRun(e) == n && data == e[..n] + [Symbol(0)]
    ensures SymbolRun(data) == n + 1
  {
    hide SymbolRun, Symbol, Lookup;
    ZeroLeft();
    SymbolRunIs(data, n + 1);
  }

  lemma ValuesAppend(data: seq<bv8>, c: bv8)
    ensures Values(data + [c]) == Values(data) + [Lookup(c)]
  {
    hide Lookup;
  }

  lemma LoneValues(values: seq<bv8>)
    requires |values| % 4 == 0
    ensures AllBytes(values + [0]) == AllBytes(values) && LastValues(values + [0]) == [0]
  {
    hide AllBytes;
    LoneSextet(values + [0]);
    assert (values + [0])[..|values|] == values;
  }

  /**
   * With padding disallowed, strict decoding of a whole buffer gives r exactly for the encoding of r
   * without its pads, and for that followed by one zero symbol when it ends on a whole quantum: the six
   * bits of that symbol are taken for bits left over, which are allowed to be zero.
   */
  lemma StrictNoPad(data: seq<bv8>, r: seq<bv8>)
    ensures Decode(STRICT_NO_PAD, data).success && Decode(STRICT_NO_PAD, data).bytes == r <==> UnpaddedText(data, r)
  {
    hide SymbolRun, Decode, Encode, AllBytes, Unused, Padded, Lookup, Symbol, Values, LastValues, UnpaddedText;
    StrictDecoding(STRICT_NO_PAD, data);
    var n := SymbolRun(data);
    if Decode(STRICT_NO_PAD, data).success && Decode(STRICT_NO_PAD, data).bytes == r {
      assert n == |data| && data[..n] == data;
      if n % 4 == 0 {
        WholeQuanta(data);
        IsUnpadded(data, r);
      } else {
        SymbolsAlone(data);
        IsUnpadded(data, r);
      }
    }
    if UnpaddedText(data, r) {
      UnpaddedDecodes(STRICT_NO_PAD, data, r);
    }
  }

  lemma WholeEncoding(r: seq<bv8>)
    ensures |r| % 3 == 0 ==> Encode(r) == Unpadded(r)
  {
    hide Encode;
    WholeSize(|r|);
  }

  lemma WholeSize(b: nat)
    ensures b % 3 == 0 ==> (4 * b + 2) / 3 == (b + 2) / 3 * 4
  {
    var k := b / 3;
    assert b == 3 * k + b % 3;
  }

  lemma IsUnpadded(data: seq<bv8>, r: seq<bv8>)
    requires data == Unpadded(r) || (|r| % 3 == 0 && data == Encode(r) + [Symbol(0)])
    ensures UnpaddedText(data, r)
  {
    hide Encode, Symbol, SymbolRun, AllBytes, Unused, Padded, Lookup, Values, LastValues;
    WholeEncoding(r);
  }

  /** With padding optional it gives r exactly for these texts and for the padded encoding. */
  lemma StrictAnyPad(data: seq<bv8>, r: seq<bv8>)
    ensures Decode(STRICT_ANY_PAD, data).success && Decode(STRICT_ANY_PAD, data).bytes == r
            <==> data == Encode(r) || UnpaddedText(data, r)
  {
    hide SymbolRun, Decode, Encode, AllBytes, Unused, Padded, Lookup, Symbol, Values, LastValues, UnpaddedText;
    StrictDecoding(STRICT_ANY_PAD, data);
    StrictDecoding(STRICT_NO_PAD, data);
    StrictDecoding(STRICT, data);
    StrictNoPad(data, r);
    StrictAcceptsCanonical(data, r);
    if UnpaddedText(data, r) {
      UnpaddedDecodes(STRICT_ANY_PAD, data, r);
    }
  }

  /** A lone zero symbol decodes to nothing, and is accepted. */
  lemma LoneSymbolAccepted()
    ensures Decode(STRICT_NO_PAD, [Symbol(0)]) == Decoded(true, [], 1)
  {
    hide Symbol, Decode;
    assert Unpadded([]) + [Symbol(0)] == [Symbol(0)];
    UnpaddedDecodes(STRICT_NO_PAD, [Symbol(0)], []);
  }

  // --- what is decoded, said over the text: any characters ------------------------------------------

  /** Where the last symbol ends. */
  function SymbolsEnd(data: seq<bv8>): (n: nat)
    ensures n <= |data| && (n > 0 ==> IsSymbol(data[n - 1])) && forall i | n <= i < |data| :: !IsSymbol(data[i])
  {
    if data == [] || IsSymbol(data[|data| - 1]) then |data| else SymbolsEnd(data[..|data| - 1])
  }

  lemma SymbolsEndIs(data: seq<bv8>, n: nat)
    requires n <= |data| && (n > 0 ==> IsSymbol(data[n - 1])) && forall i | n <= i < |data| :: !IsSymbol(data[i])
    ensures SymbolsEnd(data) == n
  {
  }

  /** How many pads there are from position i on. */
  function PadCount(data: seq<bv8>, i: nat): nat
    requires i <= |data|
    decreases |data| - i
  {
    if i == |data| then 0 else (if data[i] == PAD_CHAR then 1 else 0) + PadCount(data, i + 1)
  }

  /** The first of them, or the end. */
  function FirstPad(data: seq<bv8>, i: nat): nat
    requires i <= |data|
    decreases |data| - i
  {
    if i == |data| || data[i] == PAD_CHAR then i else FirstPad(data, i + 1)
  }

  lemma {:induction false} PadsShift(data: seq<bv8>, k: nat, i: nat)
    requires k + i <= |data|
    ensures PadCount(data, k + i) == PadCount(data[k..], i) && FirstPad(data, k + i) == k + FirstPad(data[k..], i)
    decreases |data| - i
  {
    if k + i < |data| {
      PadsShift(data, k, i + 1);
    }
  }

  /** Pads that count behind k sextets of the last quantum. */
  function PadsSeen(illegalPads: bool, k: nat, count: nat): nat {
    if illegalPads || k < 2 then 0 else count
  }

  function AnyText(flags: Flags, data: seq<bv8>): Decoded {
    var values, end := Alphabet(data), SymbolsEnd(data);
    var k := |values| % 4;
    var pads := PadsSeen(flags.pad.PadNo?, k, PadCount(data, end));
    AnyConcluded(flags, values, end == |data|, pads, FirstPad(data, end), |data|)
  }

  /**
   * The outcome in any-character mode. The bytes are those of the symbols. Everything is used, except
   * from the first pad after the last symbol on when there are pads but too few. Success is: whole
   * quanta up to the last character; or no bits left over (unless any end will do), enough
   * pads if required, and all characters used if required.
   */
  function AnyConcluded(flags: Flags, values: seq<bv8>, endsOnSymbol: bool, pads: nat, firstPad: nat, size: nat): Decoded {
    var k := |values| % 4;
    var padded := pads > 0 && k + pads >= 4;
    var used := if pads > 0 && !padded then firstPad else size;
    Decoded(
      || (k == 0 && endsOnSymbol)
      || (&& (flags.term.TermAny? || Unused(LastValues(values)) == 0)
          && (flags.pad.PadYes? ==> padded)
          && (flags.term.TermBuffer? ==> used == size)),
      AllBytes(values), used)
  }

  lemma AnyMove(illegalPads: bool, c: bv8, s: Scan)
    requires |s.values| < 4 && s.pads + |s.values| <= 4
    ensures var move := Read(ParseAny, illegalPads, c, s);
            && move.Go?
            && (IsSymbol(c) ==> move.scan == Scan(s.pos + 1, s.values + [Lookup(c)], 0, 0))
            && var taken := c == PAD_CHAR && !illegalPads && |s.values| >= 2 && |s.values| + s.pads < 4;
               && (taken ==> move.scan == Scan(s.pos + 1, s.values, s.pads + 1, if s.pads == 0 then s.pos else s.padStart))
               && (!IsSymbol(c) && !taken ==> move.scan == s.(pos := s.pos + 1))
  {
    LookupSymbol(c);
    hide Lookup, Symbol;
  }

  function Least(a: nat, b: nat): nat { if a <= b then a else b }

  /** Behind the last symbol pads are counted, up to a full quantum, and nothing else happens. */
  lemma {:induction false} AnyTail(illegalPads: bool, data: seq<bv8>, s: Scan)
    requires s.pos <= |data| && |s.values| < 4 && s.pads + |s.values| <= 4 && (s.pads > 0 ==> !illegalPads && |s.values| >= 2)
    requires forall i | s.pos <= i < |data| :: !IsSymbol(data[i])
    ensures var k := |s.values|;
            var pads := PadsSeen(illegalPads, k, PadCount(data, s.pos));
            ScanOn(ParseAny, illegalPads, data, s)
            == Scan(|data|, s.values, Least(s.pads + pads, 4 - k),
                    if s.pads > 0 || pads == 0 then s.padStart else FirstPad(data, s.pos))
    decreases |data| - s.pos
  {
    hide Read, ScanOn, IsSymbol;
    if s.pos == |data| {
      ScanEnds(ParseAny, illegalPads, data, s);
    } else {
      ScanStep(ParseAny, illegalPads, data, s);
      AnyMove(illegalPads, data[s.pos], s);
      AnyTail(illegalPads, data, Read(ParseAny, illegalPads, data[s.pos], s).scan);
    }
  }

  /** A scan that will not fill up gets to the last symbol with all of them and no pads. */
  lemma {:induction false} AnyToLast(illegalPads: bool, data: seq<bv8>, s: Scan)
    requires s.pos < SymbolsEnd(data) && |s.values| + |Alphabet(data[s.pos..])| < 4 && s.pads + |s.values| <= 4
    ensures ScanOn(ParseAny, illegalPads, data, s)
         == ScanOn(ParseAny, illegalPads, data, Scan(SymbolsEnd(data), s.values + Alphabet(data[s.pos..]), 0, 0))
    decreases |data| - s.pos
  {
    hide Read, ScanOn, SymbolsEnd, InAlphabet, IsSymbol;
    var c, rest, end := data[s.pos], data[s.pos..], SymbolsEnd(data);
    assert rest[0] == c && rest[1..] == data[s.pos + 1..];
    OneCharacter(c);
    ScanStep(ParseAny, illegalPads, data, s);
    AnyMove(illegalPads, c, s);
    var next := Read(ParseAny, illegalPads, c, s).scan;
    assert s.values + (InAlphabet(c) + Alphabet(rest[1..])) == (s.values + InAlphabet(c)) + Alphabet(rest[1..]);
    assert next.values == s.values + InAlphabet(c);
    if s.pos + 1 == end {
      NoSymbols(rest[1..]);
      assert next.values + [] == next.values;
    } else {
      AnyToLast(illegalPads, data, next);
    }
  }

  lemma OneCharacter(c: bv8)
    ensures InAlphabet(c) == if IsSymbol(c) then [Lookup(c)] else []
  {
  }

  lemma {:induction false} NoSymbols(data: seq<bv8>)
    requires forall i | 0 <= i < |data| :: !IsSymbol(data[i])
    ensures Alphabet(data) == []
  {
    hide Lookup;
    if data != [] {
      NoSymbols(data[1..]);
    }
  }

  /** What a scan of a text with fewer than four symbols finds. */
  lemma AnyScanIs(illegalPads: bool, data: seq<bv8>)
    requires |Alphabet(data)| < 4
    ensures var v, end := Alphabet(data), SymbolsEnd(data);
            var pads := PadsSeen(illegalPads, |v|, PadCount(data, end));
            ScanOn(ParseAny, illegalPads, data, START)
            == Scan(|data|, v, Least(pads, 4 - |v|), if pads == 0 then 0 else FirstPad(data, end))
  {
    hide ScanOn, SymbolsEnd, Alphabet, PadCount, FirstPad, IsSymbol;
    var v, end := Alphabet(data), SymbolsEnd(data);
    assert data[0..] == data && [] + v == v;
    if end == 0 {
      NoSymbols(data);
    } else {
      AnyToLast(illegalPads, data, START);
    }
    AnyTail(illegalPads, data, Scan(end, v, 0, 0));
  }

  /** A scan that fills up ends right behind a symbol. */
  lemma {:induction false} AnyEndsOnSymbol(illegalPads: bool, data: seq<bv8>, s: Scan)
    requires s.pos <= |data| && |s.values| < 4 && s.pads + |s.values| <= 4
    ensures var t := ScanOn(ParseAny, illegalPads, data, s);
            |t.values| == 4 ==> 0 < t.pos <= |data| && IsSymbol(data[t.pos - 1])
    decreases |data| - s.pos
  {
    hide Read, ScanOn, IsSymbol;
    if s.pos == |data| {
      ScanEnds(ParseAny, illegalPads, data, s);
    } else {
      ScanStep(ParseAny, illegalPads, data, s);
      AnyMove(illegalPads, data[s.pos], s);
      var next := Read(ParseAny, illegalPads, data[s.pos], s).scan;
      if |next.values| == 4 {
        ScanEnds(ParseAny, illegalPads, data, next);
      } else {
        AnyEndsOnSymbol(illegalPads, data, next);
      }
    }
  }

  /** Any-character mode, for every pad and termination mode. */
  lemma {:induction false} AnyCharacters(flags: Flags, data: seq<bv8>)
    requires flags.parse.ParseAny?
    ensures Decode(flags, data) == AnyText(flags, data)
    decreases |data|
  {
    hide Decode, ScanOn, AnyText, Alphabet, Bytes, Finish;
    if data == [] {
      DecodeNothing(flags);
      NoAnyText(flags);
    } else {
      DecodeStep(flags, data);
      var illegalPads := flags.pad.PadNo?;
      var s := ScanOn(ParseAny, illegalPads, data, START);
      StartIsSane(|data|);
      AnyScan(illegalPads, data, START);
      assert data[0..] == data && [] + Alphabet(data) == Alphabet(data);
      if |s.values| == 4 {
        AnyCharacters(flags, data[s.pos..]);
        AnyEndsOnSymbol(illegalPads, data, START);
        AnyFront(flags, data, s.pos, s.values);
      } else {
        NoAlphabet();
        assert data[s.pos..] == [] && s.values + [] == s.values;
        AnyLast(flags, data);
      }
    }
  }

  lemma StartIsSane(n: nat)
    ensures Sane(START, n)
  {
  }

  lemma NoAlphabet()
    ensures Alphabet([]) == []
  {
  }

  lemma NoAnyText(flags: Flags)
    ensures AnyText(flags, []) == Decoded(true, [], 0)
  {
    NoAlphabet();
    NoValues();
    assert SymbolsEnd([]) == 0;
  }

  lemma AnyFront(flags: Flags, data: seq<bv8>, pos: nat, values: seq<bv8>)
    requires 0 < pos <= |data| && IsSymbol(data[pos - 1]) && |values| == 4
    requires Alphabet(data) == values + Alphabet(data[pos..])
    ensures var more := AnyText(flags, data[pos..]);
            AnyText(flags, data) == Decoded(more.success, Bytes(values) + more.bytes, pos + more.used)
  {
    hide SymbolsEnd, Alphabet, PadCount, FirstPad, Bytes, Unused, IsSymbol, AllBytes, LastValues;
    var rest := data[pos..];
    var end := SymbolsEnd(rest);
    assert forall i | pos <= i < |data| :: data[i] == rest[i - pos];
    SymbolsEndIs(data, pos + end);
    PadsShift(data, pos, end);
    FourMore(values, Alphabet(rest));
  }

  lemma FourMore(front: seq<bv8>, values: seq<bv8>)
    requires |front| == 4
    ensures AllBytes(front + values) == Bytes(front) + AllBytes(values)
    ensures LastValues(front + values) == LastValues(values) && |front + values| % 4 == |values| % 4
  {
    hide Bytes;
    var all, n := front + values, |values|;
    assert all[..4] == front && all[4..] == values;
    assert (n + 4) % 4 == n % 4;
    assert LastValues(all) == all[4 + (n - n % 4)..] == values[n - n % 4..];
  }

  lemma AnyLast(flags: Flags, data: seq<bv8>)
    requires data != [] && |Alphabet(data)| < 4
    ensures Finish(flags, ScanOn(ParseAny, flags.pad.PadNo?, data, START), |data|) == AnyText(flags, data)
  {
    hide SymbolsEnd, Alphabet, PadCount, FirstPad, Bytes, Unused, IsSymbol, AllBytes, LastValues, ScanOn, PadsSeen;
    AnyScanIs(flags.pad.PadNo?, data);
    var v, end := Alphabet(data), SymbolsEnd(data);
    var pads := PadsSeen(flags.pad.PadNo?, |v|, PadCount(data, end));
    SeenBehindTwo(flags.pad.PadNo?, |v|, PadCount(data, end));
    FewValues(v);
    if end == |data| {
      HasSymbol(data);
    }
    FinishAny(flags, v, pads, FirstPad(data, end), |data|, end == |data|);
  }

  lemma SeenBehindTwo(illegalPads: bool, k: nat, count: nat)
    ensures PadsSeen(illegalPads, k, count) > 0 ==> k >= 2
  {
  }

  lemma {:induction false} HasSymbol(data: seq<bv8>)
    requires data != [] && IsSymbol(data[|data| - 1])
    ensures Alphabet(data) != []
  {
    hide Lookup;
    if |data| > 1 {
      HasSymbol(data[1..]);
    }
  }

  lemma FinishAny(flags: Flags, values: seq<bv8>, pads: nat, firstPad: nat, size: nat, endsOnSymbol: bool)
    requires |values| < 4 && (pads > 0 ==> |values| >= 2) && (endsOnSymbol ==> values != [])
    requires AllBytes(values) == Bytes(values) && LastValues(values) == values
    ensures Finish(flags, Scan(size, values, Least(pads, 4 - |values|), if pads == 0 then 0 else firstPad), size)
         == AnyConcluded(flags, values, endsOnSymbol, pads, firstPad, size)
  {
    hide Unused, Bytes, AllBytes, LastValues;
    var k, taken := |values|, Least(pads, 4 - |values|);
    assert k % 4 == k && (taken == 0 <==> pads == 0);
    assert k + taken == 4 <==> pads > 0 && k + pads >= 4;
    hide Least;
  }
}
