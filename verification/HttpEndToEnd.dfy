/**
 * Messages produced by the sender and read by the receiver: chunked, of announced size, or ended by
 * the end of the connection. The sender's text is a message of the grammar, so what the grammar says
 * about reading applies to every point of every transfer.
 */
module HttpEndToEnd {
  import opened Text
  import opened HttpCommon
  import opened HttpSyntax
  import opened HttpGrammar
  import opened Numerals
  import opened HttpSender
  import opened HttpReceiver

  // --- the size line of a chunk -------------------------------------------------------------

  lemma HexDigitValue(n: nat)
    requires n < 16
    ensures DigitValue(HexDigit(n)) == n && !IsSpace(HexDigit(n))
    ensures HexDigit(n) != '-' && HexDigit(n) != '+' && ToLower(HexDigit(n)) != 'x' && HexDigit(n) != '\n'
  {
  }

  function Power16(d: nat): nat {
    if d == 0 then 1 else 16 * Power16(d - 1)
  }

  lemma {:induction false} HexIsHex(n: nat, d: nat)
    ensures forall i | 0 <= i < d ::
              var c := Hex(n, d)[i];
              DigitValue(c) < 16 && !IsSpace(c) && c != '-' && c != '+' && ToLower(c) != 'x' && c != '\n'
    decreases d
  {
    if d > 0 {
      HexIsHex(n / 16, d - 1);
      HexDigitValue(n % 16);
    }
  }

  /** A number printed in enough hexadecimal digits reads back as itself. */
  lemma {:induction false} HexRoundTrip(n: nat, d: nat)
    requires n < Power16(d)
    ensures DigitsToNat(Hex(n, d), 16) == n
    decreases d
  {
    if d > 0 {
      HexRoundTrip(n / 16, d - 1);
      HexDigitValue(n % 16);
      assert Hex(n, d)[..d - 1] == Hex(n / 16, d - 1);
    }
  }

  /** The size line the sender writes is read back by strtoul in full. */
  lemma SizeLine(n: nat)
    requires n < 0x1_0000_0000
    ensures StrToUL(Hex(n, CHUNK_DIGITS), 16) == (n, CHUNK_DIGITS)
    ensures IsNumeral(Hex(n, CHUNK_DIGITS), 16, n)
  {
    hide Hex;
    var s := Hex(n, CHUNK_DIGITS);
    assert Power16(8) == 0x1_0000_0000 by {
      assert Power16(4) == 0x1_0000;
    }
    HexIsHex(n, CHUNK_DIGITS);
    HexRoundTrip(n, CHUNK_DIGITS);
    assert LeadingSpaces(s) == 0;
    assert DigitRun(s[0..], 16) == 8;
    assert s[0..8] == s;
    WholeNumeral(s, 16, n);
    hide IsNumeral;
  }

  // --- the head a sender writes -----------------------------------------------------------------

  function Trim(s: string): string {
    var t := TrimRight(s);
    t[LeadingSpaces(t)..]
  }

  /** The header as the grammar sees it: white space around the value does not count. */
  function FieldOf(header: HeaderField): Field {
    var value := UpToNul(header.1);
    var t := TrimRight(value);
    TrimRightSplits(value);
    Field(UpToNul(header.0), " " + t[..LeadingSpaces(t)], t[LeadingSpaces(t)..], value[|t|..] + "\r")
  }

  /**
   * A header a receiver can take: one line, no colon in the name, a number as content length, and
   * no other transfer encoding than chunked and identity.
   */
  predicate Readable(header: HeaderField) {
    var name, value := UpToNul(header.0), UpToNul(header.1);
    && ':' !in name && '\n' !in name && '\n' !in value
    && (SameIgnoringCase(name, "Content-Length") ==> StrToUL(Trim(value), 10).1 > 0)
    && (SameIgnoringCase(name, "Transfer-Encoding") ==>
          SameIgnoringCase(Trim(value), "chunked") || SameIgnoringCase(Trim(value), "identity"))
  }

  /** The value with the white space around it. */
  lemma {:induction false} ValueParts(value: string)
    ensures var t := TrimRight(value);
            var k := LeadingSpaces(t);
            && t <= value && AllSpace(t[..k]) && AllSpace(value[|t|..])
            && (t[k..] == "" || Tight(t[k..]))
            && t[..k] + t[k..] + value[|t|..] == value
  {
    hide TrimRight, LeadingSpaces, AllSpace, Tight;
    TrimRightSplits(value);
    CutSpaces(TrimRight(value));
  }

  lemma FieldOfText(header: HeaderField)
    ensures FieldLine(FieldOf(header)) + "\n" == FormatHeader(header)
  {
    hide TrimRight, LeadingSpaces, AllSpace, Tight, IndexOf;
    var name, value := UpToNul(header.0), UpToNul(header.1);
    ValueParts(value);
    var t := TrimRight(value);
    var a, b, c := t[..LeadingSpaces(t)], t[LeadingSpaces(t)..], value[|t|..];
    Spread(name, a, b, c);
  }

  lemma Spread(name: string, a: string, b: string, c: string)
    ensures name + ":" + (" " + a) + b + (c + "\r") + "\n" == name + ": " + (a + b + c) + CRLF
  {
  }

  lemma {:induction false} SpaceBefore(a: string)
    requires AllSpace(a)
    ensures AllSpace(" " + a) && AllSpace(a + "\r")
  {
  }

  lemma {:induction false} FieldOfIsWellFormed(header: HeaderField)
    requires Readable(header)
    ensures WellFormedField(FieldOf(header))
  {
    hide TrimRight, LeadingSpaces, AllSpace, Tight, StrToUL, SameIgnoringCase, FieldLine;
    var f := FieldOf(header);
    var value := UpToNul(header.1);
    ValueParts(value);
    var t := TrimRight(value);
    SpaceBefore(t[..LeadingSpaces(t)]);
    SpaceBefore(value[|t|..]);
    FieldOfText(header);
    OneLine(FieldLine(f), UpToNul(header.0), value);
  }

  lemma OneLine(line: string, name: string, value: string)
    requires line + "\n" == name + ": " + value + CRLF && '\n' !in name && '\n' !in value
    ensures '\n' !in line
  {
    assert line == name + ": " + value + "\r" by {
      assert name + ": " + value + CRLF == name + ": " + value + "\r" + "\n";
      assert line == (line + "\n")[..|line|];
    }
  }

  /** The headers that were not too long to send. */
  function FieldsOf(headers: seq<HeaderField>): seq<Field> {
    if headers == [] then []
    else
      var before, last := headers[..|headers| - 1], headers[|headers| - 1];
      if Sendable(last) then FieldsOf(before) + [FieldOf(last)] else FieldsOf(before)
  }

  lemma {:induction false} FieldsTextAppend(a: seq<Field>, f: Field)
    ensures FieldsText(a + [f]) == FieldsText(a) + (FieldLine(f) + "\n")
    decreases |a|
  {
    hide FieldLine;
    if a == [] {
      assert [f][1..] == [];
    } else {
      FieldsTextAppend(a[1..], f);
      assert (a + [f])[1..] == a[1..] + [f];
    }
  }

  lemma {:induction false} AfterFieldsAppend(p: Parser, a: seq<Field>, f: Field)
    ensures AfterFields(p, a + [f]) == AfterField(AfterFields(p, a), f)
    decreases |a|
  {
    hide AfterField;
    if a == [] {
      assert [f][1..] == [];
    } else {
      AfterFieldsAppend(AfterField(p, a[0]), a[1..], f);
      assert (a + [f])[1..] == a[1..] + [f];
    }
  }

  /** What one more header adds to what the headers before it did. */
  lemma {:induction false} AfterOneMore(p: Parser, headers: seq<HeaderField>)
    requires headers != []
    ensures var before, last := headers[..|headers| - 1], headers[|headers| - 1];
            var q := AfterFields(p, FieldsOf(before));
            AfterFields(p, FieldsOf(headers)) == if Sendable(last) then AfterField(q, FieldOf(last)) else q
  {
    hide AfterFields, AfterField, FieldOf, Sendable;
    var before, last := headers[..|headers| - 1], headers[|headers| - 1];
    AfterFieldsAppend(p, FieldsOf(before), FieldOf(last));
  }

  lemma {:induction false} FieldsOfText(headers: seq<HeaderField>)
    ensures FieldsText(FieldsOf(headers)) == HeaderText(headers)
    ensures BriefFields(FieldsOf(headers))
    decreases |headers|
  {
    hide FieldOf, FieldLine, FormatHeader, FieldsText;
    if headers == [] {
      NoFields();
    } else {
      var before, last := headers[..|headers| - 1], headers[|headers| - 1];
      FieldsOfText(before);
      if Sendable(last) {
        FieldOfText(last);
        FieldsTextAppend(FieldsOf(before), FieldOf(last));
      }
    }
  }

  lemma NoFields()
    ensures FieldsText([]) == ""
  {
  }

  lemma {:induction false} FieldsOfAreWellFormed(headers: seq<HeaderField>)
    requires forall i | 0 <= i < |headers| :: Readable(headers[i])
    ensures forall i | 0 <= i < |FieldsOf(headers)| :: WellFormedField(FieldsOf(headers)[i])
    decreases |headers|
  {
    hide Readable, WellFormedField, FieldOf, Sendable;
    if headers != [] {
      FieldsOfAreWellFormed(headers[..|headers| - 1]);
      FieldOfIsWellFormed(headers[|headers| - 1]);
    }
  }

  function HeadOf(leader: string, headers: seq<HeaderField>): Head {
    Head(leader + "\r", FieldsOf(headers), "\r")
  }

  /** The receiver can read the leader and the headers, and its user accepts them. */
  ghost predicate Acceptable(h: Hooks, leader: string, headers: seq<HeaderField>) {
    var q := AfterFields(AfterLeader(leader + "\r"), FieldsOf(headers));
    && '\n' !in leader && h.leader(TrimRight(leader)) == NoError
    && (forall i | 0 <= i < |headers| :: Readable(headers[i]))
    && h.headerComplete(q.log, q.chunked, q.dataSize).0 == NoError
  }

  lemma TrimRightReturn(s: string)
    ensures TrimRight(s + "\r") == TrimRight(s)
  {
    assert (s + "\r")[..|s|] == s;
  }

  /** The head the sender writes is a well-formed head of the grammar. */
  lemma {:induction false} HeadIsWellFormed(h: Hooks, leader: string, headers: seq<HeaderField>)
    requires Acceptable(h, leader, headers) && |leader| + 4 < BUFFER_SIZE
    ensures WellFormedHead(h, HeadOf(leader, headers)) && BriefHead(HeadOf(leader, headers))
    ensures HeadText(HeadOf(leader, headers)) == leader + CRLF + HeaderText(headers) + CRLF
  {
    hide TrimRight, FieldsOf, AfterFields, FieldsText, HeaderText, Readable, WellFormedField, BriefFields;
    TrimRightReturn(leader);
    FieldsOfAreWellFormed(headers);
    FieldsOfText(headers);
    assert leader + "\r" + "\n" == leader + CRLF && "\r" + "\n" == CRLF;
  }

  // --- which kind of body the headers announce --------------------------------------------------

  predicate IsEncoding(header: HeaderField) {
    SameIgnoringCase(UpToNul(header.0), "Transfer-Encoding")
  }

  /**
   * What the receiver makes of the headers: the last transfer encoding sent counts, in whatever
   * case it is spelled. (The sender looks at the first one, spelled in lower case.)
   */
  predicate SeenChunked(headers: seq<HeaderField>) {
    headers != [] &&
    var before, last := headers[..|headers| - 1], headers[|headers| - 1];
    if Sendable(last) && IsEncoding(last) then SameIgnoringCase(Trim(UpToNul(last.1)), "chunked") else SeenChunked(before)
  }

  lemma FieldOfParts(header: HeaderField)
    ensures FieldOf(header).name == UpToNul(header.0) && FieldOf(header).value == Trim(UpToNul(header.1))
  {
  }

  lemma {:induction false} EncodingSeen(p: Parser, headers: seq<HeaderField>)
    requires !p.chunked
    ensures AfterFields(p, FieldsOf(headers)).chunked == SeenChunked(headers)
    decreases |headers|
  {
    hide AfterFields, FieldOf, FieldsOf, Trim, StrToUL, UpToNul, Sendable, SameIgnoringCase;
    if headers == [] {
      NothingTaken(p);
      NoHeaders();
    } else {
      EncodingSeen(p, headers[..|headers| - 1]);
      FieldOfParts(headers[|headers| - 1]);
      AfterOneMore(p, headers);
    }
  }

  /** The parser is at chunks or at a plain body as the last transfer encoding sent says. */
  lemma {:induction false} HeadSeen(h: Hooks, leader: string, headers: seq<HeaderField>)
    ensures AfterHead(h, HeadOf(leader, headers)).chunked == SeenChunked(headers)
  {
    hide AfterFields, SeenChunked, FieldsOf;
    EncodingSeen(AfterLeader(leader + "\r"), headers);
  }

  /** Every transfer encoding among the headers is this one. */
  predicate OnlyEncoding(headers: seq<HeaderField>, encoding: string) {
    forall i | 0 <= i < |headers| && IsEncoding(headers[i]) :: SameIgnoringCase(Trim(UpToNul(headers[i].1)), encoding)
  }

  /** With no other encoding than chunked, what is sent in chunks is read in chunks. */
  lemma {:induction false} ChunkedIsSeen(headers: seq<HeaderField>)
    requires OnlyEncoding(headers, "chunked")
    ensures TransferEncoding(headers) == "chunked" ==> SeenChunked(headers)
    decreases |headers|
  {
    hide Trim, UpToNul, Sendable, TransferEncoding;
    if headers == [] {
      NoHeaders();
    } else {
      var before, last := headers[..|headers| - 1], headers[|headers| - 1];
      ChunkedIsSeen(before);
      TransferEncodingOfPrefix(headers);
      if TransferEncoding(headers) == "chunked" && TransferEncoding(before) != "chunked" {
        assert SameIgnoringCase(last.0, "Transfer-Encoding") && last.1 == "chunked";
        NamesHaveNoNul(last.0);
        ChunkedIsSendable(last);
      }
    }
  }

  /** With no other encoding than identity, nothing is read in chunks. */
  lemma {:induction false} IdentityIsSeen(headers: seq<HeaderField>)
    requires OnlyEncoding(headers, "identity")
    ensures !SeenChunked(headers)
    decreases |headers|
  {
    hide Trim, UpToNul, Sendable, SameIgnoringCase;
    if headers != [] {
      IdentityIsSeen(headers[..|headers| - 1]);
      DifferentEncodings(Trim(UpToNul(headers[|headers| - 1].1)));
    }
  }

  /** The two ends disagree: about an encoding in capitals, and about a second encoding. */
  lemma {:induction false} EndsDisagree()
    ensures var headers := [("Transfer-Encoding", "Chunked")];
            TransferEncoding(headers) != "chunked" && SeenChunked(headers)
    ensures var headers := [("Transfer-Encoding", "chunked"), ("Transfer-Encoding", "identity")];
            TransferEncoding(headers) == "chunked" && !SeenChunked(headers)
  {
    hide Trim, UpToNul, IndexOf;
    NamesHaveNoNul("Transfer-Encoding");
    TrimTight("Chunked");
    TrimTight("identity");
    ShortHeader("Chunked");
    ShortHeader("identity");
    DifferentEncodings("identity");
    var both := [("Transfer-Encoding", "chunked"), ("Transfer-Encoding", "identity")];
    assert both[..1] == [("Transfer-Encoding", "chunked")];
  }

  lemma {:induction false} TrimTight(value: string)
    requires Tight(value) && '\0' !in value
    ensures UpToNul(value) == value && Trim(value) == value
  {
    hide IndexOf, TrimRight, LeadingSpaces;
    TrimRightOf(value, "");
    LeadingSpacesIs("", value);
    assert value + "" == value && "" + value == value;
  }

  lemma {:induction false} ShortHeader(value: string)
    requires UpToNul(value) == value && |value| < 100
    ensures Sendable(("Transfer-Encoding", value))
  {
    hide IndexOf;
    NamesHaveNoNul("Transfer-Encoding");
  }

  lemma NoHeaders()
    ensures FieldsOf([]) == [] && TransferEncoding([]) == ""
  {
  }

  lemma NothingTaken(p: Parser)
    ensures AfterFields(p, []) == p
  {
  }

  lemma ChunkedIsSendable(header: HeaderField)
    requires SameIgnoringCase(header.0, "Transfer-Encoding") && header.1 == "chunked"
    ensures Sendable(header)
  {
  }

  lemma {:induction false} TransferEncodingOfPrefix(headers: seq<HeaderField>)
    requires headers != []
    ensures var before, last := headers[..|headers| - 1], headers[|headers| - 1];
            TransferEncoding(headers) == TransferEncoding(before)
            || (SameIgnoringCase(last.0, "Transfer-Encoding") && TransferEncoding(headers) == last.1)
    decreases |headers|
  {
    if |headers| > 1 {
      TransferEncodingOfPrefix(headers[1..]);
      assert headers[1..][..|headers| - 2] == headers[..|headers| - 1][1..];
    }
  }

  lemma NamesHaveNoNul(name: string)
    requires SameIgnoringCase(name, "Transfer-Encoding")
    ensures UpToNul(name) == name
  {
    assert forall i | 0 <= i < |name| :: ToLower(name[i]) == ToLower("Transfer-Encoding"[i]);
    assert '\0' !in name;
  }

  /** A number in decimal, as %d prints it. */
  function Decimal(n: nat): (s: string)
    ensures s != ""
  {
    if n < 10 then [DecimalDigit(n)] else Decimal(n / 10) + [DecimalDigit(n % 10)]
  }

  function DecimalDigit(n: nat): (c: char)
    requires n < 10
    ensures DigitValue(c) == n && !IsSpace(c) && c != '-' && c != '+' && c != '\0'
  {
    "0123456789"[n]
  }

  lemma {:induction false} DecimalIsDigits(n: nat)
    ensures forall i | 0 <= i < |Decimal(n)| ::
              var c := Decimal(n)[i];
              DigitValue(c) < 10 && !IsSpace(c) && c != '-' && c != '+' && c != '\0'
    ensures DigitsToNat(Decimal(n), 10) == n
    decreases n
  {
    if n >= 10 {
      DecimalIsDigits(n / 10);
      assert Decimal(n)[..|Decimal(n)| - 1] == Decimal(n / 10);
    } else {
      assert Decimal(n)[..0] == "";
    }
  }

  lemma DecimalRoundTrip(n: nat)
    requires n <= ULONG_MAX
    ensures StrToUL(Decimal(n), 10) == (n, |Decimal(n)|)
    ensures UpToNul(Decimal(n)) == Decimal(n) && Trim(Decimal(n)) == Decimal(n)
  {
    var s := Decimal(n);
    DecimalIsDigits(n);
    hide Decimal;
    assert LeadingSpaces(s) == 0;
    assert DigitRun(s[0..], 10) == |s|;
    assert s[0..|s|] == s && s[..|s|] == s && s[0..] == s;
    assert TrimRight(s) == s;
  }

  /** Whether a header announces a size. */
  predicate IsLength(header: HeaderField) {
    SameIgnoringCase(UpToNul(header.0), "Content-Length")
  }

  /** The headers announce this size. */
  ghost predicate Announces(headers: seq<HeaderField>, size: nat) {
    && (forall i | 0 <= i < |headers| && IsLength(headers[i]) :: headers[i].1 == Decimal(size))
    && (exists i :: 0 <= i < |headers| && IsLength(headers[i]) && Sendable(headers[i]))
  }

  lemma {:induction false} SizeIsSeen(p: Parser, headers: seq<HeaderField>, size: nat)
    requires size < 0x1_0000_0000
    requires forall i | 0 <= i < |headers| && IsLength(headers[i]) :: headers[i].1 == Decimal(size)
    ensures p.dataSize == size || (exists i :: 0 <= i < |headers| && IsLength(headers[i]) && Sendable(headers[i]))
            ==> AfterFields(p, FieldsOf(headers)).dataSize == size
    decreases |headers|
  {
    hide SameIgnoringCase, UpToNul, Decimal, Sendable, Trim, StrToUL, AfterFields, FieldOf, FieldsOf;
    if headers == [] {
      NothingTaken(p);
      NoHeaders();
    } else {
      var before, last := headers[..|headers| - 1], headers[|headers| - 1];
      SizeIsSeen(p, before, size);
      DecimalRoundTrip(size);
      FieldOfParts(last);
      AfterOneMore(p, headers);
      if exists i :: 0 <= i < |headers| && IsLength(headers[i]) && Sendable(headers[i]) {
        var i :| 0 <= i < |headers| && IsLength(headers[i]) && Sendable(headers[i]);
        if i < |before| {
          assert before[i] == headers[i];
        }
      }
    }
  }

  /** The headers announce no size. */
  predicate Unannounced(headers: seq<HeaderField>) {
    forall i | 0 <= i < |headers| :: !IsLength(headers[i])
  }

  lemma {:induction false} NoSizeIsSeen(p: Parser, headers: seq<HeaderField>)
    requires Unannounced(headers)
    ensures AfterFields(p, FieldsOf(headers)).dataSize == p.dataSize
    decreases |headers|
  {
    hide SameIgnoringCase, UpToNul, Trim, StrToUL, Sendable, AfterFields, FieldOf, FieldsOf;
    if headers == [] {
      NothingTaken(p);
      NoHeaders();
    } else {
      var before, last := headers[..|headers| - 1], headers[|headers| - 1];
      NoSizeIsSeen(p, before);
      FieldOfParts(last);
      AfterOneMore(p, headers);
    }
  }

  // --- the wire ---------------------------------------------------------------------------------

  /** The message the sender would have produced were its document to end here. */
  ghost function WholeText(s: Sender): string
    reads s, s.document
  {
    MessageText(s.leader, s.headers, |s.headers|, s.chunked, s.Reads(), s.chunked && s.document != null)
  }

  lemma {:induction false} HeaderTextPrefix(headers: seq<HeaderField>, n: nat)
    requires n <= |headers|
    ensures HeaderText(headers[..n]) <= HeaderText(headers)
    decreases |headers|
  {
    if n == |headers| {
      assert headers[..n] == headers;
    } else {
      HeaderTextPrefix(headers[..|headers| - 1], n);
      assert headers[..|headers| - 1][..n] == headers[..n];
    }
  }

  /** What is on the wire is the beginning of that message, at every point of the send; all of it only when the send is done. */
  lemma WireIsPrefix(s: Sender)
    requires s.Valid()
    ensures s.net.taken <= WholeText(s)
    ensures s.chunked && s.document != null && s.net.taken == WholeText(s) ==> s.WholeMessageSent()
  {
    hide HeaderText, BodyText;
    var text := MessageText(s.leader, s.headers, s.next, s.chunked, s.Reads(), s.Terminated());
    assert s.net.taken <= text by {
      assert s.net.taken + s.buffer[..s.len] == text;
    }
    var front := s.leader + CRLF;
    assert s.headers[..|s.headers|] == s.headers;
    if s.next < |s.headers| {
      var last := if s.chunked && s.document != null then LAST_CHUNK else "";
      HeaderTextPrefix(s.headers, s.next);
      EmptyBody(s.chunked);
      HeadIsPrefix(front, HeaderText(s.headers[..s.next]), HeaderText(s.headers), CRLF + last);
      assert text == front + HeaderText(s.headers[..s.next]);
      assert WholeText(s) == front + HeaderText(s.headers) + (CRLF + last);
    }
  }

  lemma EmptyBody(chunked: bool)
    ensures BodyText([], chunked) == ""
  {
  }

  lemma HeadIsPrefix(front: string, part: string, full: string, rest: string)
    requires part <= full
    ensures front + part <= front + full + rest
  {
  }

  lemma {:induction false} BodyOfPrefix(a: seq<Event>, b: seq<Event>)
    requires a <= b
    ensures BodyOf(a) <= BodyOf(b)
  {
    assert b == a + b[|a|..];
    BodyOfAppend(a, b[|a|..]);
  }

  // --- the head as the receiver hears it ----------------------------------------------------------

  /** A send whose head a receiver with these hooks can take. */
  ghost predicate Heard(h: Hooks, s: Sender)
    reads s, s.document
  {
    s.Shape() && Acceptable(h, s.leader, s.headers)
  }

  /** The parser once it read the head of the sender's message. */
  ghost function AtBody(h: Hooks, s: Sender): (p: Parser)
    reads s
    ensures p.state == if p.chunked then ChunkSize else Data
  {
    AfterHead(h, HeadOf(s.leader, s.headers))
  }

  ghost function HeadTextOf(s: Sender): string
    reads s
  {
    HeadText(HeadOf(s.leader, s.headers))
  }

  /** What the sender puts behind the head, were its document to end here. */
  ghost function Sent(s: Sender): string
    reads s, s.document
  {
    BodyText(s.Reads(), s.chunked) + if s.chunked && s.document != null then LAST_CHUNK else ""
  }

  lemma {:induction false} HeardText(h: Hooks, s: Sender)
    requires Heard(h, s)
    ensures WholeText(s) == HeadTextOf(s) + Sent(s)
    ensures WellFormedHead(h, HeadOf(s.leader, s.headers)) && BriefHead(HeadOf(s.leader, s.headers))
    ensures AtBody(h, s).chunked == SeenChunked(s.headers)
  {
    hide HeadOf, HeaderText, BodyText, WellFormedHead, HeadText, BriefHead, SeenChunked;
    HeadIsWellFormed(h, s.leader, s.headers);
    HeadSeen(h, s.leader, s.headers);
    assert s.headers[..|s.headers|] == s.headers;
    var head, last := HeadTextOf(s), if s.chunked && s.document != null then LAST_CHUNK else "";
    assert head + (BodyText(s.Reads(), s.chunked) + last) == head + BodyText(s.Reads(), s.chunked) + last;
  }

  /** Reading such a text is reading its body with the parser the head leaves. */
  lemma HeardReading(h: Hooks, s: Sender, body: string)
    requires Heard(h, s)
    ensures Read(h, INITIAL, HeadTextOf(s) + body) == Shift(|HeadTextOf(s)|, Read(h, AtBody(h, s), body))
  {
    hide Read, ShortLines, HeadText, HeadOf, AfterHead, Heard, WellFormedHead, BriefHead, WholeText, SeenChunked;
    HeardText(h, s);
    HeadTaken(h, HeadOf(s.leader, s.headers), false);
    var head := HeadTextOf(s);
    assert SameFuture(h, INITIAL, head + body, AtBody(h, s), head[|head|..] + body, |head|);
    assert head[|head|..] + body == body;
  }

  lemma AtBodyHasNone(h: Hooks, s: Sender)
    ensures BodyOf(AtBody(h, s).log) == ""
  {
    hide BodyOf, AfterHead, HeadOf;
    HeadHasNoBody(h, HeadOf(s.leader, s.headers));
  }

  lemma {:induction false} PlainBody(pieces: seq<string>)
    ensures BodyText(pieces, false) == Concat(pieces)
    decreases |pieces|
  {
    if pieces != [] {
      var before, last := pieces[..|pieces| - 1], pieces[|pieces| - 1];
      PlainBody(before);
      ConcatAppend(before, last);
      assert before + [last] == pieces;
    }
  }

  /** A plain send puts the document behind the head as it is; a chunked one something longer. */
  lemma {:induction false} SentIs(s: Sender)
    ensures !s.chunked ==> Sent(s) == Concat(s.Reads())
    ensures s.chunked && s.document != null ==> |Sent(s)| > |Concat(s.Reads())|
  {
    hide BodyText;
    if s.chunked {
      FramingIsLonger(s.Reads());
    } else {
      PlainBody(s.Reads());
    }
  }

  lemma {:induction false} FramingIsLonger(pieces: seq<string>)
    ensures |BodyText(pieces, true)| >= |Concat(pieces)|
    decreases |pieces|
  {
    hide Hex;
    if pieces != [] {
      BodyTextFront(pieces);
      FramingIsLonger(pieces[1..]);
    }
  }

  // --- a chunked document -----------------------------------------------------------------------

  /** A document piece as the grammar sees it. */
  function ChunkOf(piece: string): Chunk {
    Chunk(Hex(|piece|, CHUNK_DIGITS), "\r", piece, "\r")
  }

  function ChunksOf(pieces: seq<string>): seq<Chunk> {
    if pieces == [] then [] else [ChunkOf(pieces[0])] + ChunksOf(pieces[1..])
  }

  function ContentOf(pieces: seq<string>): Content {
    Chunked(ChunksOf(pieces), "0", "\r", [], "\r")
  }

  lemma {:induction false} ChunkIsWellFormed(piece: string)
    requires 0 < |piece| < 0x1_0000_0000
    ensures WellFormedChunk(ChunkOf(piece)) && BriefChunk(ChunkOf(piece)) && ChunkText(ChunkOf(piece)) == Frame(piece)
  {
    hide Hex, IsNumeral;
    SizeLine(|piece|);
    HexIsHex(|piece|, CHUNK_DIGITS);
    var size := Hex(|piece|, CHUNK_DIGITS);
    assert size + "\r" + "\n" + piece + "\r" + "\n" == size + CRLF + piece + CRLF;
  }

  lemma {:induction false} BodyTextFront(pieces: seq<string>)
    requires pieces != []
    ensures BodyText(pieces, true) == Frame(pieces[0]) + BodyText(pieces[1..], true)
    decreases |pieces|
  {
    hide Frame;
    if |pieces| == 1 {
      assert pieces[..0] == [] && pieces[1..] == [];
    } else {
      BodyTextFront(pieces[..|pieces| - 1]);
      assert pieces[..|pieces| - 1][1..] == pieces[1..][..|pieces| - 2];
    }
  }

  /** The framed pieces of a document are the chunks of the grammar, and their data is the document. */
  lemma {:induction false} ChunksAreWellFormed(pieces: seq<string>)
    requires forall i | 0 <= i < |pieces| :: 0 < |pieces[i]| < 0x1_0000_0000
    ensures var chunks := ChunksOf(pieces);
            && (forall i | 0 <= i < |chunks| :: WellFormedChunk(chunks[i]) && BriefChunk(chunks[i]))
            && ChunksText(chunks) == BodyText(pieces, true) && ChunksData(chunks) == Concat(pieces)
    decreases |pieces|
  {
    hide WellFormedChunk, BriefChunk, ChunkText, BodyText, Frame;
    if pieces == [] {
      EmptyBody(true);
    } else {
      ChunkIsWellFormed(pieces[0]);
      ChunksAreWellFormed(pieces[1..]);
      BodyTextFront(pieces);
      assert ChunksOf(pieces)[1..] == ChunksOf(pieces[1..]);
    }
  }

  lemma ZeroText()
    ensures IsNumeral("0", 16, 0)
  {
    var n := Numeral("", "", "", "0", [0]);
    assert NumeralText(n) == "0" && WellFormedNumeral(n, 16);
    assert [0][..0] == [] && Positional([0], 16) == 0;
  }

  lemma {:induction false} ContentIsWellFormed(pieces: seq<string>)
    requires forall i | 0 <= i < |pieces| :: 0 < |pieces[i]| < 0x1_0000_0000
    ensures WellFormedChunks(ContentOf(pieces)) && BriefContent(ContentOf(pieces))
    ensures ContentText(ContentOf(pieces)) == BodyText(pieces, true) + LAST_CHUNK
    ensures ContentData(ContentOf(pieces)) == Concat(pieces)
  {
    hide ChunksOf, ChunksText, ChunksData, BodyText, IsNumeral, WellFormedChunk, BriefChunk;
    ChunksAreWellFormed(pieces);
    ZeroText();
    assert TrailerText([], "\r") == "\r\n" by {
      assert LinesText([]) == "";
    }
    assert "0" + "\r" + "\n" + "\r\n" == LAST_CHUNK;
  }

  /** A send in chunks that a receiver with these hooks reads in chunks. */
  ghost predicate Transferable(h: Hooks, s: Sender)
    reads s, s.document
  {
    s.chunked && s.document != null && Heard(h, s) && SeenChunked(s.headers)
  }

  ghost function MessageOf(s: Sender): Message
    reads s, s.document
  {
    Message(HeadOf(s.leader, s.headers), ContentOf(s.Reads()))
  }

  /** The text of a chunked send is a well-formed message whose body is the document. */
  lemma {:induction false} SentIsWellFormed(h: Hooks, s: Sender)
    requires Transferable(h, s)
    ensures WellFormed(h, MessageOf(s)) && BriefHead(MessageOf(s).head) && BriefContent(MessageOf(s).content)
    ensures Wire(MessageOf(s)) == WholeText(s)
    ensures ContentData(MessageOf(s).content) == Concat(s.Reads())
  {
    hide HeadOf, ContentOf, BodyText, SeenChunked, WellFormedHead, BriefHead, BriefContent, WellFormedChunks, HeadText, ContentText,
      ContentData, WholeText;
    HeardText(h, s);
    ContentIsWellFormed(s.Reads());
  }

  /** The whole text is read to its end, in lines that fit the receive buffer. */
  lemma WholeReading(h: Hooks, s: Sender)
    requires Transferable(h, s)
    ensures Read(h, INITIAL, WholeText(s)) == Reading(Outcome(h, MessageOf(s)), |WholeText(s)|, Finished(NoError))
    ensures ShortLines(h, INITIAL, WholeText(s))
    ensures BodyOf(Outcome(h, MessageOf(s)).log) == Concat(s.Reads())
  {
    hide WholeText, Read, ShortLines, Transferable, WellFormed, BriefHead, BriefContent, Wire, Outcome, MessageOf, BodyOf, ContentData;
    SentIsWellFormed(h, s);
    MessageAccepted(h, MessageOf(s), true);
    OutcomeBody(h, MessageOf(s));
    assert WholeText(s) + "" == WholeText(s);
  }

  /**
   * End to end, while the transfer runs: wherever the sender is, whatever part of the wire
   * arrived, in whatever fragments and however the receiver's document took it, the receiver has
   * reported a prefix of the message and its document holds a prefix of what the sender read.
   */
  lemma TransferInProgress(s: Sender, r: Receiver)
    requires Transferable(r.hooks, s) && s.Valid()
    requires r.Valid() && r.Received() <= s.net.taken
    ensures r.log <= Outcome(r.hooks, MessageOf(s)).log
    ensures !r.discard ==> r.document.taken <= Concat(s.Reads())
  {
    hide Read, BodyOf, WholeText, Outcome, MessageOf, Transferable;
    WholeReading(r.hooks, s);
    WireIsPrefix(s);
    var missing := WholeText(s)[|r.Received()|..];
    assert r.Received() + missing == WholeText(s);
    assert SameFuture(r.hooks, INITIAL, r.Received() + missing, r.Parser(), r.Received()[r.consumed..] + missing, r.consumed);
    hide ShortLines;
    ReadKeepsLog(r.hooks, r.Parser(), r.Received()[r.consumed..] + missing);
    BodyOfPrefix(r.log, Outcome(r.hooks, MessageOf(s)).log);
  }

  /**
   * End to end, at completion, wherever the sender is: a receiver whose parser concluded did so
   * without error, on the last byte of the message, and its document is exactly the document sent.
   * It concludes only if the sender wrote its whole message.
   */
  lemma TransferComplete(s: Sender, r: Receiver, error: HttpError)
    requires Transferable(r.hooks, s) && s.Valid()
    requires r.Received() <= s.net.taken && r.DocumentAgrees()
    requires Read(r.hooks, INITIAL, r.Received()) == Reading(r.Parser(), r.consumed, Finished(error))
    ensures error == NoError && s.WholeMessageSent() && r.consumed == |r.Received()| == |s.net.taken|
    ensures r.Parser() == Outcome(r.hooks, MessageOf(s))
    ensures !r.discard ==> r.document.taken == Concat(s.Reads())
  {
    hide Read, BodyOf, WholeText, Outcome, MessageOf, ShortLines, Heard, SeenChunked;
    WholeReading(r.hooks, s);
    WireIsPrefix(s);
    var missing := WholeText(s)[|r.Received()|..];
    assert r.Received() + missing == WholeText(s);
    ReadAppend(r.hooks, INITIAL, r.Received(), missing);
  }

  /**
   * The receive buffer is never too small for what the sender writes: a receiver with a full
   * buffer always finds a complete element in it, so it never gives up with an overflow error.
   */
  lemma NoOverflow(s: Sender, r: Receiver)
    requires Transferable(r.hooks, s) && s.Valid()
    requires r.Valid() && r.Received() <= s.net.taken && r.len == BUFFER_SIZE
    ensures !NextStep(r.hooks, r.Parser(), r.buffer[..r.len]).Stuck?
  {
    hide BodyOf, WholeText, NextStep, Outcome, MessageOf, Transferable;
    WholeReading(r.hooks, s);
    WireIsPrefix(s);
    var missing := WholeText(s)[|r.Received()|..];
    var rest := r.Received()[r.consumed..];
    assert r.Received() + missing == WholeText(s);
    assert SameFuture(r.hooks, INITIAL, r.Received() + missing, r.Parser(), rest + missing, r.consumed);
    hide Follows, SameFuture;
    FullBufferHasLine(r.hooks, r.Parser(), rest, missing);
  }

  lemma FullBufferHasLine(h: Hooks, p: Parser, buffered: string, missing: string)
    requires |buffered| == BUFFER_SIZE
    requires ShortLines(h, p, buffered + missing) && Read(h, p, buffered + missing).verdict.Finished?
    ensures !NextStep(h, p, buffered).Stuck?
  {
    hide HandleLine, TrimRight;
    var s := buffered + missing;
    if !p.state.Data? && !p.state.Complete? {
      var n := IndexOf(s, '\n');
      assert n < |s| && n + 1 <= BUFFER_SIZE;
      assert buffered[n] == '\n';
    }
  }

  /** And once everything arrived, the receiver is not left waiting: the message is complete. */
  lemma TransferEnds(s: Sender, r: Receiver)
    requires Transferable(r.hooks, s) && s.WholeMessageSent()
    requires r.Received() == s.net.taken
    ensures Read(r.hooks, INITIAL, r.Received()).verdict == Finished(NoError)
  {
    hide Read, ShortLines, Outcome, MessageOf, Heard, SeenChunked, BodyOf, MessageText;
    WholeReading(r.hooks, s);
  }

  /**
   * A document sent as it is and read in chunks does not arrive: whatever is accepted without error is
   * shorter than what was sent.
   */
  lemma ChunkedByMistake(s: Sender, r: Receiver)
    requires Heard(r.hooks, s) && SeenChunked(s.headers) && s.Valid()
    requires r.Received() <= s.net.taken && r.DocumentAgrees() && !r.discard
    requires Read(r.hooks, INITIAL, r.Received()) == Reading(r.Parser(), r.consumed, Finished(NoError))
    ensures |r.document.taken| < |Sent(s)|
    ensures !s.chunked ==> r.document.taken != Concat(s.Reads())
  {
    hide Read, BodyOf, WholeText, ShortLines, Heard, HeadTextOf, AtBody, Sent, SeenChunked;
    var h, p := r.hooks, AtBody(r.hooks, s);
    WireIsPrefix(s);
    HeardText(h, s);
    HeardReading(h, s, Sent(s));
    var missing := WholeText(s)[|r.Received()|..];
    assert r.Received() + missing == WholeText(s);
    ReadAppend(h, INITIAL, r.Received(), missing);
    AtBodyHasNone(h, s);
    ChunkedReading(h, p, Sent(s));
    SentIs(s);
  }

  lemma {:induction false} ChunkedReading(h: Hooks, p: Parser, s: string)
    requires p.state.ChunkSize? && p.chunked && Read(h, p, s).verdict == Finished(NoError) && BodyOf(p.log) == ""
    ensures |BodyOf(Read(h, p, s).parser.log)| < |s|
  {
    hide Read, BodyOf, ContentText, ContentData, WellFormedChunks, ShortLines, BriefContent, BodyEvents;
    var c := ChunkedSound(h, p, s);
    ChunkedEnds(h, p, c, false);
    assert s == ContentText(c) + s[|ContentText(c)|..];
    BodyOfAppend(p.log, BodyEvents(ContentData(c)));
    BodyOfBytes(ContentData(c));
    CodingIsLonger(c);
  }

  lemma {:induction false} CodingIsLonger(c: Content)
    requires WellFormedChunks(c)
    ensures |ContentText(c)| > |ContentData(c)|
  {
    hide ChunksText, ChunksData, LinesText;
    ChunksAreLonger(c.chunks);
  }

  lemma {:induction false} ChunksAreLonger(chunks: seq<Chunk>)
    ensures |ChunksText(chunks)| >= |ChunksData(chunks)|
    decreases |chunks|
  {
    if chunks != [] {
      ChunksAreLonger(chunks[1..]);
    }
  }

  // --- a plain body -----------------------------------------------------------------------------

  /** A send that a receiver with these hooks reads without chunks, however it was sent. */
  ghost predicate Plain(h: Hooks, s: Sender)
    reads s, s.document
  {
    Heard(h, s) && !SeenChunked(s.headers)
  }

  /**
   * End to end for a body of known size n, wherever the sender is and whatever size was announced: a
   * receiver whose parser concluded has exactly the first n bytes of what was sent behind the head,
   * and the sender has written so many. Sent without chunks, these are the first n bytes of the
   * document.
   */
  lemma SizedTransferComplete(s: Sender, r: Receiver, error: HttpError)
    requires Plain(r.hooks, s) && s.Valid()
    requires r.Received() <= s.net.taken && r.DocumentAgrees()
    requires Read(r.hooks, INITIAL, r.Received()) == Reading(r.Parser(), r.consumed, Finished(error))
    ensures var n := AtBody(r.hooks, s).dataSize;
            && error == NoError && n <= |Sent(s)| && r.consumed == |HeadTextOf(s)| + n <= |s.net.taken|
            && (!r.discard ==> r.document.taken == Sent(s)[..n])
            && (!r.discard && !s.chunked ==> n <= |Concat(s.Reads())| && r.document.taken == Concat(s.Reads())[..n])
  {
    hide Read, BodyOf, WholeText, ShortLines, Plain, HeadTextOf, AtBody, Sent;
    var h, body := r.hooks, Sent(s);
    var p := AtBody(h, s);
    WireIsPrefix(s);
    PlainText(h, s);
    var missing := WholeText(s)[|r.Received()|..];
    assert r.Received() + missing == WholeText(s);
    ReadAppend(h, INITIAL, r.Received(), missing);
    SizedReading(h, p, body);
    AtBodyHasNone(h, s);
    BodyOfAppend(p.log, BodyEvents(body[..p.dataSize]));
    BodyOfBytes(body[..p.dataSize]);
    SentIs(s);
  }

  /** The whole text, read with the parser its head leaves. */
  lemma PlainText(h: Hooks, s: Sender)
    requires Plain(h, s)
    ensures !AtBody(h, s).chunked && AtBody(h, s).state.Data?
    ensures WholeText(s) == HeadTextOf(s) + Sent(s)
    ensures Read(h, INITIAL, WholeText(s)) == Shift(|HeadTextOf(s)|, Read(h, AtBody(h, s), Sent(s)))
  {
    hide Heard, SeenChunked, HeadOf, AfterHead, WholeText, HeadTextOf, WellFormedHead, BriefHead, Sent, Read;
    HeardText(h, s);
    HeardReading(h, s, Sent(s));
  }

  /** A finished reading of a sized body took exactly its size. */
  lemma SizedReading(h: Hooks, p: Parser, s: string)
    requires p.state.Data? && !p.chunked && Read(h, p, s).verdict.Finished?
    ensures p.dataSize < SIZE_UNKNOWN && p.dataSize <= |s|
    ensures Read(h, p, s) == Reading(TakeBody(p, s[..p.dataSize]), p.dataSize, Finished(NoError))
  {
    hide BodyEvents, ShortLines, Stops;
    if p.dataSize > 0 {
      EnoughData(h, p, s);
    }
    var n := p.dataSize;
    ReadBody(h, p, s, n);
    var done := TakeBody(p, s[..n]);
    assert NextStep(h, done, s[n..]) == Halt(done, 0, NoError);
    hide NextStep;
    assert Read(h, done, s[n..]) == Reading(done, 0, Finished(NoError));
  }

  /** How much of what is there a body takes: all of it, or no more than its size. */
  lemma {:induction false} PlainBodyReading(h: Hooks, p: Parser, s: string)
    requires p.state.Data? && !p.chunked
    ensures BodyOf(Read(h, p, s).parser.log) <= BodyOf(p.log) + s
  {
    hide BodyOf, BodyEvents, ShortLines;
    var k := if p.dataSize == SIZE_UNKNOWN || p.dataSize > |s| then |s| else p.dataSize;
    ReadBody(h, p, s, k);
    var done := TakeBody(p, s[..k]);
    assert Read(h, done, s[k..]).parser == done by {
      ReadStep(h, done, s[k..]);
    }
    hide Read, NextStep;
    BodyOfAppend(p.log, BodyEvents(s[..k]));
    BodyOfBytes(s[..k]);
  }

  /** While such a transfer runs, the receiver's document is a prefix of what was sent behind the head. */
  lemma PlainInProgress(s: Sender, r: Receiver)
    requires Plain(r.hooks, s) && s.Valid()
    requires r.Valid() && r.Received() <= s.net.taken
    ensures !r.discard ==> r.document.taken <= Sent(s)
    ensures !r.discard && !s.chunked ==> r.document.taken <= Concat(s.Reads())
  {
    hide Read, BodyOf, WholeText, Plain, ShortLines, Sent;
    var h, rest := r.hooks, r.Received()[r.consumed..];
    WireIsPrefix(s);
    WholePlainReading(h, s);
    SentIs(s);
    var missing := WholeText(s)[|r.Received()|..];
    assert r.Received() + missing == WholeText(s);
    assert SameFuture(h, INITIAL, r.Received() + missing, r.Parser(), rest + missing, r.consumed);
    hide Follows;
    ReadKeepsLog(h, r.Parser(), rest + missing);
    BodyOfPrefix(r.log, Read(h, INITIAL, WholeText(s)).parser.log);
  }

  lemma WholePlainReading(h: Hooks, s: Sender)
    requires Plain(h, s)
    ensures BodyOf(Read(h, INITIAL, WholeText(s)).parser.log) <= Sent(s)
  {
    hide Read, BodyOf, WholeText, Plain, HeadTextOf, AtBody, Sent;
    PlainText(h, s);
    PlainBodyReading(h, AtBody(h, s), Sent(s));
    AtBodyHasNone(h, s);
  }

  /** Once that many bytes were sent and all of the wire arrived, the receiver is not left waiting. */
  lemma SizedTransferEnds(s: Sender, r: Receiver)
    requires Plain(r.hooks, s) && s.WholeMessageSent()
    requires r.Received() == s.net.taken && AtBody(r.hooks, s).dataSize <= |Sent(s)|
    requires AtBody(r.hooks, s).dataSize < SIZE_UNKNOWN
    ensures Read(r.hooks, INITIAL, r.Received()).verdict == Finished(NoError)
  {
    hide BodyEvents, ShortLines, Plain, HeadTextOf, AtBody, MessageText, Sent;
    var h, body := r.hooks, Sent(s);
    var p := AtBody(h, s);
    PlainText(h, s);
    var n := p.dataSize;
    ReadBody(h, p, body, n);
    var done := TakeBody(p, body[..n]);
    assert NextStep(h, done, body[n..]) == Halt(done, 0, NoError);
    hide NextStep;
  }

  /** The size is the one the content length announces, if the receiver's user leaves it at that. */
  lemma {:induction false} AnnouncedSize(h: Hooks, s: Sender, size: nat)
    requires size < 0x1_0000_0000 && Announces(s.headers, size)
    requires var q := AfterFields(AfterLeader(s.leader + "\r"), FieldsOf(s.headers));
             h.headerComplete(q.log, q.chunked, q.dataSize).1 == q.dataSize
    ensures AtBody(h, s).dataSize == size
  {
    hide AfterFields, FieldsOf, IsLength, Sendable, Decimal;
    SizeIsSeen(AfterLeader(s.leader + "\r"), s.headers, size);
  }

  /** The size stays unknown without a content length, if the receiver's user leaves it at that. */
  lemma {:induction false} UnannouncedSize(h: Hooks, s: Sender)
    requires Unannounced(s.headers)
    requires var q := AfterFields(AfterLeader(s.leader + "\r"), FieldsOf(s.headers));
             h.headerComplete(q.log, q.chunked, q.dataSize).1 == q.dataSize
    ensures AtBody(h, s).dataSize == SIZE_UNKNOWN
  {
    hide AfterFields, FieldsOf, IsLength;
    NoSizeIsSeen(AfterLeader(s.leader + "\r"), s.headers);
  }

  lemma AfterPrefix(s: string, a: string, b: string) returns (rest: string)
    requires s <= a + b && |a| <= |s|
    ensures s == a + rest && rest <= b && (s == a + b <==> rest == b)
  {
    rest := s[|a|..];
    assert s[..|a|] == (a + b)[..|a|] == a;
    assert rest == b[..|rest|] by {
      assert forall i | 0 <= i < |rest| :: rest[i] == s[|a| + i] == (a + b)[|a| + i] == b[i];
    }
  }

  /**
   * End to end for a document whose end is the end of the connection, wherever the sender is: a
   * receiver that has the head and waits for more would take a clean close for the end, and its
   * document is everything received after the head. Sent without chunks, that is all of the document
   * exactly when all that the sender read has arrived; sent in chunks, it never is.
   */
  lemma {:induction false} OpenTransferComplete(s: Sender, r: Receiver)
    requires Plain(r.hooks, s) && s.Valid() && AtBody(r.hooks, s).dataSize == SIZE_UNKNOWN
    requires |HeadTextOf(s)| <= |r.Received()| && r.Received() <= s.net.taken && r.DocumentAgrees()
    requires Read(r.hooks, INITIAL, r.Received()) == Reading(r.Parser(), r.consumed, Continue)
    ensures r.CloseError(0) == NoError && r.consumed == |r.Received()|
    ensures !r.discard ==>
              && HeadTextOf(s) + r.document.taken == r.Received() && r.document.taken <= Sent(s)
              && (r.document.taken == Sent(s) <==> r.Received() == WholeText(s))
    ensures !s.chunked ==> Sent(s) == Concat(s.Reads())
    ensures s.chunked && s.document != null && !r.discard && r.Received() == WholeText(s) ==> r.document.taken != Concat(s.Reads())
  {
    hide Read, BodyOf, WholeText, ShortLines, Plain, HeadTextOf, AtBody, BodyEvents, Sent;
    WireIsPrefix(s);
    PlainText(r.hooks, s);
    SentIs(s);
    var body := AfterPrefix(r.Received(), HeadTextOf(s), Sent(s));
    OpenReading(r.hooks, s, body);
  }

  lemma {:induction false} OpenReading(h: Hooks, s: Sender, body: string)
    requires Plain(h, s) && AtBody(h, s).dataSize == SIZE_UNKNOWN
    ensures var q := Read(h, INITIAL, HeadTextOf(s) + body).parser;
            && Read(h, INITIAL, HeadTextOf(s) + body) == Reading(q, |HeadTextOf(s)| + |body|, Continue)
            && q.state.Data? && q.dataSize == SIZE_UNKNOWN && BodyOf(q.log) == body
  {
    hide Read, BodyOf, Heard, SeenChunked, HeadTextOf, AtBody, BodyEvents, ShortLines, WholeText, Sent;
    var p := AtBody(h, s);
    PlainText(h, s);
    HeardReading(h, s, body);
    OpenEnded(h, p, body);
    AtBodyHasNone(h, s);
    BodyOfAppend(p.log, BodyEvents(body));
    BodyOfBytes(body);
  }
}
