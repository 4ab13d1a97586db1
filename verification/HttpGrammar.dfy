/**
 * The messages the parser takes, as a grammar: what it accepts without error is exactly the texts of
 * well-formed messages, and it reports exactly what such a text says.
 */
module HttpGrammar {
  import opened Text
  import opened HttpCommon
  import opened HttpSyntax
  import opened HttpReceiver
  import opened Numerals

  // --- texts ------------------------------------------------------------------------------------

  predicate AllSpace(s: string) {
    forall i | 0 <= i < |s| :: IsSpace(s[i])
  }

  /** Text that starts and ends with something visible. */
  predicate Tight(s: string) {
    s != "" && !IsSpace(s[0]) && !IsSpace(s[|s| - 1])
  }

  /** A header: the name runs to the first colon, white space around the value does not count. */
  datatype Field = Field(name: string, blanks: string, value: string, pad: string)

  function FieldLine(f: Field): string {
    f.name + ":" + f.blanks + f.value + f.pad
  }

  predicate WellFormedField(f: Field) {
    && ':' !in f.name && '\0' !in f.name && '\n' !in FieldLine(f)
    && AllSpace(f.blanks) && AllSpace(f.pad)
    && (f.value == "" || Tight(f.value))
    && (SameIgnoringCase(f.name, "Content-Length") ==> StrToUL(f.value, 10).1 > 0)
    && (SameIgnoringCase(f.name, "Transfer-Encoding") ==>
          SameIgnoringCase(f.value, "chunked") || SameIgnoringCase(f.value, "identity"))
  }

  /** A size line carries the number and nothing else but white space at its end. */
  ghost predicate SizeText(size: string, pad: string, n: nat) {
    && '\n' !in size + pad && AllSpace(pad)
    && size != "" && !IsSpace(size[|size| - 1])
    && IsNumeral(size, 16, n)
  }

  predicate BlankText(line: string) {
    AllSpace(line) && '\n' !in line
  }

  datatype Chunk = Chunk(size: string, pad: string, data: string, end: string)

  ghost predicate WellFormedChunk(c: Chunk) {
    0 < |c.data| < SIZE_UNKNOWN && SizeText(c.size, c.pad, |c.data|) && BlankText(c.end)
  }

  function ChunkText(c: Chunk): string {
    c.size + c.pad + "\n" + c.data + c.end + "\n"
  }

  /** A body of known size, or chunks, the empty chunk, trailers and a blank line. */
  datatype Content =
    | Sized(data: string)
    | Chunked(chunks: seq<Chunk>, size: string, pad: string, trailers: seq<string>, end: string)

  function LinesText(lines: seq<string>): string {
    if lines == [] then "" else lines[0] + "\n" + LinesText(lines[1..])
  }

  function ChunksText(chunks: seq<Chunk>): string {
    if chunks == [] then "" else ChunkText(chunks[0]) + ChunksText(chunks[1..])
  }

  function ChunksData(chunks: seq<Chunk>): string {
    if chunks == [] then "" else chunks[0].data + ChunksData(chunks[1..])
  }

  function TrailerText(trailers: seq<string>, end: string): string {
    LinesText(trailers) + end + "\n"
  }

  function ContentText(c: Content): string {
    match c
    case Sized(data) => data
    case Chunked(chunks, size, pad, trailers, end) =>
      ChunksText(chunks) + (size + pad + "\n" + TrailerText(trailers, end))
  }

  function ContentData(c: Content): string {
    match c
    case Sized(data) => data
    case Chunked(chunks, _, _, _, _) => ChunksData(chunks)
  }

  predicate WellFormedTrailers(trailers: seq<string>, end: string) {
    && (forall i | 0 <= i < |trailers| :: '\n' !in trailers[i] && !AllSpace(trailers[i]))
    && BlankText(end)
  }

  ghost predicate WellFormedChunks(c: Content) {
    && c.Chunked?
    && (forall i | 0 <= i < |c.chunks| :: WellFormedChunk(c.chunks[i]))
    && SizeText(c.size, c.pad, 0)
    && WellFormedTrailers(c.trailers, c.end)
  }

  // --- lines that fit the receive buffer --------------------------------------------------------

  predicate Brief(line: string) {
    |line| < BUFFER_SIZE
  }

  predicate BriefChunk(c: Chunk) {
    Brief(c.size + c.pad) && Brief(c.end)
  }

  predicate BriefTrailers(trailers: seq<string>, end: string) {
    (forall i | 0 <= i < |trailers| :: Brief(trailers[i])) && Brief(end)
  }

  predicate BriefContent(c: Content) {
    c.Chunked? ==>
      && (forall i | 0 <= i < |c.chunks| :: BriefChunk(c.chunks[i]))
      && Brief(c.size + c.pad) && BriefTrailers(c.trailers, c.end)
  }

  // --- lines ------------------------------------------------------------------------------------

  lemma {:induction false} TrimRightOf(a: string, pad: string)
    requires AllSpace(pad) && (a == "" || !IsSpace(a[|a| - 1]))
    ensures TrimRight(a + pad) == a
    decreases |pad|
  {
    if pad == "" {
      assert a + pad == a;
    } else {
      TrimRightOf(a, pad[..|pad| - 1]);
      assert (a + pad)[..|a + pad| - 1] == a + pad[..|pad| - 1];
    }
  }

  lemma {:induction false} TrimRightSplits(s: string)
    ensures var t := TrimRight(s);
            t <= s && AllSpace(s[|t|..]) && (t == "" || !IsSpace(t[|t| - 1]))
    decreases |s|
  {
    if s != "" && IsSpace(s[|s| - 1]) {
      var before := s[..|s| - 1];
      TrimRightSplits(before);
      var t := TrimRight(before);
      assert s[|t|..] == before[|t|..] + [s[|s| - 1]];
    }
  }

  lemma BlankTrims(line: string)
    ensures AllSpace(line) <==> TrimRight(line) == ""
  {
    TrimRightSplits(line);
    if AllSpace(line) {
      TrimRightOf("", line);
      assert "" + line == line;
    }
  }

  /** From `a` the parser goes on as `q`, whatever comes next; briefly: with no line longer than the receive buffer. */
  ghost predicate Takes(h: Hooks, p: Parser, a: string, q: Parser, briefly: bool) {
    && Follows(h, p, a, q, |a|)
    && (briefly ==> forall t: string :: StaysShort(h, p, a, q, t))
  }

  ghost predicate StaysShort(h: Hooks, p: Parser, a: string, q: Parser, t: string) {
    ShortLines(h, q, t) ==> ShortLines(h, p, a + t)
  }

  /** The message ends without error at the end of `a`, whatever comes next. */
  ghost predicate Stops(h: Hooks, p: Parser, a: string, q: Parser, briefly: bool) {
    && Ends(h, p, a, q, |a|, NoError)
    && (briefly ==> forall t: string :: ShortLines(h, p, a + t))
  }

  lemma TakesNothing(h: Hooks, p: Parser, briefly: bool)
    ensures Takes(h, p, "", p, briefly)
  {
    hide ShortLines, Follows;
    FollowsSelf(h, p, "");
    assert forall t: string :: "" + t == t;
  }

  lemma TakesThen(h: Hooks, p: Parser, a: string, q: Parser, b: string, r: Parser, briefly: bool)
    requires Takes(h, p, a, q, briefly) && Takes(h, q, b, r, briefly)
    ensures Takes(h, p, a + b, r, briefly)
  {
    hide Follows, ShortLines;
    FollowsAppend(h, p, a, q, |a|, b);
    assert (a + b)[|a|..] == b;
    FollowsThen(h, p, a + b, q, |a|, r, |b|);
    if briefly {
      forall t: string
        ensures StaysShort(h, p, a + b, r, t)
      {
        assert StaysShort(h, q, b, r, t) && StaysShort(h, p, a, q, b + t);
        assert a + b + t == a + (b + t);
      }
    }
  }

  lemma StopsThen(h: Hooks, p: Parser, a: string, q: Parser, b: string, r: Parser, briefly: bool)
    requires Takes(h, p, a, q, briefly) && Stops(h, q, b, r, briefly)
    ensures Stops(h, p, a + b, r, briefly)
  {
    hide Follows, Ends, ShortLines;
    FollowsAppend(h, p, a, q, |a|, b);
    assert (a + b)[|a|..] == b;
    EndsAfter(h, p, a + b, q, |a|, r, |b|, NoError);
    if briefly {
      forall t: string
        ensures ShortLines(h, p, a + b + t)
      {
        assert StaysShort(h, p, a, q, b + t);
        assert a + b + t == a + (b + t);
      }
    }
  }

  /** One element that is all of `a`. */
  lemma TakesStep(h: Hooks, p: Parser, a: string, briefly: bool)
    requires briefly ==> |a| <= BUFFER_SIZE
    ensures var s := NextStep(h, p, a); s.Advance? && s.n == |a| ==> Takes(h, p, a, s.parser, briefly)
    ensures var s := NextStep(h, p, a); s.Halt? && s.n == |a| && s.error == NoError ==> Stops(h, p, a, s.parser, briefly)
  {
    hide NextStep, Follows, Ends;
    FollowsStep(h, p, a);
    if briefly {
      forall t: string
        ensures var s := NextStep(h, p, a); s.Advance? && s.n == |a| ==> StaysShort(h, p, a, s.parser, t)
        ensures var s := NextStep(h, p, a); s.Halt? && s.n == |a| ==> ShortLines(h, p, a + t)
      {
        NextStepAppend(h, p, a, t);
        assert (a + t)[|a|..] == t;
      }
    }
  }

  /** A line does what its text without the white space at its end does. */
  lemma LineIs(h: Hooks, p: Parser, line: string)
    requires !p.state.Data? && !p.state.Complete? && '\n' !in line
    ensures var (q, verdict) := HandleLine(h, p, TrimRight(line));
            NextStep(h, p, line + "\n")
            == if verdict.Continue? then Advance(q, |line| + 1) else Halt(q, |line| + 1, verdict.error)
  {
    hide HandleLine, TrimRight, IndexOf;
    IndexOfIs(line + "\n", '\n', |line|);
    assert (line + "\n")[..|line|] == line;
  }

  lemma TakesLine(h: Hooks, p: Parser, line: string, briefly: bool)
    requires !p.state.Data? && !p.state.Complete? && '\n' !in line
    requires briefly ==> |line| < BUFFER_SIZE
    ensures var (q, verdict) := HandleLine(h, p, TrimRight(line));
            && (verdict.Continue? ==> Takes(h, p, line + "\n", q, briefly))
            && (verdict == Finished(NoError) ==> Stops(h, p, line + "\n", q, briefly))
  {
    hide HandleLine, TrimRight, Takes, Stops, NextStep;
    LineIs(h, p, line);
    TakesStep(h, p, line + "\n", briefly);
  }

  /** What a finished reading says about the line it starts with. */
  lemma FirstLine(h: Hooks, p: Parser, s: string) returns (line: string, rest: string)
    requires !p.state.Data? && !p.state.Complete?
    requires Read(h, p, s).verdict == Finished(NoError)
    ensures s == line + "\n" + rest && '\n' !in line
    ensures var (q, verdict) := HandleLine(h, p, TrimRight(line));
            && (verdict.Continue? ==> Read(h, p, s) == Shift(|line| + 1, Read(h, q, rest)))
            && (verdict.Finished? ==> verdict.error == NoError && Read(h, p, s) == Reading(q, |line| + 1, verdict))
  {
    hide HandleLine, TrimRight, IndexOf;
    var n := IndexOf(s, '\n');
    line, rest := s[..n], s[n + 1..];
  }

  // --- chunks -------------------------------------------------------------------------------------

  lemma {:induction false} TrailersEnd(h: Hooks, p: Parser, trailers: seq<string>, end: string, briefly: bool)
    requires p.state.Trailers? && WellFormedTrailers(trailers, end) && (briefly ==> BriefTrailers(trailers, end))
    ensures Stops(h, p, TrailerText(trailers, end), p, briefly)
    decreases |trailers|
  {
    hide TrimRight, Stops, Takes, AllSpace;
    if trailers == [] {
      BlankTrims(end);
      TakesLine(h, p, end, briefly);
      assert TrailerText([], end) == end + "\n";
    } else {
      var first, more := trailers[0], trailers[1..];
      BlankTrims(first);
      TakesLine(h, p, first, briefly);
      TrailersEnd(h, p, more, end, briefly);
      StopsThen(h, p, first + "\n", p, TrailerText(more, end), p, briefly);
      assert TrailerText(trailers, end) == first + "\n" + TrailerText(more, end);
    }
  }

  lemma {:induction false} TrailersSound(h: Hooks, p: Parser, s: string) returns (trailers: seq<string>, end: string)
    requires p.state.Trailers? && Read(h, p, s).verdict == Finished(NoError)
    ensures WellFormedTrailers(trailers, end) && TrailerText(trailers, end) <= s
    decreases |s|
  {
    hide TrimRight, Read, AllSpace;
    var line, rest := FirstLine(h, p, s);
    BlankTrims(line);
    if TrimRight(line) == "" {
      trailers, end := [], line;
      assert TrailerText([], line) == line + "\n";
    } else {
      var more;
      more, end := TrailersSound(h, p, rest);
      trailers := [line] + more;
      assert trailers[1..] == more;
      assert TrailerText(trailers, end) == line + "\n" + TrailerText(more, end);
    }
  }

  lemma SizeTrims(size: string, pad: string, n: nat)
    requires SizeText(size, pad, n)
    ensures TrimRight(size + pad) == size && StrToUL(size, 16) == (n, |size|)
  {
    WholeNumeral(size, 16, n);
    hide StrToUL, IsNumeral;
    TrimRightOf(size, pad);
  }

  /** A chunk, from its size line to the line end after its data. */
  lemma TakesChunk(h: Hooks, p: Parser, c: Chunk, briefly: bool)
    requires p.state.ChunkSize? && p.chunked && WellFormedChunk(c) && (briefly ==> BriefChunk(c))
    ensures Takes(h, p, ChunkText(c), p.(dataSize := 0, log := p.log + BodyEvents(c.data)), briefly)
  {
    hide TrimRight, Takes, Stops, AllSpace, StrToUL, NextStep;
    var sizeLine := c.size + c.pad;
    SizeTrims(c.size, c.pad, |c.data|);
    TakesLine(h, p, sizeLine, briefly);
    var data := p.(state := Data, dataSize := |c.data|);
    TakesData(h, data, c.data, briefly);
    var done := TakeBody(data, c.data);
    var term := done.(state := ChunkTerm);
    DataDone(h, done, briefly);
    BlankTrims(c.end);
    TakesLine(h, term, c.end, briefly);
    var q := term.(state := ChunkSize);
    TakesThen(h, data, c.data, done, "", term, briefly);
    assert c.data + "" == c.data;
    TakesThen(h, data, c.data, term, c.end + "\n", q, briefly);
    TakesThen(h, p, sizeLine + "\n", data, c.data + (c.end + "\n"), q, briefly);
    assert ChunkText(c) == sizeLine + "\n" + (c.data + (c.end + "\n"));
  }

  lemma TakesData(h: Hooks, p: Parser, data: string, briefly: bool)
    requires p.state.Data? && (p.dataSize == SIZE_UNKNOWN || |data| <= p.dataSize)
    ensures Takes(h, p, data, TakeBody(p, data), briefly)
  {
    hide Follows, TakeBody, Read, ShortLines;
    FollowsBody(h, p, data, |data|);
    assert data[..|data|] == data;
    forall t: string
      ensures StaysShort(h, p, data, TakeBody(p, data), t)
    {
      ReadBody(h, p, data + t, |data|);
      assert (data + t)[..|data|] == data && (data + t)[|data|..] == t;
    }
  }

  lemma DataDone(h: Hooks, p: Parser, briefly: bool)
    requires p.state.Data? && p.dataSize == 0 && p.chunked
    ensures Takes(h, p, "", p.(state := ChunkTerm), briefly)
  {
    hide Takes, Stops;
    TakesStep(h, p, "", briefly);
  }

  lemma {:induction false} TakesChunks(h: Hooks, p: Parser, chunks: seq<Chunk>, briefly: bool) returns (q: Parser)
    requires p.state.ChunkSize? && p.chunked && forall i | 0 <= i < |chunks| :: WellFormedChunk(chunks[i])
    requires briefly ==> forall i | 0 <= i < |chunks| :: BriefChunk(chunks[i])
    ensures q == p.(dataSize := q.dataSize, log := p.log + BodyEvents(ChunksData(chunks)))
    ensures Takes(h, p, ChunksText(chunks), q, briefly)
    decreases |chunks|
  {
    hide Takes, WellFormedChunk, BriefChunk, ChunkText;
    if chunks == [] {
      TakesNothing(h, p, briefly);
      q := p;
      assert p.log + BodyEvents("") == p.log;
    } else {
      var c, more := chunks[0], chunks[1..];
      TakesChunk(h, p, c, briefly);
      var r := p.(dataSize := 0, log := p.log + BodyEvents(c.data));
      q := TakesChunks(h, r, more, briefly);
      TakesThen(h, p, ChunkText(c), r, ChunksText(more), q, briefly);
      assert BodyEvents(c.data) + BodyEvents(ChunksData(more)) == BodyEvents(c.data + ChunksData(more));
      assert r.log + BodyEvents(ChunksData(more)) == p.log + (BodyEvents(c.data) + BodyEvents(ChunksData(more)));
    }
  }

  /** A well-formed chunk-coded body ends the message right after its last line. */
  lemma ChunkedEnds(h: Hooks, p: Parser, c: Content, briefly: bool)
    requires p.state.ChunkSize? && p.chunked && WellFormedChunks(c) && (briefly ==> BriefContent(c))
    ensures Stops(h, p, ContentText(c), p.(state := Trailers, dataSize := 0, log := p.log + BodyEvents(ContentData(c))), briefly)
  {
    hide Takes, Stops, TrimRight, StrToUL, ChunksText, ChunksData, LinesText, AllSpace, WellFormedTrailers, BodyEvents, BriefChunk;
    var q := TakesChunks(h, p, c.chunks, briefly);
    SizeTrims(c.size, c.pad, 0);
    TakesLine(h, q, c.size + c.pad, briefly);
    var t := q.(state := Trailers, dataSize := 0);
    var last := TrailerText(c.trailers, c.end);
    TrailersEnd(h, t, c.trailers, c.end, briefly);
    StopsThen(h, q, c.size + c.pad + "\n", t, last, t, briefly);
    StopsThen(h, p, ChunksText(c.chunks), q, c.size + c.pad + "\n" + last, t, briefly);
  }

  /** A size line the parser goes on from is well formed. */
  lemma SizeSound(h: Hooks, p: Parser, line: string) returns (size: string, pad: string)
    requires p.state.ChunkSize? && '\n' !in line && HandleLine(h, p, TrimRight(line)).1 == Continue
    ensures line == size + pad && SizeText(size, pad, StrToUL(size, 16).0) && size == TrimRight(line)
  {
    hide StrToUL, IsNumeral;
    TrimRightSplits(line);
    size := TrimRight(line);
    WholeNumeral(size, 16, StrToUL(size, 16).0);
    pad := line[|size|..];
    hide TrimRight;
    assert line == size + pad;
  }

  /** A finished reading of chunk data has all of the data and the blank line after it. */
  lemma DataSound(h: Hooks, p: Parser, s: string) returns (data: string, end: string, rest: string)
    requires p.state.Data? && p.chunked && p.dataSize > 0 && Read(h, p, s).verdict == Finished(NoError)
    ensures p.dataSize < SIZE_UNKNOWN && |data| == p.dataSize && BlankText(end)
    ensures s == data + (end + "\n" + rest)
    ensures Read(h, p.(state := ChunkSize, dataSize := 0, log := p.log + BodyEvents(data)), rest).verdict == Finished(NoError)
  {
    hide TrimRight, AllSpace, BodyEvents, Read, ShortLines;
    EnoughData(h, p, s);
    var n := p.dataSize;
    data := s[..n];
    ReadBody(h, p, s, n);
    var done := TakeBody(p, data);
    var term := done.(state := ChunkTerm);
    ReadAfterData(h, done, s[n..]);
    end, rest := FirstLine(h, term, s[n..]);
    BlankTrims(end);
  }

  lemma ReadAfterData(h: Hooks, p: Parser, s: string)
    requires p.state.Data? && p.dataSize == 0 && p.chunked
    ensures Read(h, p, s) == Read(h, p.(state := ChunkTerm), s)
  {
    assert s[0..] == s;
    assert NextStep(h, p, s) == Advance(p.(state := ChunkTerm), 0);
    hide NextStep;
    assert Read(h, p, s) == Shift(0, Read(h, p.(state := ChunkTerm), s[0..]));
  }

  lemma EnoughData(h: Hooks, p: Parser, s: string)
    requires p.state.Data? && p.dataSize > 0 && Read(h, p, s).verdict.Finished?
    ensures p.dataSize < SIZE_UNKNOWN && p.dataSize <= |s|
  {
    hide ShortLines, BodyEvents;
    if p.dataSize == SIZE_UNKNOWN || p.dataSize > |s| {
      ReadBody(h, p, s, |s|);
      assert s[..|s|] == s && s[|s|..] == "";
      StuckWithoutData(h, TakeBody(p, s), "");
    }
  }

  /** What the parser accepts as a chunk-coded body is well formed. */
  lemma {:induction false} ChunkedSound(h: Hooks, p: Parser, s: string) returns (c: Content)
    requires p.state.ChunkSize? && p.chunked && Read(h, p, s).verdict == Finished(NoError)
    ensures WellFormedChunks(c) && ContentText(c) <= s
    decreases |s|
  {
    hide TrimRight, Read, AllSpace, StrToUL, BodyEvents, SizeText, BlankText, WellFormedTrailers, ChunkText, TrailerText, ContentText;
    var line, rest := FirstLine(h, p, s);
    var size, pad := SizeSound(h, p, line);
    var n := StrToUL(size, 16).0;
    if n == 0 {
      var trailers, end := TrailersSound(h, p.(state := Trailers, dataSize := 0), rest);
      c := Chunked([], size, pad, trailers, end);
      LastChunkText(c, line);
    } else {
      var data, end, more := DataSound(h, p.(state := Data, dataSize := n), rest);
      var next := ChunkedSound(h, p.(dataSize := 0, log := p.log + BodyEvents(data)), more);
      var first := Chunk(size, pad, data, end);
      c := next.(chunks := [first] + next.chunks);
      FirstChunk(first, next);
      ChunkTextIs(first, line, more);
      assert s == line + "\n" + (data + (end + "\n" + more));
    }
  }

  lemma LastChunkText(c: Content, line: string)
    requires c.Chunked? && c.chunks == [] && line == c.size + c.pad
    ensures ContentText(c) == line + "\n" + TrailerText(c.trailers, c.end)
  {
    hide TrailerText;
    assert ChunksText([]) == "";
  }

  lemma ChunkTextIs(c: Chunk, line: string, more: string)
    requires line == c.size + c.pad
    ensures line + "\n" + (c.data + (c.end + "\n" + more)) == ChunkText(c) + more
  {
  }

  lemma FirstChunk(first: Chunk, next: Content)
    requires next.Chunked? && WellFormedChunk(first) && WellFormedChunks(next)
    ensures var c := next.(chunks := [first] + next.chunks);
            WellFormedChunks(c) && ContentText(c) == ChunkText(first) + ContentText(next)
  {
    hide WellFormedChunk, SizeText, WellFormedTrailers, ChunkText, TrailerText;
    var chunks := [first] + next.chunks;
    assert chunks[1..] == next.chunks;
  }

  // --- headers ------------------------------------------------------------------------------------

  /** What a header does: it is reported, and the two that describe the body are obeyed. */
  function AfterField(p: Parser, f: Field): Parser {
    p.(log := p.log + [Header(f.name, f.value)],
       dataSize := if SameIgnoringCase(f.name, "Content-Length") then StrToUL(f.value, 10).0 % 0x1_0000_0000 else p.dataSize,
       chunked := if SameIgnoringCase(f.name, "Transfer-Encoding") then SameIgnoringCase(f.value, "chunked") else p.chunked)
  }

  function AfterFields(p: Parser, fields: seq<Field>): (q: Parser)
    ensures q.state == p.state
    decreases |fields|
  {
    if fields == [] then p else AfterFields(AfterField(p, fields[0]), fields[1..])
  }

  function FieldsText(fields: seq<Field>): string {
    if fields == [] then "" else FieldLine(fields[0]) + "\n" + FieldsText(fields[1..])
  }

  lemma {:induction false} LeadingSpacesIs(blanks: string, value: string)
    requires AllSpace(blanks) && (value == "" || !IsSpace(value[0]))
    ensures LeadingSpaces(blanks + value) == |blanks|
    decreases |blanks|
  {
    if blanks == "" {
      assert blanks + value == value;
    } else {
      assert AllSpace(blanks[1..]);
      LeadingSpacesIs(blanks[1..], value);
      assert (blanks + value)[1..] == blanks[1..] + value;
    }
  }

  /** The parts the parser finds in a header line that was put together from a field. */
  lemma {:induction false} FieldParts(f: Field)
    requires WellFormedField(f)
    ensures var line := TrimRight(FieldLine(f));
            var n := |f.name|;
            && n < |line| && IndexOf(line, ':') == n && line[..n] == f.name
            && line[n + 1..][LeadingSpaces(line[n + 1..])..] == f.value
  {
    hide StrToUL, SameIgnoringCase, TrimRight, LeadingSpaces, IndexOf;
    var head := f.name + ":";
    if f.value == "" {
      TrimRightOf(head, f.blanks + f.pad);
      assert FieldLine(f) == head + (f.blanks + f.pad);
      IndexOfIs(head, ':', |f.name|);
      assert head[|f.name| + 1..] == "";
    } else {
      var line := head + f.blanks + f.value;
      TrimRightOf(line, f.pad);
      IndexOfIs(line, ':', |f.name|);
      assert line[|f.name| + 1..] == f.blanks + f.value;
      LeadingSpacesIs(f.blanks, f.value);
    }
  }

  lemma DifferentHeaders(name: string)
    ensures !(SameIgnoringCase(name, "Content-Length") && SameIgnoringCase(name, "Transfer-Encoding"))
  {
  }

  lemma DifferentEncodings(value: string)
    ensures !(SameIgnoringCase(value, "chunked") && SameIgnoringCase(value, "identity"))
  {
  }

  lemma FieldHandled(h: Hooks, p: Parser, f: Field)
    requires p.state.Headers? && WellFormedField(f)
    ensures HandleLine(h, p, TrimRight(FieldLine(f))) == (AfterField(p, f), Continue)
  {
    hide StrToUL, SameIgnoringCase, TrimRight, LeadingSpaces, IndexOf, FieldLine;
    FieldParts(f);
    DifferentHeaders(f.name);
    DifferentEncodings(f.value);
  }

  predicate BriefFields(fields: seq<Field>) {
    forall i | 0 <= i < |fields| :: Brief(FieldLine(fields[i]))
  }

  lemma {:induction false} TakesFields(h: Hooks, p: Parser, fields: seq<Field>, briefly: bool)
    requires p.state.Headers? && forall i | 0 <= i < |fields| :: WellFormedField(fields[i])
    requires briefly ==> BriefFields(fields)
    ensures Takes(h, p, FieldsText(fields), AfterFields(p, fields), briefly)
    decreases |fields|
  {
    hide Takes, AfterField, FieldLine, TrimRight, WellFormedField, Brief;
    if fields == [] {
      TakesNothing(h, p, briefly);
    } else {
      var f, more := fields[0], fields[1..];
      TakesField(h, p, f, briefly);
      var q := AfterField(p, f);
      AfterFieldState(p, f);
      TakesFields(h, q, more, briefly);
      TakesThen(h, p, FieldLine(f) + "\n", q, FieldsText(more), AfterFields(q, more), briefly);
    }
  }

  lemma AfterFieldState(p: Parser, f: Field)
    ensures AfterField(p, f).state == p.state
  {
  }

  lemma TakesField(h: Hooks, p: Parser, f: Field, briefly: bool)
    requires p.state.Headers? && WellFormedField(f) && (briefly ==> Brief(FieldLine(f)))
    ensures Takes(h, p, FieldLine(f) + "\n", AfterField(p, f), briefly)
  {
    hide Takes, Stops, AfterField, TrimRight, HandleLine, FieldLine;
    FieldHandled(h, p, f);
    FieldIsLine(f);
    TakesLine(h, p, FieldLine(f), briefly);
  }

  lemma FieldIsLine(f: Field)
    requires WellFormedField(f)
    ensures '\n' !in FieldLine(f)
  {
    hide FieldLine;
  }

  /** What the name and value of a header must be for the parser to go on. */
  predicate GoodParts(name: string, value: string) {
    && '\0' !in name
    && (SameIgnoringCase(name, "Content-Length") ==> StrToUL(value, 10).1 > 0)
    && (SameIgnoringCase(name, "Transfer-Encoding") ==>
          SameIgnoringCase(value, "chunked") || SameIgnoringCase(value, "identity"))
  }

  lemma {:induction false} HeaderFacts(p: Parser, t: string)
    requires HeaderLine(p, t).1 == Continue
    ensures var n := IndexOf(t, ':');
            n < |t| && GoodParts(t[..n], t[n + 1..][LeadingSpaces(t[n + 1..])..])
  {
    hide StrToUL, SameIgnoringCase, LeadingSpaces, IndexOf;
    var n := IndexOf(t, ':');
    DifferentHeaders(t[..n]);
  }

  /** A header line the parser goes on from is a well-formed field. */
  lemma {:induction false} FieldSound(p: Parser, line: string) returns (f: Field)
    requires '\n' !in line && TrimRight(line) != "" && HeaderLine(p, TrimRight(line)).1 == Continue
    ensures WellFormedField(f) && FieldLine(f) == line
  {
    hide HeaderLine, GoodParts, TrimRight, LeadingSpaces, IndexOf, AllSpace, Tight, WellFormedField, FieldLine;
    TrimRightSplits(line);
    var t := TrimRight(line);
    HeaderFacts(p, t);
    var name, blanks, value := TakeApart(t);
    f := Field(name, blanks, value, line[|t|..]);
    LineOfField(f, t);
    PrefixAndRest(t, line);
    FieldIsGood(f, line);
  }

  lemma PrefixAndRest(a: string, s: string)
    requires a <= s
    ensures a + s[|a|..] == s
  {
  }

  lemma FieldIsGood(f: Field, line: string)
    requires FieldLine(f) == line && '\n' !in line && ':' !in f.name && GoodParts(f.name, f.value)
    requires AllSpace(f.blanks) && AllSpace(f.pad) && (f.value == "" || Tight(f.value))
    ensures WellFormedField(f)
  {
    hide SameIgnoringCase, StrToUL, AllSpace, Tight, FieldLine;
  }

  /** A line with a colon, cut where the parser cuts it. */
  lemma {:induction false} TakeApart(t: string) returns (name: string, blanks: string, value: string)
    requires t != "" && !IsSpace(t[|t| - 1]) && IndexOf(t, ':') < |t|
    ensures t == name + ":" + blanks + value
    ensures ':' !in name && AllSpace(blanks) && (value == "" || Tight(value))
    ensures var n := IndexOf(t, ':');
            name == t[..n] && value == t[n + 1..][LeadingSpaces(t[n + 1..])..]
  {
    hide IndexOf, LeadingSpaces, AllSpace, Tight;
    var n := IndexOf(t, ':');
    CutAtColon(t, n);
    var rest := t[n + 1..];
    CutSpaces(rest);
    var k := LeadingSpaces(rest);
    name, blanks, value := t[..n], rest[..k], rest[k..];
    PutTogether(name, blanks, value, rest);
  }

  lemma CutAtColon(t: string, n: nat)
    requires n < |t| && t[n] == ':' && !IsSpace(t[|t| - 1]) && forall i | 0 <= i < n :: t[i] != ':'
    ensures t == t[..n] + ":" + t[n + 1..] && ':' !in t[..n]
    ensures t[n + 1..] == "" || !IsSpace(t[n + 1..][|t[n + 1..]| - 1])
  {
  }

  lemma {:induction false} CutSpaces(rest: string)
    requires rest == "" || !IsSpace(rest[|rest| - 1])
    ensures var k := LeadingSpaces(rest);
            AllSpace(rest[..k]) && (rest[k..] == "" || Tight(rest[k..])) && rest[..k] + rest[k..] == rest
  {
    hide LeadingSpaces;
    var k := LeadingSpaces(rest);
    if k < |rest| {
      assert rest[k..][0] == rest[k] && rest[k..][|rest[k..]| - 1] == rest[|rest| - 1];
    }
  }

  lemma PutTogether(name: string, blanks: string, value: string, rest: string)
    requires blanks + value == rest
    ensures name + ":" + blanks + value == name + ":" + rest
  {
  }

  lemma LineOfField(f: Field, t: string)
    requires t == f.name + ":" + f.blanks + f.value
    ensures FieldLine(f) == t + f.pad
  {
  }

  // --- messages -----------------------------------------------------------------------------------

  /** Leader, headers and blank line. */
  datatype Head = Head(leader: string, fields: seq<Field>, blank: string)

  datatype Message = Message(head: Head, content: Content)

  function HeadText(head: Head): string {
    head.leader + "\n" + (FieldsText(head.fields) + (head.blank + "\n"))
  }

  function Wire(m: Message): string {
    HeadText(m.head) + ContentText(m.content)
  }

  function AfterLeader(leader: string): Parser {
    INITIAL.(state := Headers, log := INITIAL.log + [LeaderLine(TrimRight(leader))])
  }

  function AfterBlank(h: Hooks, q: Parser): Parser {
    q.(state := if q.chunked then ChunkSize else Data,
       dataSize := h.headerComplete(q.log, q.chunked, q.dataSize).1,
       log := q.log + [HeaderComplete(q.chunked, q.dataSize)])
  }

  /** The parser at the start of the body. */
  function AfterHead(h: Hooks, head: Head): (p: Parser)
    ensures p.state == if p.chunked then ChunkSize else Data
  {
    AfterBlank(h, AfterFields(AfterLeader(head.leader), head.fields))
  }

  /** A head the user accepts. */
  ghost predicate WellFormedHead(h: Hooks, head: Head) {
    var q := AfterFields(AfterLeader(head.leader), head.fields);
    && '\n' !in head.leader && h.leader(TrimRight(head.leader)) == NoError
    && (forall i | 0 <= i < |head.fields| :: WellFormedField(head.fields[i]))
    && BlankText(head.blank) && h.headerComplete(q.log, q.chunked, q.dataSize).0 == NoError
  }

  /** The body is as the parser was told: chunks, or as many bytes as were announced. */
  ghost predicate WellFormedContent(p: Parser, c: Content) {
    if p.chunked then WellFormedChunks(c) else c.Sized? && |c.data| == p.dataSize < SIZE_UNKNOWN
  }

  /** A message whose leader and headers the user accepts, with a body of the kind its headers announce. */
  ghost predicate WellFormed(h: Hooks, m: Message) {
    WellFormedHead(h, m.head) && WellFormedContent(AfterHead(h, m.head), m.content)
  }

  function AfterContent(p: Parser, c: Content): Parser {
    p.(state := if p.chunked then Trailers else Data, dataSize := 0, log := p.log + BodyEvents(ContentData(c)))
  }

  /** What the parser has reported once it took the message. */
  function Outcome(h: Hooks, m: Message): Parser {
    AfterContent(AfterHead(h, m.head), m.content)
  }

  lemma ContentEnds(h: Hooks, p: Parser, c: Content, briefly: bool)
    requires p.state == (if p.chunked then ChunkSize else Data) && WellFormedContent(p, c) && (briefly ==> BriefContent(c))
    ensures Stops(h, p, ContentText(c), AfterContent(p, c), briefly)
  {
    hide Stops, Takes, WellFormedChunks, BriefContent, ChunksText, ChunksData, BodyEvents, TrailerText;
    if p.chunked {
      ChunkedEnds(h, p, c, briefly);
    } else {
      TakesData(h, p, c.data, briefly);
      var done := TakeBody(p, c.data);
      SizedDone(h, done, briefly);
      StopsThen(h, p, c.data, done, "", done, briefly);
      assert c.data + "" == c.data;
    }
  }

  lemma SizedDone(h: Hooks, p: Parser, briefly: bool)
    requires p.state.Data? && !p.chunked && p.dataSize == 0
    ensures Stops(h, p, "", p, briefly)
  {
    hide Stops, Takes;
    TakesStep(h, p, "", briefly);
  }

  lemma TakesBlank(h: Hooks, p: Parser, line: string, briefly: bool)
    requires p.state.Headers? && BlankText(line) && h.headerComplete(p.log, p.chunked, p.dataSize).0 == NoError
    requires briefly ==> Brief(line)
    ensures Takes(h, p, line + "\n", AfterBlank(h, p), briefly)
  {
    hide Takes, Stops, AllSpace, TrimRight, HeaderLine;
    BlankTrims(line);
    TakesLine(h, p, line, briefly);
  }

  lemma TakesLeader(h: Hooks, leader: string, briefly: bool)
    requires '\n' !in leader && h.leader(TrimRight(leader)) == NoError
    requires briefly ==> Brief(leader)
    ensures Takes(h, INITIAL, leader + "\n", AfterLeader(leader), briefly)
  {
    hide Takes, Stops, TrimRight;
    TakesLine(h, INITIAL, leader, briefly);
  }

  predicate BriefHead(head: Head) {
    Brief(head.leader) && BriefFields(head.fields) && Brief(head.blank)
  }

  /** A well-formed head brings the parser to the body. */
  lemma HeadTaken(h: Hooks, head: Head, briefly: bool)
    requires WellFormedHead(h, head) && (briefly ==> BriefHead(head))
    ensures Takes(h, INITIAL, HeadText(head), AfterHead(h, head), briefly)
  {
    hide Takes, AfterFields, FieldsText, TrimRight, WellFormedField, BriefFields, Brief;
    var p := AfterLeader(head.leader);
    var q := AfterFields(p, head.fields);
    var fields, blank := FieldsText(head.fields), head.blank + "\n";
    TakesLeader(h, head.leader, briefly);
    TakesFields(h, p, head.fields, briefly);
    TakesBlank(h, q, head.blank, briefly);
    TakesThen(h, p, fields, q, blank, AfterBlank(h, q), briefly);
    TakesThen(h, INITIAL, head.leader + "\n", p, fields + blank, AfterBlank(h, q), briefly);
  }

  /** A well-formed message is taken to its last byte, whatever follows, and reported as it says. */
  lemma MessageAccepted(h: Hooks, m: Message, briefly: bool)
    requires WellFormed(h, m) && (briefly ==> BriefHead(m.head) && BriefContent(m.content))
    ensures Stops(h, INITIAL, Wire(m), Outcome(h, m), briefly)
  {
    hide Stops, Takes, HeadText, ContentText, WellFormedHead, BriefHead, BriefContent, WellFormedContent, AfterContent;
    HeadTaken(h, m.head, briefly);
    ContentEnds(h, AfterHead(h, m.head), m.content, briefly);
    StopsThen(h, INITIAL, HeadText(m.head), AfterHead(h, m.head), ContentText(m.content), Outcome(h, m), briefly);
  }

  /** Header lines and the blank line, as far as a finished reading went through them. */
  lemma {:induction false} FieldsSound(h: Hooks, p: Parser, s: string) returns (fields: seq<Field>, blank: string, rest: string)
    requires p.state.Headers? && Read(h, p, s).verdict == Finished(NoError)
    ensures forall i | 0 <= i < |fields| :: WellFormedField(fields[i])
    ensures BlankText(blank) && s == FieldsText(fields) + (blank + "\n" + rest)
    ensures var q := AfterFields(p, fields);
            && h.headerComplete(q.log, q.chunked, q.dataSize).0 == NoError
            && Read(h, AfterBlank(h, q), rest).verdict == Finished(NoError)
    decreases |s|
  {
    hide TrimRight, Read, AllSpace, HeaderLine, WellFormedField, FieldLine, AfterField;
    var line, more := FirstLine(h, p, s);
    BlankTrims(line);
    if TrimRight(line) == "" {
      fields, blank, rest := [], line, more;
      BlankHandled(h, p);
      assert s == "" + (blank + "\n" + rest);
    } else {
      HeaderNeverEnds(p, TrimRight(line));
      var f := FieldSound(p, line);
      FieldHandled(h, p, f);
      AfterFieldState(p, f);
      var others;
      others, blank, rest := FieldsSound(h, AfterField(p, f), more);
      fields := [f] + others;
      assert fields[1..] == others;
      assert line + "\n" + (FieldsText(others) + (blank + "\n" + rest)) == FieldsText(fields) + (blank + "\n" + rest);
    }
  }

  lemma BlankHandled(h: Hooks, p: Parser)
    requires p.state.Headers?
    ensures var (error, _) := h.headerComplete(p.log, p.chunked, p.dataSize);
            HandleLine(h, p, "") == (AfterBlank(h, p), if error == NoError then Continue else Finished(error))
  {
  }

  /** A header line either goes on or fails. */
  lemma HeaderNeverEnds(p: Parser, line: string)
    ensures HeaderLine(p, line).1 != Finished(NoError)
  {
    hide StrToUL, SameIgnoringCase, LeadingSpaces, IndexOf;
  }

  lemma ContentSound(h: Hooks, p: Parser, s: string) returns (c: Content)
    requires p.state == (if p.chunked then ChunkSize else Data) && Read(h, p, s).verdict == Finished(NoError)
    ensures WellFormedContent(p, c) && ContentText(c) <= s
  {
    if p.chunked {
      hide Read, WellFormedChunks, ContentText;
      c := ChunkedSound(h, p, s);
    } else {
      if p.dataSize > 0 {
        EnoughData(h, p, s);
      }
      c := Sized(s[..p.dataSize]);
    }
  }

  /** Whatever the parser accepts without error starts with a well-formed message. */
  lemma MessageSound(h: Hooks, s: string) returns (m: Message)
    requires Read(h, INITIAL, s).verdict == Finished(NoError)
    ensures WellFormed(h, m) && Wire(m) <= s
  {
    hide TrimRight, Read, ContentText, FieldsText, AfterFields, WellFormedField, WellFormedContent, BlankText;
    var leader, afterLeader := FirstLine(h, INITIAL, s);
    var p := AfterLeader(leader);
    var fields, blank, rest := FieldsSound(h, p, afterLeader);
    var head := Head(leader, fields, blank);
    var content := ContentSound(h, AfterHead(h, head), rest);
    m := Message(head, content);
    var more := rest[|ContentText(content)|..];
    assert rest == ContentText(content) + more;
    assert s == Wire(m) + more;
  }

  /**
   * The parser completes without error exactly on the streams that start with a well-formed message,
   * and it then has consumed and reported exactly that message.
   */
  lemma AcceptsExactly(h: Hooks, s: string)
    ensures Read(h, INITIAL, s).verdict == Finished(NoError) <==> exists m :: WellFormed(h, m) && Wire(m) <= s
    ensures forall m | WellFormed(h, m) && Wire(m) <= s ::
              Read(h, INITIAL, s) == Reading(Outcome(h, m), |Wire(m)|, Finished(NoError))
  {
    hide Read, WellFormed, Wire, Outcome, ShortLines;
    if Read(h, INITIAL, s).verdict == Finished(NoError) {
      var m := MessageSound(h, s);
    }
    forall m | WellFormed(h, m) && Wire(m) <= s
      ensures Read(h, INITIAL, s) == Reading(Outcome(h, m), |Wire(m)|, Finished(NoError))
    {
      MessageAccepted(h, m, false);
      assert s == Wire(m) + s[|Wire(m)|..];
    }
  }

  /** The user objects to nothing. */
  ghost predicate Obliging(h: Hooks) {
    && (forall line :: h.leader(line) == NoError)
    && (forall log, chunked, size :: h.headerComplete(log, chunked, size).0 == NoError)
  }

  lemma LineErrors(h: Hooks, p: Parser, line: string)
    requires Obliging(h) && !p.state.Data? && !p.state.Complete?
    ensures var verdict := HandleLine(h, p, line).1;
            verdict == Continue || verdict == Finished(Protocol) || (p.state.Trailers? && line == "" && verdict == Finished(NoError))
  {
    hide StrToUL, SameIgnoringCase, LeadingSpaces, IndexOf;
  }

  lemma {:induction false} OnlyProtocolErrors(h: Hooks, p: Parser, s: string)
    requires Obliging(h)
    ensures Read(h, p, s).verdict in {Continue, Finished(NoError), Finished(Protocol)}
    decreases |s|, p.state.Data?
  {
    hide Read, HandleLine, Obliging;
    ReadStep(h, p, s);
    if !p.state.Data? && !p.state.Complete? {
      LineErrors(h, p, TrimRight(s[..IndexOf(s, '\n')]));
    }
    var step := NextStep(h, p, s);
    if step.Advance? {
      OnlyProtocolErrors(h, step.parser, s[step.n..]);
    }
  }

  /**
   * With a user who objects to nothing, a stream the parser is done with is a protocol error exactly when
   * it does not start with a well-formed message.
   */
  lemma RejectsExactly(h: Hooks, s: string)
    requires Obliging(h) && Read(h, INITIAL, s).verdict.Finished?
    ensures Read(h, INITIAL, s).verdict == Finished(Protocol) <==> !exists m :: WellFormed(h, m) && Wire(m) <= s
  {
    hide Read, WellFormed, Wire, Outcome;
    AcceptsExactly(h, s);
    OnlyProtocolErrors(h, INITIAL, s);
  }

  /** A stream starts with at most one message: any two readings of it agree on its extent and its report. */
  lemma Unambiguous(h: Hooks, m: Message, n: Message, s: string)
    requires WellFormed(h, m) && WellFormed(h, n) && Wire(m) <= s && Wire(n) <= s
    ensures Wire(m) == Wire(n) && Outcome(h, m) == Outcome(h, n)
  {
    hide WellFormed, Wire, Outcome, Read;
    AcceptsExactly(h, s);
  }

  // --- the receiver ---------------------------------------------------------------------------------

  lemma {:induction false} FieldsHaveNoBody(p: Parser, fields: seq<Field>)
    ensures BodyOf(AfterFields(p, fields).log) == BodyOf(p.log)
    decreases |fields|
  {
    hide SameIgnoringCase, StrToUL;
    if fields != [] {
      var q := AfterField(p, fields[0]);
      FieldsHaveNoBody(q, fields[1..]);
      assert q.log[..|q.log| - 1] == p.log;
    }
  }

  lemma HeadHasNoBody(h: Hooks, head: Head)
    ensures BodyOf(AfterHead(h, head).log) == ""
  {
    hide AfterFields, TrimRight;
    var p := AfterLeader(head.leader);
    var q := AfterFields(p, head.fields);
    var r := AfterBlank(h, q);
    assert p.log[..0] == [] && r.log[..|r.log| - 1] == q.log;
    FieldsHaveNoBody(p, head.fields);
  }

  lemma OutcomeBody(h: Hooks, m: Message)
    ensures BodyOf(Outcome(h, m).log) == ContentData(m.content)
  {
    hide ContentData, BodyEvents, BodyOf, AfterHead;
    HeadHasNoBody(h, m.head);
    BodyOfAppend(AfterHead(h, m.head).log, BodyEvents(ContentData(m.content)));
    BodyOfBytes(ContentData(m.content));
  }

  /**
   * A receiver whose parser completed without error was sent a well-formed message: it consumed
   * exactly that message, and its document is exactly the message's body.
   */
  lemma ReceivedMessage(r: Receiver) returns (m: Message)
    requires Read(r.hooks, INITIAL, r.Received()) == Reading(r.Parser(), r.consumed, Finished(NoError))
    requires r.DocumentAgrees()
    ensures WellFormed(r.hooks, m) && Wire(m) <= r.Received() && r.consumed == |Wire(m)|
    ensures r.Parser() == Outcome(r.hooks, m)
    ensures !r.discard ==> r.document.taken == ContentData(m.content)
  {
    hide Read, WellFormed, Wire, Outcome, BodyOf, ContentData;
    m := MessageSound(r.hooks, r.Received());
    AcceptsExactly(r.hooks, r.Received());
    OutcomeBody(r.hooks, m);
  }

  /**
   * The next message on the same connection: recv starts with an empty buffer, so what it gets to see
   * is the rest of the stream without the bytes the first receiver still had buffered. Nothing of
   * the next message is lost exactly when that buffer was empty.
   */
  lemma WhatFollows(r: Receiver, m: Message, rest: string)
    requires WellFormed(r.hooks, m) && r.Buffered() && r.Received() <= Wire(m) + rest
    requires Read(r.hooks, INITIAL, r.Received()).verdict.Finished?
    requires Read(r.hooks, INITIAL, r.Received()).consumed == r.consumed
    ensures r.consumed == |Wire(m)| && r.len <= |rest|
    ensures (Wire(m) + rest)[|r.Received()|..] == rest[r.len..]
    ensures (Wire(m) + rest)[|r.Received()|..] == rest <==> r.len == 0
  {
    hide Read, WellFormed, Wire, Outcome, ShortLines;
    var all := Wire(m) + rest;
    var missing := all[|r.Received()|..];
    assert r.Received() + missing == all;
    ReadAppend(r.hooks, INITIAL, r.Received(), missing);
    AcceptsExactly(r.hooks, all);
    assert Wire(m) <= all;
    SuffixOf(Wire(m), rest, |r.Received()|);
  }

  lemma SuffixOf(a: string, b: string, k: nat)
    requires |a| <= k <= |a| + |b|
    ensures (a + b)[k..] == b[k - |a|..]
  {
  }
}
