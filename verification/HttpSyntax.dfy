/**
 * What the incremental HTTP parser computes, one element of the stream at a time:
 * a reference reading of a byte stream that knows nothing about buffers or fragments.
 */
module HttpSyntax {
  import opened Text
  import opened HttpCommon

  /** The engine's one buffer, used in turn for sending and for receiving. */
  const BUFFER_SIZE: nat := 32 * 1024

  /** data_size_ when no length is known. */
  const SIZE_UNKNOWN: Size := ULONG_MAX

  type Size = n: nat | n <= ULONG_MAX

  datatype State = Leader | Headers | ChunkSize | ChunkTerm | Trailers | Data | Complete

  /** Everything the parser reports; document bytes one by one, so that how they were grouped does not show. */
  datatype Event =
    | LeaderLine(line: string)
    | Header(name: string, value: string)
    | HeaderComplete(chunked: bool, size: Size)
    | Body(byte: char)

  datatype Parser = Parser(state: State, chunked: bool, dataSize: Size, log: seq<Event>)

  /**
   * The parts of the engine that live with its user: leader parsing, and the header-complete
   * callback, which sees what was received so far and may fail or overwrite the data size.
   */
  datatype Hooks = Hooks(
    leader: string -> HttpError,
    headerComplete: (seq<Event>, bool, Size) -> (HttpError, Size))

  const INITIAL := Parser(Leader, false, SIZE_UNKNOWN, [])

  datatype Verdict = Continue | Finished(error: HttpError)

  /** One complete header line: content length and transfer encoding steer the body, the rest is reported. */
  function HeaderLine(p: Parser, line: string): (r: (Parser, Verdict))
    ensures r.0.state == p.state
    ensures p.log <= r.0.log
  {
    var colon := IndexOf(line, ':');
    if colon == |line| || '\0' in line[..colon] then (p, Finished(Protocol))
    else
      var name := line[..colon];
      var rest := line[colon + 1..];
      var value := rest[LeadingSpaces(rest)..];
      var report := p.(log := p.log + [Header(name, value)]);
      if SameIgnoringCase(name, "Content-Length") then
        var (v, used) := StrToUL(value, 10);
        if used == 0 then (p, Finished(Protocol))
        else (report.(dataSize := v % 0x1_0000_0000), Continue)
      else if SameIgnoringCase(name, "Transfer-Encoding") then
        if SameIgnoringCase(value, "chunked") then (report.(chunked := true), Continue)
        else if SameIgnoringCase(value, "identity") then (report.(chunked := false), Continue)
        else (p, Finished(Protocol))
      else (report, Continue)
  }

  /** ProcessLine: a line without its terminator and without white space at its end. */
  function HandleLine(h: Hooks, p: Parser, line: string): (r: (Parser, Verdict))
    requires !p.state.Data? && !p.state.Complete?
    ensures !r.0.state.Complete?
    ensures p.log <= r.0.log
  {
    match p.state
    case Leader =>
      var error := h.leader(line);
      (p.(state := Headers, log := p.log + [LeaderLine(line)]), if error == NoError then Continue else Finished(error))
    case Headers =>
      if line != "" then HeaderLine(p, line)
      else
        var (error, size) := h.headerComplete(p.log, p.chunked, p.dataSize);
        (p.(state := if p.chunked then ChunkSize else Data,
            dataSize := size,
            log := p.log + [HeaderComplete(p.chunked, p.dataSize)]),
         if error == NoError then Continue else Finished(error))
    case ChunkSize =>
      if line == "" then (p, Finished(Protocol))
      else
        var (size, used) := StrToUL(line, 16);
        if used != |line| then (p.(dataSize := size), Finished(Protocol))
        else (p.(dataSize := size, state := if size == 0 then Trailers else Data), Continue)
    case ChunkTerm =>
      if line != "" then (p, Finished(Protocol))
      else (p.(state := if p.chunked then ChunkSize else Data), Continue)
    case Trailers =>
      (p, if line == "" then Finished(NoError) else Continue)
  }

  function BodyEvents(bytes: string): (es: seq<Event>)
    ensures |es| == |bytes|
    ensures forall i | 0 <= i < |bytes| :: es[i] == Body(bytes[i])
  {
    seq(|bytes|, i requires 0 <= i < |bytes| => Body(bytes[i]))
  }

  /** The parser after it handed over `bytes` of the document. */
  function TakeBody(p: Parser, bytes: string): Parser
    requires p.dataSize == SIZE_UNKNOWN || |bytes| <= p.dataSize
  {
    p.(log := p.log + BodyEvents(bytes),
       dataSize := if p.dataSize == SIZE_UNKNOWN then SIZE_UNKNOWN else p.dataSize - |bytes|)
  }

  /** One element of the stream: nothing complete is there yet, the message ends, or n bytes are read. */
  datatype Step = Stuck | Halt(parser: Parser, n: nat, error: HttpError) | Advance(parser: Parser, n: nat)

  function NextStep(h: Hooks, p: Parser, s: string): (r: Step)
    ensures !r.Stuck? ==> r.n <= |s|
    ensures r.Advance? && r.n == 0 ==> p.state.Data? && !r.parser.state.Data?
  {
    if p.state.Complete? then Halt(p, 0, NoError)
    else if !p.state.Data? then
      var n := IndexOf(s, '\n');
      if n == |s| then Stuck
      else
        var (q, verdict) := HandleLine(h, p, TrimRight(s[..n]));
        if verdict.Continue? then Advance(q, n + 1) else Halt(q, n + 1, verdict.error)
    else if p.dataSize == 0 then
      if p.chunked then Advance(p.(state := ChunkTerm), 0) else Halt(p, 0, NoError)
    else if s == "" then Stuck
    else Advance(TakeBody(p, s[..1]), 1)
  }

  datatype Reading = Reading(parser: Parser, consumed: nat, verdict: Verdict)

  function Shift(k: nat, r: Reading): Reading {
    r.(consumed := r.consumed + k)
  }

  /** Reads as much of `s` as forms complete elements, document bytes one at a time. */
  function Read(h: Hooks, p: Parser, s: string): (r: Reading)
    ensures r.consumed <= |s|
    decreases |s|, p.state.Data?
  {
    match NextStep(h, p, s)
    case Stuck => Reading(p, 0, Continue)
    case Halt(q, n, error) => Reading(q, n, Finished(error))
    case Advance(q, n) => Shift(n, Read(h, q, s[n..]))
  }

  /** No line on the way, with its line end, is longer than the receive buffer. */
  predicate ShortLines(h: Hooks, p: Parser, s: string)
    decreases |s|, p.state.Data?
  {
    match NextStep(h, p, s)
    case Stuck => true
    case Halt(_, n, _) => n <= BUFFER_SIZE
    case Advance(q, n) => n <= BUFFER_SIZE && ShortLines(h, q, s[n..])
  }

  predicate InHead(state: State) {
    state.Leader? || state.Headers?
  }

  /** The leader comes first, then the headers, and nothing leads back to them. */
  lemma HeadFirst(h: Hooks, p: Parser, s: string)
    ensures var step := NextStep(h, p, s);
            && (step.Advance? && p.state.Leader? ==> step.parser.state.Headers?)
            && (step.Advance? && p.state.Headers? ==> !step.parser.state.Leader?)
            && (!step.Stuck? && !InHead(p.state) ==> !InHead(step.parser.state))
            && (!step.Stuck? && InHead(step.parser.state) ==> InHead(p.state))
  {
    hide StrToUL, IndexOf, TrimRight, SameIgnoringCase, LeadingSpaces;
  }

  lemma TakeBodyTwice(p: Parser, a: string, b: string)
    requires p.dataSize == SIZE_UNKNOWN || |a| + |b| <= p.dataSize
    ensures TakeBody(TakeBody(p, a), b) == TakeBody(p, a + b)
  {
    assert BodyEvents(a) + BodyEvents(b) == BodyEvents(a + b);
  }

  /** One document byte. */
  lemma ReadByte(h: Hooks, p: Parser, s: string)
    requires p.state.Data? && s != "" && p.dataSize > 0
    ensures Read(h, p, s) == Shift(1, Read(h, TakeBody(p, s[..1]), s[1..]))
    ensures ShortLines(h, p, s) == ShortLines(h, TakeBody(p, s[..1]), s[1..])
  {
    assert NextStep(h, p, s) == Advance(TakeBody(p, s[..1]), 1);
    hide NextStep, TakeBody;
  }

  /** Handing over k document bytes at once is k single steps. */
  lemma {:induction false} ReadBody(h: Hooks, p: Parser, s: string, k: nat)
    requires p.state.Data? && k <= |s| && (p.dataSize == SIZE_UNKNOWN || k <= p.dataSize)
    ensures Read(h, p, s) == Shift(k, Read(h, TakeBody(p, s[..k]), s[k..]))
    ensures ShortLines(h, p, s) == ShortLines(h, TakeBody(p, s[..k]), s[k..])
    decreases k
  {
    hide NextStep, Read, ShortLines;
    if k == 0 {
      assert TakeBody(p, s[..0]) == p && s[0..] == s;
    } else {
      ReadByte(h, p, s);
      ReadBody(h, TakeBody(p, s[..1]), s[1..], k - 1);
      assert s[1..][..k - 1] == s[1..k] && s[1..][k - 1..] == s[k..] && s[..1] + s[1..k] == s[..k];
      TakeBodyTwice(p, s[..1], s[1..k]);
    }
  }

  /** More input does not change an element that is already complete. */
  lemma NextStepAppend(h: Hooks, p: Parser, a: string, b: string)
    ensures !NextStep(h, p, a).Stuck? ==> NextStep(h, p, a + b) == NextStep(h, p, a)
  {
    hide HandleLine, IndexOf, TrimRight;
    if p.state.Complete? {
    } else if !p.state.Data? {
      var n := IndexOf(a, '\n');
      if n < |a| {
        IndexOfIs(a + b, '\n', n);
        assert (a + b)[..n] == a[..n];
      }
    } else if a != "" {
      assert (a + b)[..1] == a[..1];
    }
  }

  /** One step, and then the rest. */
  lemma ReadStep(h: Hooks, p: Parser, s: string)
    ensures var step := NextStep(h, p, s);
            && (step.Stuck? ==> Read(h, p, s) == Reading(p, 0, Continue))
            && (step.Halt? ==> Read(h, p, s) == Reading(step.parser, step.n, Finished(step.error)))
            && (step.Advance? ==> Read(h, p, s) == Shift(step.n, Read(h, step.parser, s[step.n..])))
  {
    hide NextStep;
  }

  /** Reading `a + b` is reading `a`, then reading on from the unread tail of `a` followed by `b`. */
  lemma {:induction false} ReadAppend(h: Hooks, p: Parser, a: string, b: string)
    ensures var r := Read(h, p, a);
            Read(h, p, a + b) == if r.verdict.Continue? then Shift(r.consumed, Read(h, r.parser, a[r.consumed..] + b)) else r
    decreases |a|, p.state.Data?
  {
    hide NextStep, Read;
    NextStepAppend(h, p, a, b);
    ReadStep(h, p, a);
    match NextStep(h, p, a)
    case Stuck =>
      assert a[0..] == a;
    case Halt(_, _, _) =>
      ReadStep(h, p, a + b);
    case Advance(q, n) =>
      ReadStep(h, p, a + b);
      ReadAppend(h, q, a[n..], b);
      var r := Read(h, q, a[n..]);
      assert a[n..][r.consumed..] == a[n + r.consumed..] && (a + b)[n..] == a[n..] + b;
  }

  lemma NextStepKeepsLog(h: Hooks, p: Parser, s: string)
    ensures var r := NextStep(h, p, s); !r.Stuck? ==> p.log <= r.parser.log
  {
    hide HandleLine, IndexOf, TrimRight;
  }

  /** Nothing already reported is taken back. */
  lemma {:induction false} ReadKeepsLog(h: Hooks, p: Parser, s: string)
    ensures p.log <= Read(h, p, s).parser.log
    decreases |s|, p.state.Data?
  {
    hide NextStep;
    NextStepKeepsLog(h, p, s);
    match NextStep(h, p, s)
    case Advance(q, n) => ReadKeepsLog(h, q, s[n..]);
    case _ =>
  }

  /** When reading stops for lack of input, nothing more can be read from the tail. */
  lemma {:induction false} ReadIsExhaustive(h: Hooks, p: Parser, a: string)
    ensures var r := Read(h, p, a);
            r.verdict.Continue? ==> NextStep(h, r.parser, a[r.consumed..]).Stuck?
    decreases |a|, p.state.Data?
  {
    hide NextStep;
    match NextStep(h, p, a)
    case Stuck =>
      assert a[0..] == a;
    case Halt(_, _, _) =>
    case Advance(q, n) =>
      ReadIsExhaustive(h, q, a[n..]);
      var r := Read(h, q, a[n..]);
      assert a[n..][r.consumed..] == a[n + r.consumed..];
  }

  /** A parser fed piece by piece, the unread tail kept in front of the next piece, until the message ends. */
  function Feed(h: Hooks, p: Parser, tail: string, pieces: seq<string>): Reading
    decreases |pieces|
  {
    var r := Read(h, p, tail);
    if pieces == [] || r.verdict.Finished? then r
    else Shift(r.consumed, Feed(h, r.parser, tail[r.consumed..] + pieces[0], pieces[1..]))
  }

  /** However a stream is cut, what is reported, consumed and concluded is what one call on the whole stream gives. */
  lemma {:induction false} FragmentationIndependence(h: Hooks, p: Parser, tail: string, pieces: seq<string>)
    ensures Feed(h, p, tail, pieces) == Read(h, p, tail + Concat(pieces))
    decreases |pieces|
  {
    hide Read;
    if pieces == [] {
      assert tail + "" == tail;
    } else {
      var r := Read(h, p, tail);
      ReadAppend(h, p, tail, Concat(pieces));
      if r.verdict.Continue? {
        var rest := tail[r.consumed..];
        FragmentationIndependence(h, r.parser, rest + pieces[0], pieces[1..]);
        assert rest + (pieces[0] + Concat(pieces[1..])) == (rest + pieces[0]) + Concat(pieces[1..]);
      }
    }
  }

  /**
   * Having consumed k bytes of `a`, parser `to` is as good as parser `from` facing all of `a`:
   * whatever comes next, both read the same stream to the same end.
   */
  ghost predicate Follows(h: Hooks, from: Parser, a: string, to: Parser, k: nat) {
    k <= |a| && forall t: string :: SameFuture(h, from, a + t, to, a[k..] + t, k)
  }

  /** The two parsers read these streams to the same end, and short lines stay short lines. */
  ghost predicate SameFuture(h: Hooks, p: Parser, s: string, q: Parser, t: string, k: nat) {
    && Read(h, p, s) == Shift(k, Read(h, q, t))
    && (ShortLines(h, p, s) ==> ShortLines(h, q, t))
  }

  /** Whatever comes after `a`, parser `from` ends the message inside `a`, as `to`, after k bytes. */
  ghost predicate Ends(h: Hooks, from: Parser, a: string, to: Parser, k: nat, error: HttpError) {
    forall t: string :: Read(h, from, a + t) == Reading(to, k, Finished(error))
  }

  lemma FollowsSelf(h: Hooks, p: Parser, a: string)
    ensures Follows(h, p, a, p, 0)
  {
    assert a[0..] == a;
  }

  lemma FollowsThen(h: Hooks, p: Parser, a: string, q: Parser, k: nat, r: Parser, n: nat)
    requires Follows(h, p, a, q, k)
    requires Follows(h, q, a[k..], r, n)
    ensures Follows(h, p, a, r, k + n)
  {
    hide Read, ShortLines;
    assert a[k..][n..] == a[k + n..];
    forall t: string
      ensures SameFuture(h, p, a + t, r, a[k + n..] + t, k + n)
    {
      assert SameFuture(h, p, a + t, q, a[k..] + t, k);
      assert SameFuture(h, q, a[k..] + t, r, a[k..][n..] + t, n);
    }
  }

  lemma FollowsAppend(h: Hooks, p: Parser, a: string, q: Parser, k: nat, b: string)
    requires Follows(h, p, a, q, k)
    ensures Follows(h, p, a + b, q, k)
  {
    hide SameFuture;
    forall t: string
      ensures SameFuture(h, p, a + b + t, q, (a + b)[k..] + t, k)
    {
      assert a + b + t == a + (b + t);
      assert (a + b)[k..] + t == a[k..] + (b + t);
    }
  }

  lemma FollowsStep(h: Hooks, p: Parser, a: string)
    ensures var s := NextStep(h, p, a); s.Advance? ==> Follows(h, p, a, s.parser, s.n)
    ensures var s := NextStep(h, p, a); s.Halt? ==> Ends(h, p, a, s.parser, s.n, s.error)
  {
    hide NextStep;
    forall t: string
      ensures var s := NextStep(h, p, a);
              s.Advance? ==> SameFuture(h, p, a + t, s.parser, a[s.n..] + t, s.n)
      ensures var s := NextStep(h, p, a);
              s.Halt? ==> Read(h, p, a + t) == Reading(s.parser, s.n, Finished(s.error))
    {
      NextStepAppend(h, p, a, t);
      var s := NextStep(h, p, a);
      if s.Advance? {
        assert (a + t)[s.n..] == a[s.n..] + t;
      }
    }
  }

  lemma FollowsBody(h: Hooks, p: Parser, a: string, k: nat)
    requires p.state.Data? && k <= |a| && (p.dataSize == SIZE_UNKNOWN || k <= p.dataSize)
    ensures Follows(h, p, a, TakeBody(p, a[..k]), k)
  {
    forall t: string
      ensures SameFuture(h, p, a + t, TakeBody(p, a[..k]), a[k..] + t, k)
    {
      ReadBody(h, p, a + t, k);
      assert (a + t)[..k] == a[..k] && (a + t)[k..] == a[k..] + t;
    }
  }

  lemma EndsAfter(h: Hooks, p: Parser, a: string, q: Parser, k: nat, r: Parser, n: nat, error: HttpError)
    requires Follows(h, p, a, q, k)
    requires Ends(h, q, a[k..], r, n, error)
    ensures Ends(h, p, a, r, k + n, error)
  {
    hide Read, ShortLines;
    forall t: string
      ensures Read(h, p, a + t) == Reading(r, k + n, Finished(error))
    {
      assert SameFuture(h, p, a + t, q, a[k..] + t, k);
    }
  }

  /**
   * A parser that got anywhere on `a` by whatever route, and can get no further, stands exactly
   * where a single reading of `a` stands.
   */
  lemma FollowsExhausted(h: Hooks, p: Parser, a: string, q: Parser, k: nat)
    requires Follows(h, p, a, q, k)
    requires NextStep(h, q, a[k..]).Stuck?
    ensures Read(h, p, a) == Reading(q, k, Continue)
  {
    assert a + "" == a && a[k..] + "" == a[k..];
    assert SameFuture(h, p, a + "", q, a[k..] + "", k);
    hide ShortLines;
  }
}
