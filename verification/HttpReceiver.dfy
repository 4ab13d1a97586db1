/** The receiving half of the engine: the push parser and the loop that feeds it from the network. */
module HttpReceiver {
  import opened Text
  import opened Streams
  import opened HttpCommon
  import opened HttpSyntax
  import Memory

  /** Rounds of the receive loop before it yields. */
  const MAX_READ_COUNT: nat := 20

  datatype ProcessResult = PrContinue | PrBlock | PrComplete

  /** The document bytes among what was reported. */
  function BodyOf(log: seq<Event>): string {
    if log == [] then ""
    else BodyOf(log[..|log| - 1]) + (if log[|log| - 1].Body? then [log[|log| - 1].byte] else "")
  }

  lemma {:induction false} BodyOfAppend(a: seq<Event>, b: seq<Event>)
    ensures BodyOf(a + b) == BodyOf(a) + BodyOf(b)
    decreases |b|
  {
    if b == [] {
      assert a + b == a;
    } else {
      BodyOfAppend(a, b[..|b| - 1]);
      assert (a + b)[..|a + b| - 1] == a + b[..|b| - 1];
    }
  }

  lemma {:induction false} BodyOfBytes(bytes: string)
    ensures BodyOf(BodyEvents(bytes)) == bytes
    decreases |bytes|
  {
    if bytes != "" {
      BodyOfBytes(bytes[..|bytes| - 1]);
      assert BodyEvents(bytes)[..|bytes| - 1] == BodyEvents(bytes[..|bytes| - 1]);
    }
  }

  lemma {:induction false} TrimRightIs(s: string, n: nat)
    requires n <= |s|
    requires forall i | n <= i < |s| :: IsSpace(s[i])
    requires n == 0 || !IsSpace(s[n - 1])
    ensures TrimRight(s) == s[..n]
    decreases |s|
  {
    if n < |s| {
      TrimRightIs(s[..|s| - 1], n);
      assert s[..|s| - 1][..n] == s[..n];
    } else {
      assert s[..n] == s;
    }
  }

  /** How the receive loop returns: for want of input, stalled on the document, or asking for completion. */
  datatype Exit = Starved | Stalled | Parsed | TooLong | Closed(code: int) | SinkFailed

  class Receiver {
    const hooks: Hooks
    const net: Source
    const document: Sink
    /** Set when the body is not wanted: it is then read and dropped. */
    const discard: bool
    /** Set when the user takes over the document stream once the header is complete. */
    const takesStream: bool
    const buffer: array<char>
    var len: nat
    var state: State
    var chunked: bool
    var dataSize: Size
    /** What the callbacks were given, in order. */
    var log: seq<Event>
    /** Bytes of the message the parser is done with. */
    ghost var consumed: nat

    /** recv: a parser at the leader, an empty buffer. Both streams are counted from here. */
    constructor (hooks: Hooks, net: Source, document: Sink, discard: bool, takesStream: bool)
      requires net.delivered == [] && document.taken == ""
      ensures Valid() && fresh(buffer)
      ensures this.hooks == hooks && this.net == net && this.document == document
      ensures this.discard == discard && this.takesStream == takesStream
    {
      this.hooks, this.net, this.document, this.discard, this.takesStream := hooks, net, document, discard, takesStream;
      buffer := new char[BUFFER_SIZE];
      len, state, chunked, dataSize, log, consumed := 0, Leader, false, SIZE_UNKNOWN, [], 0;
      new;
      FollowsSelf(hooks, INITIAL, "");
    }

    function Parser(): Parser
      reads this
    {
      HttpSyntax.Parser.Parser(state, chunked, dataSize, log)
    }

    ghost function Received(): string
      reads net
    {
      Concat(net.delivered)
    }

    /**
     * The parser and the buffered bytes stand for a fresh parser facing everything received, and
     * the document holds the body bytes reported so far.
     */
    ghost predicate Valid()
      reads this, net, document, buffer
    {
      && Buffered()
      && Follows(hooks, INITIAL, Received(), Parser(), consumed)
      && DocumentAgrees()
    }

    /** The buffer holds what was received and not yet consumed. */
    ghost predicate Buffered()
      reads this, net, buffer
    {
      && buffer.Length == BUFFER_SIZE
      && len <= BUFFER_SIZE
      && consumed + len == |Received()|
      && buffer[..len] == Received()[consumed..]
    }

    ghost predicate DocumentAgrees()
      reads this`log, document
    {
      document.taken == if discard then "" else BodyOf(log)
    }

    method SetParser(p: Parser)
      modifies this`state, this`chunked, this`dataSize, this`log
      ensures Parser() == p
    {
      state, chunked, dataSize, log := p.state, p.chunked, p.dataSize, p.log;
    }

    /** Finds the next complete line of buffer[from..len], without the white space at its end. */
    method NextLine(from: nat) returns (found: bool, line: string, next: nat)
      requires from <= len <= buffer.Length
      ensures var rest := buffer[from..len];
              var n := IndexOf(rest, '\n');
              && found == (n < |rest|)
              && (found ==> next == from + n + 1 && line == TrimRight(rest[..n]))
    {
      hide IndexOf, TrimRight;
      var pos := from;
      while pos < len && buffer[pos] != '\n'
        invariant from <= pos <= len
        invariant forall i | from <= i < pos :: buffer[i] != '\n'
      {
        pos := pos + 1;
      }
      ghost var rest := buffer[from..len];
      if pos >= len {
        assert forall i | 0 <= i < |rest| :: rest[i] == buffer[from + i];
        return false, "", from;
      }
      IndexOfIs(rest, '\n', pos - from);
      ghost var text := buffer[from..pos];
      assert rest[..pos - from] == text;
      var end := pos;
      while end > from && IsSpace(buffer[end - 1])
        invariant from <= end <= pos
        invariant forall i | end <= i < pos :: IsSpace(buffer[i])
      {
        end := end - 1;
      }
      assert text[..end - from] == buffer[from..end];
      TrimRightIs(text, end - from);
      return true, buffer[from..end], pos + 1;
    }

    /** Hands document bytes on; what the document did not take is kept for the next call. */
    method ProcessData(data: string) returns (result: ProcessResult, read: nat)
      requires data != ""
      modifies document
      ensures result.PrContinue? ==> 1 <= read <= |data|
      ensures document.taken == old(document.taken) + if result.PrContinue? && !discard then data[..read] else ""
      ensures document.blocks == old(document.blocks) + (if result.PrBlock? then 1 else 0)
      ensures document.failures == old(document.failures) + (if result.PrComplete? then 1 else 0)
    {
      if discard {
        return PrContinue, |data|;
      }
      var outcome, written, _ := document.Write(data);
      match outcome
      case Success => return PrContinue, written;
      case Block => return PrBlock, 0;
      case _ => return PrComplete, 0;
    }

    /** One line, or the end of a sized body: the step the reference reading takes, unless it hands over bytes. */
    method ProcessLineAt(from: nat) returns (step: Step)
      requires from <= len <= buffer.Length && DocumentAgrees()
      requires !state.Data? || dataSize == 0
      modifies this`state, this`chunked, this`dataSize, this`log
      ensures step == NextStep(hooks, old(Parser()), buffer[from..len])
      ensures Parser() == if step.Stuck? then old(Parser()) else step.parser
      ensures DocumentAgrees()
    {
      hide HandleLine, IndexOf, TrimRight;
      var p := Parser();
      if state.Complete? {
        return Halt(p, 0, NoError);
      }
      if state.Data? {
        if !chunked {
          return Halt(p, 0, NoError);
        }
        state := ChunkTerm;
        return Advance(Parser(), 0);
      }
      var found, line, next := NextLine(from);
      if !found {
        return Stuck;
      }
      var (after, verdict) := HandleLine(hooks, p, line);
      LineKeepsBody(hooks, p, line);
      SetParser(after);
      match verdict
      case Finished(e) => return Halt(after, next - from, e);
      case Continue => return Advance(after, next - from);
    }

    /** Hands over as many buffered document bytes as the size and the document allow. */
    method ProcessDataAt(from: nat) returns (result: ProcessResult, read: nat)
      requires from < len <= buffer.Length && DocumentAgrees()
      requires state.Data? && dataSize > 0
      modifies this`state, this`chunked, this`dataSize, this`log, document
      ensures result.PrContinue? ==>
                && 1 <= read <= len - from
                && (old(dataSize) == SIZE_UNKNOWN || read <= old(dataSize))
                && Parser() == TakeBody(old(Parser()), buffer[from..from + read])
      ensures !result.PrContinue? ==> Parser() == old(Parser())
      ensures DocumentAgrees()
      ensures document.blocks == old(document.blocks) + (if result.PrBlock? then 1 else 0)
      ensures document.failures == old(document.failures) + (if result.PrComplete? then 1 else 0)
      ensures state == old(state)
    {
      hide BodyOf;
      var available := len - from;
      if dataSize != SIZE_UNKNOWN && available > dataSize {
        available := dataSize;
      }
      var data := buffer[from..from + available];
      result, read := ProcessData(data);
      if result.PrContinue? {
        var given := data[..read];
        assert given == buffer[from..from + read];
        BodyOfAppend(log, BodyEvents(given));
        BodyOfBytes(given);
        SetParser(TakeBody(Parser(), given));
      }
    }

    /**
     * Process: reads what it can of the buffer. Wherever it stops, the parser it leaves behind
     * stands for the parser it started from; it asks for more only when no element is complete;
     * and it ends the message exactly as the reference reading does, unless the document failed.
     */
    method Process() returns (result: ProcessResult, processed: nat, error: HttpError, ghost sinkFailed: bool)
      requires len <= buffer.Length && DocumentAgrees()
      modifies this`state, this`chunked, this`dataSize, this`log, document
      ensures processed <= len && DocumentAgrees()
      ensures var all := buffer[..len];
              if result.PrComplete? && !sinkFailed
              then Ends(hooks, old(Parser()), all, Parser(), processed, error)
              else Follows(hooks, old(Parser()), all, Parser(), processed)
      ensures result.PrContinue? ==> NextStep(hooks, Parser(), buffer[processed..len]).Stuck?
      ensures result.PrBlock? ==> document.blocks > old(document.blocks) || (takesStream && InHead(old(state)) && !InHead(state))
      ensures result.PrContinue? && takesStream && InHead(old(state)) ==> InHead(state)
      ensures InHead(state) ==> InHead(old(state))
      ensures sinkFailed ==> result.PrComplete? && error == StreamFailure
      ensures if sinkFailed then document.failures > old(document.failures) else document.failures == old(document.failures)
      ensures document.blocks >= old(document.blocks)
    {
      hide NextStep, Follows, Ends, DocumentAgrees, TakeBody;
      ghost var start, all := Parser(), buffer[..len];
      FollowsSelf(hooks, start, all);
      processed := 0;
      while true
        invariant processed <= len && DocumentAgrees()
        invariant document.blocks == old(document.blocks) && document.failures == old(document.failures)
        invariant Follows(hooks, start, all, Parser(), processed)
        invariant if InHead(state) then InHead(old(state)) else !(takesStream && InHead(old(state)))
        decreases len - processed, state.Data?
      {
        ghost var before := Parser();
        assert all[processed..] == buffer[processed..len];
        if !state.Data? || dataSize == 0 {
          var headers := state.Headers?;
          StepFrom(hooks, start, all, before, processed);
          HeadFirst(hooks, before, buffer[processed..len]);
          var step := ProcessLineAt(processed);
          match step {
            case Stuck => return PrContinue, processed, NoError, false;
            case Halt(_, n, e) => return PrComplete, processed + n, e, false;
            case Advance(_, n) =>
              processed := processed + n;
              if headers && !state.Headers? && takesStream {
                // The user took over the document stream: leave the loop, the reading goes on later.
                return PrBlock, processed, NoError, false;
              }
          }
        } else if processed == len {
          StuckWithoutData(hooks, before, buffer[processed..len]);
          return PrContinue, processed, NoError, false;
        } else {
          var outcome, read := ProcessDataAt(processed);
          match outcome {
            case PrBlock => return PrBlock, processed, NoError, false;
            case PrComplete => return PrComplete, processed, StreamFailure, true;
            case PrContinue =>
          }
          assert buffer[processed..processed + read] == all[processed..][..read];
          FollowsBody(hooks, before, all[processed..], read);
          FollowsThen(hooks, start, all, before, processed, Parser(), read);
          processed := processed + read;
        }
      }
    }

    /** HandleStreamClose while receiving: a clean close is an end only for a body of unknown size. */
    function CloseError(code: int): HttpError
      reads this
    {
      StreamCloseError(code, state.Data? && dataSize == SIZE_UNKNOWN)
    }

    method Store(bytes: string)
      requires len + |bytes| <= buffer.Length
      modifies this`len, buffer
      ensures len == old(len) + |bytes| && buffer[..len] == old(buffer[..len]) + bytes
    {
      Memory.Copy(buffer, len, bytes);
      len := len + |bytes|;
      assert buffer[..len] == old(buffer[..len]) + bytes;
    }

    /** Buffers what the network offers. */
    method FillBuffer() returns (outcome: StreamResult, code: int)
      requires Valid() && len < BUFFER_SIZE
      modifies this`len, net, buffer
      ensures net.ended == (old(net.ended) || outcome.Eos?) && (old(net.ended) ==> outcome.Eos?)
      ensures Valid() && old(Received()) <= Received()
      ensures outcome.Success? || Received() == old(Received())
      ensures |net.delivered| == |old(net.delivered)| + (if outcome.Success? then 1 else 0)
      ensures net.blocks == old(net.blocks) + (if outcome.Block? then 1 else 0)
      ensures net.failures == old(net.failures) + (if outcome.Error? then 1 else 0)
      ensures outcome.Error? ==> code == net.lastError
      ensures net.room == BUFFER_SIZE - old(len)
    {
      hide Follows, BodyOf, Concat;
      ghost var got := Received();
      var bytes;
      outcome, bytes, code := net.Read(BUFFER_SIZE - len);
      if outcome.Success? {
        Store(bytes);
        ConcatAppend(old(net.delivered), bytes);
        assert (got + bytes)[consumed..] == got[consumed..] + bytes;
        FollowsAppend(hooks, INITIAL, got, Parser(), consumed, bytes);
      }
    }

    /** Drops what lies at the front of the buffer. */
    method DropFront(n: nat)
      requires n <= len <= buffer.Length
      modifies this`len, buffer
      ensures len == old(len) - n && buffer[..len] == old(buffer[..len])[n..] == old(buffer[n..len])
    {
      len := len - n;
      Memory.MoveToFront(buffer, n, len);
      assert buffer[..len] == old(buffer[n..len]);
    }

    /** Runs the parser over the buffer and drops what it is done with. */
    method ProcessBuffer() returns (result: ProcessResult, error: HttpError, ghost sinkFailed: bool)
      requires Valid()
      modifies this`len, this`state, this`chunked, this`dataSize, this`log, this`consumed, document, buffer
      ensures Buffered() && DocumentAgrees()
      ensures result.PrComplete? && !sinkFailed ==> Ends(hooks, INITIAL, Received(), Parser(), consumed, error)
      ensures !result.PrComplete? || sinkFailed ==> Valid()
      ensures result.PrContinue? ==> NextStep(hooks, Parser(), buffer[..len]).Stuck?
      ensures result.PrBlock? ==> document.blocks > old(document.blocks) || (takesStream && InHead(old(state)) && !InHead(state))
      ensures result.PrContinue? && takesStream && InHead(old(state)) ==> InHead(state)
      ensures InHead(state) ==> InHead(old(state))
      ensures sinkFailed ==> result.PrComplete? && error == StreamFailure
      ensures if sinkFailed then document.failures > old(document.failures) else document.failures == old(document.failures)
      ensures document.blocks >= old(document.blocks)
    {
      hide Follows, Ends, NextStep, BodyOf, Concat, DocumentAgrees;
      ghost var got, before, done := Received(), Parser(), consumed;
      var processed;
      result, processed, error, sinkFailed := Process();
      if result.PrComplete? && !sinkFailed {
        EndsAfter(hooks, INITIAL, got, before, done, Parser(), processed, error);
      } else {
        FollowsThen(hooks, INITIAL, got, before, done, Parser(), processed);
      }
      DropFront(processed);
      consumed := consumed + processed;
      TailOfTail(got, done, processed);
    }

    /**
     * DoReceiveLoop: alternates reading and processing. While the message is open the receiver
     * stands for a fresh parser facing everything received, and when it waits for the network it
     * stands exactly where one reading of everything received stands. It completes with the
     * parser's verdict, when one element is longer than the whole buffer, when the network
     * closes, or when the document fails.
     */
    method DoReceiveLoop() returns (done: bool, error: HttpError, ghost exit: Exit)
      requires Valid()
      modifies this`len, this`state, this`chunked, this`dataSize, this`log, this`consumed, document, buffer, net
      ensures Buffered() && DocumentAgrees() && old(Received()) <= Received()
      ensures done == !(exit.Starved? || exit.Stalled?)
      ensures !exit.Parsed? ==> Valid()
      ensures exit.Starved? ==> Read(hooks, INITIAL, Received()) == Reading(Parser(), consumed, Continue)
      ensures exit.Starved? ==> net.blocks > old(net.blocks) || |net.delivered| >= |old(net.delivered)| + MAX_READ_COUNT
      ensures |net.delivered| <= |old(net.delivered)| + MAX_READ_COUNT + 1
      ensures exit.Stalled? ==> document.blocks > old(document.blocks) || (takesStream && InHead(old(state)) && !InHead(state))
      ensures exit.Starved? && takesStream && InHead(old(state)) ==> InHead(state)
      ensures exit.Parsed? ==> Read(hooks, INITIAL, Received()) == Reading(Parser(), consumed, Finished(error))
      ensures exit.TooLong? ==> error == Overflow && len == BUFFER_SIZE && NextStep(hooks, Parser(), buffer[..]).Stuck?
      ensures exit.Closed? ==> error == CloseError(exit.code)
      ensures exit.Closed? ==> exit.code == if net.failures > old(net.failures) then net.lastError else 0
      ensures net.failures > old(net.failures) && net.lastError != 0 ==> done && error != NoError
      ensures exit.Closed? ==> net.failures > old(net.failures) || net.ended
      ensures exit.SinkFailed? ==> error == StreamFailure
      ensures exit.SinkFailed? <==> document.failures > old(document.failures)
      ensures net.failures > old(net.failures) || (net.ended && !old(net.ended)) ==> exit.Closed?
    {
      hide Follows, Ends, NextStep, DocumentAgrees;
      error := NoError;
      var needsMore := false;
      for round := 0 to MAX_READ_COUNT + 1
        invariant Valid() && old(Received()) <= Received() && net.ended == old(net.ended)
        invariant document.blocks >= old(document.blocks) && document.failures == old(document.failures)
        invariant net.failures == old(net.failures) && net.blocks >= old(net.blocks)
        invariant |old(net.delivered)| <= |net.delivered| <= |old(net.delivered)| + round
        invariant if InHead(state) then InHead(old(state)) else !(takesStream && InHead(old(state)))
        invariant net.blocks > old(net.blocks) || |net.delivered| >= |old(net.delivered)| + round - 1
        invariant round > 0 ==> needsMore
        invariant needsMore ==> NextStep(hooks, Parser(), buffer[..len]).Stuck?
      {
        if len < BUFFER_SIZE {
          var outcome, code := FillBuffer();
          match outcome {
            case Success =>
            case Block =>
              if needsMore {
                Waiting();
                return false, error, Starved;
              }
            case Eos =>
              error := CloseError(0);
              return true, error, Closed(0);
            case Error =>
              error := CloseError(code);
              return true, error, Closed(code);
          }
        } else if needsMore {
          assert buffer[..] == buffer[..len];
          return true, Overflow, TooLong;
        }
        var result;
        ghost var sinkFailed;
        result, error, sinkFailed := ProcessBuffer();
        match result {
          case PrContinue =>
            needsMore := true;
          case PrBlock =>
            return false, error, Stalled;
          case PrComplete =>
            Conclude(sinkFailed, error);
            return true, error, if sinkFailed then SinkFailed else Parsed;
        }
      }
      Waiting();
      return false, error, Starved;
    }

    lemma Waiting()
      requires Valid()
      requires NextStep(hooks, Parser(), buffer[..len]).Stuck?
      ensures Read(hooks, INITIAL, Received()) == Reading(Parser(), consumed, Continue)
    {
      FollowsExhausted(hooks, INITIAL, Received(), Parser(), consumed);
    }

    /**
     * A body of unknown size ends with the connection. The document is then everything received
     * after the header exactly when nothing is left in the buffer: a close does not process it.
     */
    lemma CompleteAtClose()
      requires Valid() && CloseError(0) == NoError && !discard
      ensures document.taken == BodyOf(Read(hooks, INITIAL, Received()).parser.log) <==> len == 0
    {
      hide BodyOf, ShortLines, Read, BodyEvents;
      var rest := Received()[consumed..];
      assert Received() + "" == Received() && rest + "" == rest;
      assert SameFuture(hooks, INITIAL, Received() + "", Parser(), rest + "", consumed);
      OpenEnded(hooks, Parser(), rest);
      BodyOfAppend(log, BodyEvents(rest));
      BodyOfBytes(rest);
    }

    /** A connection that closes before the end of a message that had one is an error, wherever the receiver is. */
    lemma CloseIsEarly(rest: string)
      requires Valid() && Read(hooks, INITIAL, Received() + rest).verdict.Finished?
      ensures CloseError(0) == Disconnected
    {
      hide Read, ShortLines, BodyEvents;
      var left := Received()[consumed..] + rest;
      assert SameFuture(hooks, INITIAL, Received() + rest, Parser(), left, consumed);
      if state.Data? && dataSize == SIZE_UNKNOWN {
        OpenEnded(hooks, Parser(), left);
      }
    }

    lemma Conclude(sinkFailed: bool, error: HttpError)
      requires !sinkFailed ==> Ends(hooks, INITIAL, Received(), Parser(), consumed, error)
      ensures !sinkFailed ==> Read(hooks, INITIAL, Received()) == Reading(Parser(), consumed, Finished(error))
    {
      assert Received() + "" == Received();
    }
  }

  lemma TailOfTail(s: string, a: nat, b: nat)
    requires a + b <= |s|
    ensures s[a..][b..] == s[a + b..]
  {
  }

  lemma StuckWithoutData(h: Hooks, p: Parser, s: string)
    requires p.state.Data? && p.dataSize > 0 && s == ""
    ensures NextStep(h, p, s).Stuck?
  {
  }

  /** Everything that is there goes to a body of unknown size, and more is asked for. */
  lemma OpenEnded(h: Hooks, p: Parser, s: string)
    requires p.state.Data? && p.dataSize == SIZE_UNKNOWN
    ensures Read(h, p, s) == Reading(TakeBody(p, s), |s|, Continue)
  {
    hide ShortLines, BodyEvents;
    ReadBody(h, p, s, |s|);
    assert s[..|s|] == s && s[|s|..] == "";
    StuckWithoutData(h, TakeBody(p, s), "");
    hide NextStep;
  }

  /** A line never carries document bytes. */
  lemma LineKeepsBody(h: Hooks, p: Parser, line: string)
    requires !p.state.Data? && !p.state.Complete?
    ensures BodyOf(HandleLine(h, p, line).0.log) == BodyOf(p.log)
  {
    hide StrToUL;
    var q := HandleLine(h, p, line).0;
    if q.log != p.log {
      assert q.log[..|q.log| - 1] == p.log;
    }
  }

  lemma StepFrom(h: Hooks, start: Parser, all: string, p: Parser, k: nat)
    requires k <= |all| && Follows(h, start, all, p, k)
    ensures var s := NextStep(h, p, all[k..]); s.Advance? ==> Follows(h, start, all, s.parser, k + s.n)
    ensures var s := NextStep(h, p, all[k..]); s.Halt? ==> Ends(h, start, all, s.parser, k + s.n, s.error)
  {
    hide NextStep, Follows, Ends;
    FollowsStep(h, p, all[k..]);
    var s := NextStep(h, p, all[k..]);
    match s
    case Stuck =>
    case Advance(q, n) => FollowsThen(h, start, all, p, k, q, n);
    case Halt(q, n, e) => EndsAfter(h, start, all, p, k, q, n, e);
  }
}
