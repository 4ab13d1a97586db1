/** The sending half of the engine: leader, headers and document packed through one fixed buffer. */
module HttpSender {
  import opened Text
  import opened Streams
  import opened HttpCommon
  import opened HttpSyntax
  import Memory

  const CHUNK_DIGITS: nat := 8
  const LAST_CHUNK: string := "0\r\n\r\n"

  type HeaderField = (string, string)

  /** What %s prints: the text up to the first NUL. */
  function UpToNul(s: string): string {
    s[..IndexOf(s, '\0')]
  }

  function FormatHeader(header: HeaderField): string {
    UpToNul(header.0) + ": " + UpToNul(header.1) + CRLF
  }

  /** Headers that would not fit even in an empty buffer are dropped. */
  predicate Sendable(header: HeaderField) {
    |FormatHeader(header)| < BUFFER_SIZE - 3
  }

  /** Name and value of a header that is sent have at most 32760 characters together. */
  lemma SendableIs(name: string, value: string)
    requires '\0' !in name && '\0' !in value
    ensures Sendable((name, value)) <==> |name| + |value| <= 32760
  {
    assert IndexOf(name, '\0') == |name| && IndexOf(value, '\0') == |value|;
    hide IndexOf;
  }

  function HeaderText(headers: seq<HeaderField>): string {
    if headers == [] then ""
    else
      var last := headers[|headers| - 1];
      HeaderText(headers[..|headers| - 1]) + if Sendable(last) then FormatHeader(last) else ""
  }

  /** The value of the first Transfer-Encoding header, or "" without one. */
  function TransferEncoding(headers: seq<HeaderField>): string {
    if headers == [] then ""
    else if SameIgnoringCase(headers[0].0, "Transfer-Encoding") then headers[0].1
    else TransferEncoding(headers[1..])
  }

  lemma Regroup(wire: string, pending: string, k: nat)
    requires k <= |pending|
    ensures (wire + pending[..k]) + pending[k..] == wire + pending
  {
  }

  lemma HeaderTextGrows(headers: seq<HeaderField>, n: nat)
    requires n < |headers|
    ensures HeaderText(headers[..n + 1])
         == HeaderText(headers[..n]) + if Sendable(headers[n]) then FormatHeader(headers[n]) else ""
  {
    assert headers[..n + 1][..n] == headers[..n];
  }

  function HexDigit(n: nat): char
    requires n < 16
  {
    "0123456789abcdef"[n]
  }

  /** The last `digits` hexadecimal digits of n, most significant first. */
  function Hex(n: nat, digits: nat): (s: string)
    ensures |s| == digits
  {
    if digits == 0 then "" else Hex(n / 16, digits - 1) + [HexDigit(n % 16)]
  }

  function Frame(chunk: string): (s: string)
    ensures |s| == CHUNK_DIGITS + 4 + |chunk|
  {
    Hex(|chunk|, CHUNK_DIGITS) + CRLF + chunk + CRLF
  }

  function BodyText(pieces: seq<string>, chunked: bool): string {
    if pieces == [] then ""
    else
      var last := pieces[|pieces| - 1];
      BodyText(pieces[..|pieces| - 1], chunked) + if chunked then Frame(last) else last
  }

  /**
   * The message as far as it has been produced: the leader, the headers queued so far, the blank
   * line once all are, the document as read so far, and the final chunk once it was added.
   */
  function MessageText(leader: string, headers: seq<HeaderField>, queued: nat,
                       chunked: bool, pieces: seq<string>, terminated: bool): string
    requires queued <= |headers|
  {
    leader + CRLF
    + HeaderText(headers[..queued]) + (if queued == |headers| then CRLF else "")
    + BodyText(pieces, chunked) + (if terminated then LAST_CHUNK else "")
  }

  /** Before any document byte is read, the message is the leader and headers alone. */
  lemma MessageHead(leader: string, headers: seq<HeaderField>, queued: nat, chunked: bool)
    requires queued <= |headers|
    ensures MessageText(leader, headers, queued, chunked, [], false)
         == leader + CRLF + HeaderText(headers[..queued]) + (if queued == |headers| then CRLF else "")
  {
  }

  lemma MessageGrows(leader: string, headers: seq<HeaderField>, chunked: bool, pieces: seq<string>, piece: string)
    ensures MessageText(leader, headers, |headers|, chunked, pieces + [piece], false)
         == MessageText(leader, headers, |headers|, chunked, pieces, false) + if chunked then Frame(piece) else piece
  {
    hide Frame, HeaderText;
    assert (pieces + [piece])[..|pieces|] == pieces;
    var head := leader + CRLF + HeaderText(headers[..|headers|]) + CRLF;
    var added := if chunked then Frame(piece) else piece;
    assert head + (BodyText(pieces, chunked) + added) + "" == head + BodyText(pieces, chunked) + "" + added;
  }

  lemma MessageEnds(leader: string, headers: seq<HeaderField>, chunked: bool, pieces: seq<string>)
    ensures MessageText(leader, headers, |headers|, chunked, pieces, true)
         == MessageText(leader, headers, |headers|, chunked, pieces, false) + LAST_CHUNK
  {
    hide BodyText, HeaderText;
  }

  /** How a turn of the flush loop ends: it goes round again, it waits for an event, or the send is over. */
  datatype Turn = Again | Waiting | Over(error: HttpError)

  class Sender {
    const leader: string
    const headers: seq<HeaderField>
    const chunked: bool
    const document: Source?
    const net: Sink
    const buffer: array<char>
    var len: nat
    var next: nat
    var chunkData: bool

    ghost function Reads(): seq<string>
      reads document
    {
      if document == null then [] else document.delivered
    }

    ghost predicate Terminated()
      reads this
    {
      chunked && !chunkData
    }

    /**
     * What is on the wire followed by what is buffered is the message as far as it was produced,
     * and no document byte was read before every header was queued.
     */
    ghost predicate Valid()
      reads this, document, net, buffer
    {
      && Shape()
      && net.taken + buffer[..len] == MessageText(leader, headers, next, chunked, Reads(), Terminated())
    }

    ghost predicate Shape()
      reads this, document
    {
      && buffer.Length == BUFFER_SIZE
      && |leader| + |CRLF| + |CRLF| < BUFFER_SIZE
      && len <= BUFFER_SIZE
      && next <= |headers|
      && (chunkData ==> chunked)
      && (Reads() != [] || Terminated() ==> next == |headers|)
      && (Terminated() ==> document != null && document.ended)
      && forall i | 0 <= i < |Reads()| :: 0 < |Reads()[i]| <= BUFFER_SIZE
    }

    method Append(s: string)
      requires len + |s| <= BUFFER_SIZE == buffer.Length
      modifies this`len, buffer
      ensures len == old(len) + |s|
      ensures buffer[..len] == old(buffer[..len]) + s
    {
      Memory.Copy(buffer, len, s);
      len := len + |s|;
      assert buffer[..len] == buffer[..old(len)] + s;
    }

    /** send: formats the leader, and the blank line at once when there are no headers. */
    constructor (leader: string, headers: seq<HeaderField>, document: Source?, net: Sink)
      requires |leader| + |CRLF| + |CRLF| < BUFFER_SIZE
      requires net.taken == ""
      requires document != null ==> document.delivered == [] && !document.ended
      ensures Valid() && fresh(buffer)
      ensures this.leader == leader && this.headers == headers && this.chunked == (TransferEncoding(headers) == "chunked")
      ensures this.document == document && this.net == net
    {
      this.leader, this.headers := leader, headers;
      chunked := TransferEncoding(headers) == "chunked";
      this.document, this.net := document, net;
      buffer := new char[BUFFER_SIZE];
      len, next, chunkData := 0, 0, TransferEncoding(headers) == "chunked";
      new;
      Append(leader + CRLF);
      assert buffer[..len] == leader + CRLF;
      if headers == [] {
        Append(CRLF);
      }
      assert headers[..0] == [];
    }

    /**
     * queue_headers: queues headers while they fit, dropping one only when even the empty buffer
     * is too small for it, and ends with the blank line; or says that a network write must come first.
     */
    method QueueHeaders() returns (sendRequired: bool)
      requires Valid() && next < |headers|
      modifies this`len, this`next, buffer
      ensures Valid() && old(next) <= next
      ensures sendRequired ==> len > 0
      ensures !sendRequired ==> next == |headers|
      ensures net.taken == old(net.taken) && Reads() == old(Reads()) && chunkData == old(chunkData)
    {
      hide FormatHeader, MessageText, HeaderText;
      MessageHead(leader, headers, next, chunked);
      while next < |headers|
        invariant Shape() && old(next) <= next <= |headers|
        invariant net.taken + buffer[..len] == leader + CRLF + HeaderText(headers[..next])
        invariant next == |headers| ==> len + 3 < BUFFER_SIZE
        invariant Reads() == [] && !Terminated()
      {
        var text := FormatHeader(headers[next]);
        ghost var sofar := net.taken + buffer[..len];
        HeaderTextGrows(headers, next);
        if len + |text| < BUFFER_SIZE - 3 {
          Append(text);
          assert net.taken + buffer[..len] == sofar + text;
          next := next + 1;
        } else if len == 0 {
          next := next + 1;
        } else {
          MessageHead(leader, headers, next, chunked);
          return true;
        }
      }
      ghost var sofar := net.taken + buffer[..len];
      Append(CRLF);
      assert net.taken + buffer[..len] == sofar + CRLF;
      MessageHead(leader, headers, next, chunked);
      return false;
    }

    /** Puts a chunk around the bytes the document gave: they lie after the room kept for the size line. */
    method FrameInPlace(bytes: string)
      requires buffer.Length == BUFFER_SIZE && len + CHUNK_DIGITS + 4 + |bytes| <= BUFFER_SIZE
      modifies this`len, buffer
      ensures len == old(len) + |Frame(bytes)|
      ensures buffer[..len] == old(buffer[..len]) + Frame(bytes)
    {
      hide Hex;
      ghost var before := buffer[..len];
      var offset := len + CHUNK_DIGITS + 2;
      var size := Hex(|bytes|, CHUNK_DIGITS);
      Memory.Copy(buffer, offset, bytes);
      Memory.Copy(buffer, len, size);
      Memory.Copy(buffer, len + CHUNK_DIGITS, CRLF);
      Memory.Copy(buffer, offset + |bytes|, CRLF);
      len := offset + |bytes| + 2;
      assert buffer[..len] == before + (size + CRLF + bytes + CRLF);
    }

    /** What was just read goes behind what is buffered, as a chunk or as it is. */
    method QueuePiece(bytes: string, ghost before: seq<string>)
      requires Shape() && next == |headers| && chunkData == chunked && Reads() == before + [bytes]
      requires len + |bytes| + (if chunkData then CHUNK_DIGITS + 4 else 0) <= BUFFER_SIZE
      requires net.taken + buffer[..len] == MessageText(leader, headers, next, chunked, before, false)
      modifies this`len, buffer
      ensures Valid() && (bytes != "" ==> len > 0)
    {
      hide Frame, MessageText;
      ghost var sofar := net.taken + buffer[..len];
      if chunkData {
        FrameInPlace(bytes);
        assert net.taken + buffer[..len] == sofar + Frame(bytes);
      } else {
        Append(bytes);
        assert net.taken + buffer[..len] == sofar + bytes;
      }
      MessageGrows(leader, headers, chunked, before, bytes);
    }

    /** The document ended: the empty chunk and the empty trailers, and no more chunks after them. */
    method QueueLastChunk()
      requires Valid() && next == |headers| && chunkData && document != null && document.ended
      requires len + |LAST_CHUNK| <= BUFFER_SIZE
      modifies this`len, this`chunkData, buffer
      ensures Valid() && Terminated() && len > 0
    {
      hide MessageText;
      ghost var sofar := net.taken + buffer[..len];
      Append(LAST_CHUNK);
      assert net.taken + buffer[..len] == sofar + LAST_CHUNK;
      MessageEnds(leader, headers, chunked, Reads());
      chunkData := false;
    }

    /**
     * Queues what the document gives. `sendRequired` says that the buffer must be written before
     * more can be queued; `over` ends the send, without error only when everything was written.
     */
    method QueueDocument() returns (sendRequired: bool, over: bool, error: HttpError)
      requires Valid() && next == |headers| && document != null
      modifies this`len, this`chunkData, buffer, document
      ensures Valid() && net.taken == old(net.taken)
      ensures old(Reads()) <= Reads()
      ensures !sendRequired && !over ==> |Reads()| == |old(Reads())| + 1 && len > 0
      ensures sendRequired ==> !over
      ensures var reserve := old(len) + if old(chunkData) then CHUNK_DIGITS + 4 else 0;
              if reserve >= BUFFER_SIZE then sendRequired && Reads() == old(Reads()) && document.blocks == old(document.blocks)
              else document.room == BUFFER_SIZE - reserve
      ensures |Reads()| > |old(Reads())| ==> !sendRequired && !over
      ensures over && error == NoError ==> len == 0 && document.ended && Terminated() == chunked
      ensures document.failures > old(document.failures) <==> over && error != NoError
      ensures over && error != NoError ==> error == StreamFailure
      ensures sendRequired && len == 0 ==> document.blocks > old(document.blocks)
      ensures document.blocks >= old(document.blocks) && document.failures >= old(document.failures)
    {
      hide MessageText;
      var reserve := len + if chunkData then CHUNK_DIGITS + 4 else 0;
      if reserve >= BUFFER_SIZE {
        return true, false, NoError;
      }
      var outcome, bytes, _ := document.Read(BUFFER_SIZE - reserve);
      match outcome {
        case Success =>
          QueuePiece(bytes, old(Reads()));
          return false, false, NoError;
        case Block =>
          return true, false, NoError;
        case Eos =>
          if chunkData {
            QueueLastChunk();
          } else if len == 0 {
            return false, true, NoError;
          }
          return true, false, NoError;
        case Error =>
          return false, true, StreamFailure;
      }
    }

    /** Drops what lies at the front of the buffer. */
    method DropFront(n: nat)
      requires n <= len <= buffer.Length
      modifies this`len, buffer
      ensures len == old(len) - n && buffer[..len] == old(buffer[..len])[n..]
    {
      len := len - n;
      Memory.MoveToFront(buffer, n, len);
      assert buffer[..len] == old(buffer[..len])[n..];
    }

    /** Offers the buffer to the network and keeps what it did not take. */
    method WriteBuffer() returns (outcome: StreamResult, code: int)
      requires Valid() && len > 0
      modifies this`len, buffer, net
      ensures Valid()
      ensures outcome.Success? ==> len < old(len) && |net.taken| > |old(net.taken)|
      ensures !outcome.Success? ==> len == old(len) && net.taken == old(net.taken)
      ensures net.blocks == old(net.blocks) + (if outcome.Block? then 1 else 0)
      ensures net.failures == old(net.failures) + (if outcome.Eos? || outcome.Error? then 1 else 0)
      ensures outcome.Eos? || outcome.Error? ==> code == net.lastError
      ensures net.offered == old(buffer[..len])
    {
      hide MessageText;
      ghost var all, before := buffer[..len], net.taken;
      var written;
      outcome, written, code := net.Write(buffer[..len]);
      if outcome.Success? {
        DropFront(written);
        Regroup(before, all, written);
      }
    }

    /** The whole message: every header, the whole document, and the final chunk of a chunked one. */
    ghost predicate WholeMessageSent()
      reads this, document, net
    {
      && (document != null ==> document.ended)
      && net.taken == MessageText(leader, headers, |headers|, chunked, Reads(), chunked && document != null)
    }

    /** No document, all headers queued, something left to write, and no write called for. */
    ghost predicate Spinning(sendRequired: bool)
      reads this
    {
      len > 0 && document == null && next == |headers| && !sendRequired
    }

    /**
     * One turn of flush_data's loop: queue headers, queue document, write. Ending without error
     * means the whole message was written. A turn that goes round again has moved something, except
     * in the one situation `Spinning`. There no turn waits: if the network takes nothing, the next
     * turn finds the same situation, so the loop spins until the network accepts or fails.
     */
    method FlushTurn(sendRequired: bool) returns (turn: Turn, sendRequired': bool)
      requires Valid() && (sendRequired ==> len > 0)
      modifies this`len, this`next, this`chunkData, buffer, net, document
      ensures Valid() && (turn.Again? && sendRequired' ==> len > 0)
      ensures turn == Over(NoError) ==> WholeMessageSent()
      ensures net.blocks >= old(net.blocks) && net.failures >= old(net.failures)
      ensures document != null ==> document.blocks >= old(document.blocks) && document.failures >= old(document.failures)
      ensures turn.Waiting? ==> net.blocks > old(net.blocks) || (document != null && document.blocks > old(document.blocks))
      ensures turn.Over? && turn.error != NoError ==>
                net.failures > old(net.failures) || (document != null && document.failures > old(document.failures))
      ensures net.failures > old(net.failures) ==> turn == Over(StreamCloseError(net.lastError, false))
      ensures document != null && document.failures > old(document.failures) ==> turn == Over(StreamFailure)
      ensures turn.Again? && len == old(len) && next == old(next) && net.taken == old(net.taken) && Reads() == old(Reads())
              ==> old(Spinning(sendRequired))
      ensures old(Spinning(sendRequired)) ==>
                && !turn.Waiting? && turn != Over(NoError)
                && (turn.Again? && net.taken == old(net.taken) ==> Spinning(sendRequired') && len == old(len))
    {
      hide MessageText;
      sendRequired' := sendRequired;
      if !sendRequired' && next < |headers| {
        sendRequired' := QueueHeaders();
      }
      if !sendRequired' && document != null {
        var over, error;
        sendRequired', over, error := QueueDocument();
        if over {
          Emptied(error);
          return Over(error), false;
        }
      }
      if len == 0 {
        if document == null {
          Emptied(NoError);
          return Over(NoError), false;
        }
        return Waiting, false;
      }
      var outcome, code := WriteBuffer();
      match outcome {
        case Success =>
          return Again, false;
        case Block =>
          return if sendRequired' then Waiting else Again, sendRequired';
        case _ =>
          return Over(StreamCloseError(code, false)), false;
      }
    }

    lemma Emptied(error: HttpError)
      requires Valid()
      requires error == NoError ==> len == 0 && next == |headers| && (document != null ==> document.ended && Terminated() == chunked)
      ensures error == NoError && (document == null ==> !Terminated()) ==> WholeMessageSent()
    {
      if error == NoError {
        assert net.taken + buffer[..0] == net.taken;
      }
    }

    /**
     * flush_data, cut after any number of turns: at every point of every send the wire and the
     * buffer hold the message so far.
     */
    method FlushData(turns: nat) returns (turn: Turn)
      requires Valid()
      modifies this`len, this`next, this`chunkData, buffer, net, document
      ensures Valid()
      ensures turn == Over(NoError) ==> WholeMessageSent()
      ensures turn.Waiting? ==> net.blocks > old(net.blocks) || (document != null && document.blocks > old(document.blocks))
      ensures turn.Over? && turn.error != NoError ==>
                net.failures > old(net.failures) || (document != null && document.failures > old(document.failures))
      ensures net.failures > old(net.failures) ==> turn == Over(StreamCloseError(net.lastError, false))
      ensures document != null && document.failures > old(document.failures) ==> turn == Over(StreamFailure)
    {
      turn := Again;
      var sendRequired := len >= BUFFER_SIZE;
      var done := 0;
      while turn.Again? && done < turns
        invariant Valid()
        invariant turn.Again? && sendRequired ==> len > 0
        invariant turn == Over(NoError) ==> WholeMessageSent()
        invariant net.blocks >= old(net.blocks) && net.failures >= old(net.failures)
        invariant document != null ==> document.blocks >= old(document.blocks) && document.failures >= old(document.failures)
        invariant turn.Waiting? ==> net.blocks > old(net.blocks) || (document != null && document.blocks > old(document.blocks))
        invariant turn.Over? && turn.error != NoError ==>
                    net.failures > old(net.failures) || (document != null && document.failures > old(document.failures))
        invariant net.failures > old(net.failures) ==> turn == Over(StreamCloseError(net.lastError, false))
        invariant document != null && document.failures > old(document.failures) ==> turn == Over(StreamFailure)
      {
        turn, sendRequired := FlushTurn(sendRequired);
        done := done + 1;
      }
    }
  }
}
