# A verified model of the protocol core of webrtc/base

This project models the parts of `webrtc/base` that keep state of their own, and proves what they
promise over every input, every pattern of short transfers and errors, and every interleaving.

- **HTTP message engine** (`HttpSyntax`, `HttpGrammar`, `Numerals`, `HttpReceiver`, `HttpSender`, `HttpEndToEnd`).
  `HttpSyntax` defines a reference reading of a byte stream, one element at a time, that knows nothing of
  buffers. `HttpGrammar` proves that this reading accepts exactly the texts of a grammar of messages, whose
  sizes are the numerals of `Numerals`, defined by the printed digits.
  The receiver and the sender are classes around the engine's one 32K buffer. The receiver is proved to
  stand at any moment for a fresh parser facing everything received. The sender is proved to keep
  "wire followed by buffer equals the message so far". `HttpEndToEnd` shows that
  the sender's text is a message of the grammar, so that what one sends, in chunks, with a content length or
  up to the end of the connection, is what the other delivers, and says exactly when the two ends disagree
  about chunks.
- **Packets over TCP** (`Framing`): length-prefixed frames, the out-buffer that drops while busy, and
  reassembly in place.
- **Lock-free queue** (`LockFreeQueue`): the atomic steps of one producer and one consumer on 32-bit
  wrapping counters. First-in first-out holds in every run exactly when the capacity divides 2^32.
- **Base64** (`Base64`, sections 3.5 and 4 of RFC 4648): the encoder, and for every combination of flags what the
  decoder makes of a text, said over the text. **CRC-32** (`Crc32`, section 8 of RFC 1952).
- **Disk cache** (`DiskCache`, `Eviction`): locks, accessors and sizes against the files on disk, and exactly
  which entries are evicted.
- **Byte buffer** (`ByteBuffer`, `ByteOrder`): a growable window with read marks and typed values.
- **HTTP client and server control** (`HttpClient`, `HttpServer`): the bound on stream requests, which is
  also shown to be reached, how a request goes on and ends, and the ownership of transactions.
- **Event** (`Event`): the POSIX flag, mutex and condition variable as steps of any number of threads, and the
  calls that these steps carry out.
- **Header attributes** (`Attributes`): the attribute parser against the quoting it undoes.

`Text`, `Memory`, `Streams`, `HttpCommon` and `Arithmetic` hold what these share. Sockets, streams, the
file system and the application are methods with nondeterministic bodies, so a proof about their caller
covers everything their contracts allow.

`dafny verify dfyconfig.toml` checks the whole project.

## Where the code does less than one might expect

Each of these is kept as the code has it, and the exact condition is proved.

- A packet of 65536 bytes or more does not survive framing, because its length is narrowed to 16 bits
  (`Framing.FrameRoundTrip`). Up to 65538 bytes it passes the size test and then fails the assertion made
  when it is buffered (`Framing.PacketSocket.Send`).
- The queue loses its order after 2^32 pushes when its capacity does not divide 2^32
  (`LockFreeQueue.FifoForever`, `LockFreeQueue.WrapBreaksFifo`). `Size` documents a result between 0 and
  the capacity. What a third thread sees, in either order of the two loads, is a difference of counts modulo
  2^32. While fewer than about 2^32 items pass between the loads, it is in range under exactly the conditions of
  `LockFreeQueue.SizePushedFirst` and `LockFreeQueue.SizePoppedFirst`.
- `Purge` leaves the total size as it was, so the books are right afterwards only for an empty cache
  (`DiskCache.Cache.Purge`).
- `CheckLimit` looks for the first idle entry, and then for the least recently modified one from there on, in
  use or not. It gives up although there are idle entries exactly when that one is in use, or when the
  first idle entry is the last of the map; the source then looks past the end (`Eviction.WhenItGivesUp`,
  `Eviction.GivesUpTooEarly`).
- `LockResource` over the limit evicts first and then goes on with the entry it found before. The lock is
  lost exactly when the eviction succeeds and takes that entry (`DiskCache.Cache.LockResource`).
- The scan of the cache folder looks at the low 32 bits of a file's size, so the books are right exactly when
  every file is below 4 GiB (`DiskCache.Cache.InitializeEntries`).
- `CloseAll` goes through a list made beforehand, and touches a deleted connection exactly when the application,
  told of the removal of one connection, asks for a close that removes a later one. The condition is stated over
  the connections before the call and what the application asks for at each removal
  (`HttpServer.Server.CloseAll`). The request-complete signal guards against a close by the application, but
  not by the network (`HttpServer.Server.SendSignalled`).
- A graceful close asked for while the application holds the request is forgotten by a keep-alive
  response (`HttpServer.Server.CloseWhileHeld`).
- `flush_data` spins while the network blocks, in exactly one situation: there is no document and all
  headers are queued (`HttpSender.Sender.FlushTurn`).
- `send` uses chunks when the first Transfer-Encoding is spelled exactly "chunked". The parser obeys the last
  one that was sent, in any case. The two disagree about `Chunked`, and about chunked followed by identity
  (`HttpEndToEnd.EndsDisagree`). A document sent plain and read in chunks never arrives
  (`HttpEndToEnd.ChunkedByMistake`), and one sent in chunks and read plain arrives with its framing
  (`HttpEndToEnd.SizedTransferComplete`, `HttpEndToEnd.OpenTransferComplete`).
- A body of unknown size ends with the connection, but the close does not process what is still
  buffered. The document is complete exactly when nothing is (`HttpReceiver.Receiver.CompleteAtClose`).
- Bytes buffered behind a complete message are dropped by the next `recv`, so a message that follows survives
  exactly when none are (`HttpGrammar.WhatFollows`).
- Base64 without required padding takes a lone zero symbol after whole quanta for bits left over, and accepts
  it. Strict decoding without padding accepts exactly the encodings without pads, and these texts
  (`Base64.StrictNoPad`, `Base64.LoneSymbolAccepted`).
- Base64 with white space allowed and padding required refuses an unpadded encoding that white space
  follows (`Base64.WhiteDecoding`, `Base64.BlankAfterEncoding`).
- A 24-bit value is written whatever its size, and reads back exactly when it is below 2^24
  (`ByteBuffer.ValueRoundTrip`).
- Attribute names come back exactly when they have no white space and no equals sign before another
  character (`Attributes.RoundTripIff`).

## Model

| member | source | states |
|---|---|---|
| HttpSyntax.ReadBody | webrtc/base/httpbase.cc:98-117 | Handing over any number of document bytes at once is the same as one at a time, for the whole rest of the reading. |
| HttpSyntax.NextStepAppend | webrtc/base/httpbase.cc:70-97 | An element that is complete is not changed by input that follows it. |
| HttpSyntax.ReadAppend | webrtc/base/httpbase.cc:59-122 | Reading a stream is reading any prefix and then going on from its unread tail with the rest; a verdict reached in the prefix stands. |
| HttpSyntax.ReadKeepsLog | webrtc/base/httpbase.cc:124-213 | What was reported is never taken back. |
| HttpSyntax.ReadIsExhaustive | webrtc/base/httpbase.cc:76-79 | A reading stops for lack of input only when the tail holds no complete element. |
| HttpSyntax.FragmentationIndependence | webrtc/base/httpbase.cc:59-213 | For every stream and every way of cutting it, with the unread tail carried over, events, body bytes, consumption, result and error equal those of one call on the whole stream. |
| HttpSyntax.FollowsExhausted | webrtc/base/httpbase.cc:551-556 | A parser that got anywhere by whatever route, and can get no further, stands exactly where one reading of the whole stream stands. |
| HttpSyntax.HeadFirst | webrtc/base/httpbase.cc:124-213 | The leader comes first, then the headers, and no element leads back to them. |
| Numerals.SpaceIs | webrtc/base/httpbase.cc:72-87 | The white space that is trimmed and skipped is blank, tab, line feed, vertical tab, form feed and carriage return. |
| Text.LowerIs | webrtc/base/httpbase.cc:31-35 | Comparing names and encodings without case turns each capital letter into its small one and nothing else. |
| Numerals.ReadsNumerals | webrtc/base/httpbase.cc:147-184 | The number at the front of any text is the longest numeral it begins with (blanks, a sign, 0x in base 16, digits of either case valued by their place in the printed digits, saturated, negated under a minus sign); nothing is used exactly when there is none. |
| Numerals.WholeNumeral | webrtc/base/httpbase.cc:176-184 | A size line is used to its end with value v if and only if it is a numeral of value v. |
| HttpGrammar.FieldHandled | webrtc/base/httpbase.cc:135-169 | A well-formed header line, cut at its first colon with the white space around the value left out, is reported as that name and value, and steers size and chunking. |
| HttpGrammar.FieldSound | webrtc/base/httpbase.cc:135-169 | A header line the parser goes on from is well formed: it has a colon, a number as content length, and chunked or identity as transfer encoding. |
| HttpGrammar.ChunkedEnds | webrtc/base/httpbase.cc:175-205 | Every well-formed chunk-coded body, whose sizes are hexadecimal numerals in either case, ends the message without error after its last line, and its chunk data is the body (section 4.1 of RFC 7230). |
| HttpGrammar.ChunkedSound | webrtc/base/httpbase.cc:175-205 | Whatever is accepted as a chunk-coded body is well formed: every chunk has a numeral as its size, all its data and a blank line, and the trailers end. |
| HttpGrammar.MessageAccepted | webrtc/base/httpbase.cc:59-213 | Every well-formed message is taken to exactly its last byte, whatever follows, and reported as it says; and if its lines fit the receive buffer, no reading of it meets a longer one. |
| HttpGrammar.MessageSound | webrtc/base/httpbase.cc:59-213 | Every stream accepted without error starts with a well-formed message. |
| HttpGrammar.AcceptsExactly | webrtc/base/httpbase.cc:59-213 | The parser completes without error if and only if the stream starts with a well-formed message, and then consumed and reported exactly that message. |
| HttpGrammar.OnlyProtocolErrors | webrtc/base/httpbase.cc:124-213 | From every parser state and for every stream, with a user who objects to nothing, the only error is the protocol error. |
| HttpGrammar.RejectsExactly | webrtc/base/httpbase.cc:124-213 | With such a user, a stream the parser is done with is a protocol error if and only if it does not start with a well-formed message. |
| HttpGrammar.Unambiguous | webrtc/base/httpbase.cc:59-213 | Two well-formed messages at the start of one stream have the same extent and the same report. |
| HttpGrammar.ReceivedMessage | webrtc/base/httpbase.cc:494-573 | A receiver whose parser completed without error consumed exactly one well-formed message, and its document is that message's body. |
| HttpGrammar.WhatFollows | webrtc/base/httpbase.cc:435-456 | The next recv on the connection sees what follows the message without the bytes still buffered, so the next message survives if and only if the buffer is empty at completion. |
| HttpReceiver.Receiver.constructor | webrtc/base/httpbase.cc:435-456 | recv starts a receiver that stands for a fresh parser with nothing received. |
| HttpReceiver.Receiver.NextLine | webrtc/base/httpbase.cc:72-87 | Finds the first line feed and strips all trailing white space of the line before it; reports none exactly when there is no line feed. |
| HttpReceiver.Receiver.ProcessData | webrtc/base/httpbase.cc:846-869 | The document gets exactly the bytes reported as read, in order, and nothing when the body is dropped or the write fails; it blocks or fails exactly when the document did. |
| HttpReceiver.Receiver.ProcessLineAt | webrtc/base/httpbase.cc:71-97 | A line, or the end of a sized body, takes the step of the reference reading and leaves its parser. |
| HttpReceiver.Receiver.ProcessDataAt | webrtc/base/httpbase.cc:98-117 | Hands over at most the announced size; parser, report and document move together. |
| HttpReceiver.Receiver.Process | webrtc/base/httpbase.cc:59-122 | Wherever it stops, the parser left behind has the same future as the one it started from on every continuation of the buffer; it asks for more only when no element is complete; it blocks only if the document did, or at the end of the head if the user takes over the stream, and then always; otherwise its verdict is the reference reading's, unless the document failed. |
| HttpReceiver.Receiver.FillBuffer | webrtc/base/httpbase.cc:511-536 | The network is asked for all the room there is; what it gives goes behind what is buffered, and the receiver still stands for a fresh parser facing everything received. |
| HttpReceiver.Receiver.ProcessBuffer | webrtc/base/httpbase.cc:551-556 | Processed bytes are dropped from the front of the buffer and no others, so buffer and consumed count still make up everything received. |
| HttpReceiver.Receiver.DoReceiveLoop | webrtc/base/httpbase.cc:494-573 | While it waits, state, report and consumption equal one reading of everything received, and the network had nothing more or the read limit was reached; completion carries that reading's verdict; overflow only with a full buffer that holds no complete element; it stalls only if the document blocked or the head ended and the user takes over the stream, and ends with a document error exactly when the document failed; a failed read ends with the error of its own code, never without error unless the code is 0; the end of the stream always completes, as a clean close, which is an error unless the body has no known size. |
| HttpReceiver.Receiver.CompleteAtClose | webrtc/base/httpbase.cc:475-492 | When the connection ends a body of unknown size without error, the document is everything received after the header if and only if the buffer is empty. |
| HttpReceiver.Receiver.CloseIsEarly | webrtc/base/httpbase.cc:475-492 | A clean close at any point before the end of a message that has an end is reported as disconnected. |
| HttpReceiver.OpenEnded | webrtc/base/httpbase.cc:98-117 | A body of unknown size takes everything that is there and asks for more. |
| HttpReceiver.LineKeepsBody | webrtc/base/httpbase.cc:124-213 | No line ever adds document bytes. |
| HttpSender.Sender.constructor | webrtc/base/httpbase.cc:398-433 | send starts with leader, line end and, without headers, the blank line buffered; chunked exactly when the first transfer encoding is "chunked". |
| HttpSender.SendableIs | webrtc/base/httpbase.cc:706-717 | A header is dropped as too long if and only if name and value have more than 32760 characters together. |
| HttpSender.Sender.QueueHeaders | webrtc/base/httpbase.cc:703-725 | Wire and buffer stay the message so far, including which headers were dropped; ends with the blank line exactly when all headers were queued, and otherwise leaves something to write. |
| HttpSender.Sender.FrameInPlace | webrtc/base/httpbase.cc:608-642 | The eight hex digits, both line ends and the bytes read into the reserved place make exactly one chunk behind what was buffered. |
| HttpSender.Sender.QueuePiece | webrtc/base/httpbase.cc:608-643 | One successful document read keeps wire and buffer the message so far, in chunks or plain. |
| HttpSender.Sender.QueueLastChunk | webrtc/base/httpbase.cc:647-653 | The end of the document adds the final chunk, once, and the message is then terminated. |
| HttpSender.Sender.QueueDocument | webrtc/base/httpbase.cc:606-668 | The document is asked for exactly the room there is, chunk framing kept free, and not at all when there is none; wire and buffer stay the message so far; the final chunk is added once, at the end of the document; completion only with nothing left to write. |
| HttpSender.Sender.WriteBuffer | webrtc/base/httpbase.cc:679-686 | All of the buffer is offered; a short write moves bytes from it to the wire and loses none. |
| HttpSender.Sender.FlushTurn | webrtc/base/httpbase.cc:583-701 | A turn keeps the message law; completion without error means the whole message is on the wire; it waits only if network or document blocked; it ends with a document error exactly when the document failed, and with the error of the network's own code exactly when the network failed; a turn goes round without moving anything only in the spinning situation, where no turn waits or completes and, while the network takes nothing, the next turn finds the same situation. |
| HttpSender.Sender.FlushData | webrtc/base/httpbase.cc:583-701 | After any number of turns of any send, the wire followed by the buffer is leader, headers queued so far less the dropped ones, blank line, and framed document so far; error-free completion means all of it was written; it waits only if network or document blocked, and fails exactly when one of them did, with its error. |
| HttpEndToEnd.HexRoundTrip | webrtc/base/httpbase.cc:630-635 | A number below 16^d reads back from its d hex digits. |
| HttpEndToEnd.SizeLine | webrtc/base/httpbase.cc:176-184 | The eight-digit size line of every chunk below 2^32 bytes is parsed as that size, with all its characters used. |
| HttpEndToEnd.FieldOfIsWellFormed | webrtc/base/httpbase.cc:706-710 | A header of one line without a colon in its name, printed by the sender, is a well-formed header line of the grammar. |
| HttpEndToEnd.HeadIsWellFormed | webrtc/base/httpbase.cc:398-433 | Leader, headers that were not dropped and blank line, as the sender writes them, are a well-formed head whose lines fit the receive buffer. |
| HttpEndToEnd.HeadSeen | webrtc/base/httpbase.cc:159-167 | After any head the parser expects chunks if and only if the last transfer encoding that was not dropped is chunked, in any case. |
| HttpEndToEnd.ChunkedIsSeen | webrtc/base/httpbase.cc:416-421 | With no other transfer encoding than chunked among the headers, what is sent in chunks is read in chunks. |
| HttpEndToEnd.IdentityIsSeen | webrtc/base/httpbase.cc:159-167 | With no other transfer encoding than identity among the headers, nothing is read in chunks. |
| HttpEndToEnd.EndsDisagree | webrtc/base/httpbase.cc:416-421 | Headers sent plain and read in chunks, and headers sent in chunks and read plain. |
| HttpEndToEnd.ChunkIsWellFormed | webrtc/base/httpbase.cc:629-643 | What the sender puts around a piece of the document is a well-formed chunk of that piece. |
| HttpEndToEnd.ContentIsWellFormed | webrtc/base/httpbase.cc:606-668 | The framed pieces and the final chunk are a well-formed chunk-coded body whose data is the document, however it was cut. |
| HttpEndToEnd.SentIsWellFormed | webrtc/base/httpbase.cc:583-725 | The whole text of a send in chunks that is read in chunks is a well-formed message of the grammar, and its body is the document. |
| HttpEndToEnd.WireIsPrefix | webrtc/base/httpbase.cc:583-701 | At every point of every send the wire is a prefix of the message its reads so far would make; a chunked send has all of it on the wire only when it is done. |
| HttpEndToEnd.TransferInProgress | webrtc/base/httpbase.cc:551-556 | At any point of a transfer, for any document reads, short writes and fragments, what the receiver reported is a prefix of the right report and its document a prefix of the one sent. |
| HttpEndToEnd.TransferComplete | webrtc/base/httpbase.cc:583-668 | Wherever the sender is, also after an error: when the receiver's parser concludes, it does so without error, after the last byte, with exactly the headers and the document sent, and the sender has written its whole message. |
| HttpEndToEnd.TransferEnds | webrtc/base/httpbase.cc:176-205 | A receiver that has the whole wire of a finished send is not left waiting. |
| HttpEndToEnd.NoOverflow | webrtc/base/httpbase.cc:537-542 | A full receive buffer always holds a complete element of such a message, so the overflow error cannot occur. |
| HttpEndToEnd.ChunkedByMistake | webrtc/base/httpbase.cc:159-205 | Of a document read in chunks whatever is accepted without error is shorter than what was sent behind the head, so one sent plain never arrives. |
| HttpEndToEnd.SentIs | webrtc/base/httpbase.cc:606-668 | What a send puts behind the head is the document when plain, and longer than the document when in chunks. |
| HttpEndToEnd.DecimalRoundTrip | webrtc/base/httpbase.cc:147-157 | A decimal content length reads back as itself. |
| HttpEndToEnd.AnnouncedSize | webrtc/base/httpbase.cc:147-157 | The content length among the headers is the size the parser waits for. |
| HttpEndToEnd.PlainInProgress | webrtc/base/httpbase.cc:551-556 | At any point of a transfer read without chunks the receiver's document is a prefix of what the sender puts behind the head; sent plain, of what it read. |
| HttpEndToEnd.SizedTransferComplete | webrtc/base/httpbase.cc:98-117 | Read without chunks, wherever the sender is, however it sends and whatever size n was announced: when the receiver's parser concludes, it does so without error, the sender has written at least n bytes behind the head, and the document is exactly the first n of them; sent plain, the first n of the document. |
| HttpEndToEnd.SizedTransferEnds | webrtc/base/httpbase.cc:91-97 | A receiver that has the whole wire of a finished send with at least the announced bytes behind the head is not left waiting. |
| HttpEndToEnd.UnannouncedSize | webrtc/base/httpbase.cc:53-57 | Without a content length the size stays unknown. |
| HttpEndToEnd.OpenTransferComplete | webrtc/base/httpbase.cc:215-218 | Documents that end with the connection, wherever the sender is and however it sends: a receiver that has the head and waits would take a clean close for the end; its document is everything received after the head, and all that was sent there if and only if all of the message arrived; sent plain that is the document, sent in chunks it is not. |
| ByteOrder.BigEndianRoundTrip | webrtc/base/byteorder.h:38-82 | What was written in network order reads back, cut to the width, for any width. |
| ByteOrder.FromBigEndianRoundTrip | webrtc/base/byteorder.h:38-82 | What was read in network order is written back as the same bytes, and is below the width's limit. |
| ByteOrder.LittleEndianRoundTrip | webrtc/base/byteorder.h:84-128 | The same for the opposite order. |
| ByteOrder.FromLittleEndianRoundTrip | webrtc/base/byteorder.h:84-128 | The same for the opposite order. |
| Framing.DeframeAppend | webrtc/base/asynctcpsocket.cc:274-293 | Reassembly may stop anywhere and go on from the leftover: packets and leftover are those of the whole stream. |
| Framing.LeftoverIsShort | webrtc/base/asynctcpsocket.cc:25-30 | The leftover is strictly smaller than one maximal frame and than the buffer, and holds no whole packet. |
| Framing.FrameRoundTrip | webrtc/base/asynctcpsocket.cc:248-272 | A packet survives framing if and only if its length is at most 65535. |
| Framing.FramesRoundTrip | webrtc/base/asynctcpsocket.cc:274-293 | Packets of at most 65535 bytes, back to back, come out whole and in order with nothing left over. |
| Framing.PartialStream | webrtc/base/asynctcpsocket.cc:274-293 | Any part of such a stream gives a prefix of the packets. |
| Framing.PacketSocket.constructor | webrtc/base/asynctcpsocket.cc:244-246 | A new socket has nothing pending, nothing accepted and nothing signalled. |
| Framing.PacketSocket.AppendToOutBuffer | webrtc/base/asynctcpsocket.cc:167-171 | The bytes go behind what is pending. |
| Framing.PacketSocket.FlushOutBuffer | webrtc/base/asynctcpsocket.cc:150-165 | All that is pending is offered, once; wire followed by out-buffer stays the same through every short write; nothing moves on failure. |
| Framing.PacketSocket.Send | webrtc/base/asynctcpsocket.cc:248-272 | Wire followed by out-buffer is the frames of the accepted packets; a refused or dropped packet leaves no byte on the wire; exactly the packet's frame is offered to the socket, once, if and only if nothing is pending and the packet has at most 65535 bytes, and it is accepted if and only if some of it is taken; what is returned; the assertion on buffering fails if and only if nothing is pending and the packet has 65536 to 65538 bytes. |
| Framing.PacketSocket.OnWriteEvent | webrtc/base/asynctcpsocket.cc:216-226 | All that is pending is offered, once, and what is taken is no longer pending; readiness is signalled exactly when nothing is pending, and then the wire is all frames accepted. |
| Framing.PacketSocket.TakePacket | webrtc/base/asynctcpsocket.cc:277-291 | Signals the first packet exactly when it is whole, and moves what follows to the front. |
| Framing.PacketSocket.ProcessInput | webrtc/base/asynctcpsocket.cc:274-293 | Signals exactly the whole packets of the buffer, in order, and keeps exactly the rest. |
| Framing.PacketSocket.OnReadEvent | webrtc/base/asynctcpsocket.cc:177-214 | The socket is asked once for all the room there is; what was signalled and what is kept is the reassembly of everything that arrived; there is always room to receive, and the overflow branch is never taken. |
| Framing.PacketsDelivered | webrtc/base/asynctcpsocket.cc:248-293 | A receiver that got any part of a sender's wire in any fragments has signalled a prefix of the accepted packets, and all of them, with nothing left over, once everything arrived. |
| Framing.GetBE16 | webrtc/base/byteorder.h:61-64 | The 16-bit length is the big-endian value of two bytes. |
| LockFreeQueue.CallsGoForward | webrtc/base/atomicops.h:75-117 | No step takes a thread back, changes the value it is pushing or turns a peek into a pop; a call ends only by being refused, or with exactly its item pushed, delivered, or read by a peek, which removes nothing. |
| LockFreeQueue.EveryStep | webrtc/base/atomicops.h:75-117 | Each atomic step of either thread keeps the invariant: delivered is a prefix of pushed, at most capacity apart, every item between still in its slot, and each thread's local knowledge is sound. |
| LockFreeQueue.QueueIsFifo | webrtc/base/atomicops.h:75-117 | Every interleaving is first-in first-out without loss or duplication: forever when the capacity divides 2^32, and for any capacity while fewer than 2^32 items were pushed. |
| LockFreeQueue.ReadsTheOldest | webrtc/base/atomicops.h:94-106 | Whoever is past the empty check, popping or peeking, reads and returns the oldest undelivered item, never an unwritten or overwritten slot. |
| LockFreeQueue.RefusedForGoodReason | webrtc/base/atomicops.h:75-117 | A push is refused exactly when the queue was full, a pop or peek exactly when it was empty, at the moment of the load. |
| LockFreeQueue.PushOnce | webrtc/base/atomicops.h:75-90 | An undisturbed push into a queue with room adds exactly its item. |
| LockFreeQueue.PopOnce | webrtc/base/atomicops.h:108-117 | An undisturbed pop from a queue with items delivers the one in the oldest slot and removes it. |
| LockFreeQueue.PeekOnce | webrtc/base/atomicops.h:92-106 | An undisturbed peek reads what a pop would take, and leaves the queue as it was. |
| LockFreeQueue.PushRefused | webrtc/base/atomicops.h:75-83 | A push on a full queue changes nothing. |
| LockFreeQueue.PopRefused | webrtc/base/atomicops.h:94-117 | A pop or peek on an empty queue changes nothing. |
| LockFreeQueue.SlotsDiffer | webrtc/base/atomicops.h:84 | Items in the queue at the same time lie in different slots, across counter wrap. |
| LockFreeQueue.SizeIsExact | webrtc/base/atomicops.h:127-134 | Size is the number of items and at most the capacity; IsFull and IsEmpty hold exactly when the queue is full or empty. |
| LockFreeQueue.SizePushedFirst | webrtc/base/atomicops.h:132-134 | From a third thread that loads the pushed counter first, Size is the items pushed by then less those popped by the second load, modulo 2^32; unless nearly 2^32 were popped in between, it is in range if and only if nothing pushed after the first load was popped before the second. |
| LockFreeQueue.SizePoppedFirst | webrtc/base/atomicops.h:132-134 | From a third thread that loads the popped counter first, Size is the items popped since plus those still there, modulo 2^32, and exactly these if they are fewer than 2^32, so then in range if and only if they are at most the capacity. |
| LockFreeQueue.SizeOutOfRangePushedFirst | webrtc/base/atomicops.h:132-134 | A run, for every capacity, in which Size is 2^32 - 1. |
| LockFreeQueue.SizeOutOfRangePoppedFirst | webrtc/base/atomicops.h:132-134 | A run, for every capacity below 2^31, in which Size is twice the capacity. |
| LockFreeQueue.WrapBreaksFifo | webrtc/base/atomicops.h:84 | For every capacity that does not divide 2^32, a run that delivers the newest item in place of the oldest. |
| LockFreeQueue.FifoForever | webrtc/base/atomicops.h:75-117 | The queue is first-in first-out in all runs if and only if its capacity is 0 or divides 2^32. |
| Base64.SymbolLookup | webrtc/base/base64.cc:32-69 | The decoding table undoes the encoding table. |
| Base64.LookupSymbol | webrtc/base/base64.cc:41-69 | No other character decodes to a symbol's value, and only the pad character to the pad code. |
| Base64.SymbolOrder | webrtc/base/base64.cc:32-35 | The alphabet is the capitals, the small letters, the digits, plus and slash, in this order. |
| Base64.SpacesAre | webrtc/base/base64.cc:41-69 | White space is blank, tab, line feed, vertical tab, form feed and carriage return. |
| Base64.OctetsOfSextets | webrtc/base/base64.cc:108-134 | Three bytes come back from their four sextets, and the zero fill leaves no bits over. |
| Base64.SextetsOfOctets | webrtc/base/base64.cc:226-240 | Four sextets come back from their three bytes. |
| Base64.EncodeQuad | webrtc/base/base64.cc:108-135 | One turn of the encoder writes the quad of the next one to three bytes, and nothing else. |
| Base64.EncodeFromArray | webrtc/base/base64.cc:98-136 | The buffer filled by index is the canonical encoding. |
| Base64.GetNextQuantum | webrtc/base/base64.cc:138-190 | The loop with its pad counting, cancelling and rollback computes the quantum of the reference scan, for every parse mode, with zero fill. |
| Base64.PushBytes | webrtc/base/base64.cc:228-240 | Appends exactly the bytes of the quantum and leaves the unused bits. |
| Base64.DecodeFromArray | webrtc/base/base64.cc:204-258 | Success, bytes and consumption are those of the reference decoding, for every combination of flags. |
| Base64.AnyScan | webrtc/base/base64.cc:138-190 | In any-character mode a quantum takes the next alphabet characters, whatever pads were counted, cancelled or skipped. |
| Base64.AnyDecoding | webrtc/base/base64.cc:204-258 | In any-character mode the decoded bytes depend only on the alphabet characters, for every pad and termination mode. |
| Base64.AnyCharacters | webrtc/base/base64.cc:204-258 | In any-character mode, for every pad and termination mode: the bytes are those of the symbols in the text; all of it is used, except from the first pad behind the last symbol on when the pads are too few; and exactly when it succeeds, by the bits left over, the pads, and whether all must be used. |
| Base64.WhiteScan | webrtc/base/base64.cc:138-190 | Skipping white space on the way leads to the same sextets and pads as never having had any. |
| Base64.WhiteDecoding | webrtc/base/base64.cc:204-258 | In white-space mode the bytes are those of the text without its white space, for every pad and termination mode; so is success, except if and only if padding is required, the bytes are a multiple of three and the text ends in white space. |
| Base64.WhiteUsed | webrtc/base/base64.cc:204-258 | In white-space mode what is left unused is, but for white space, what strict decoding of the stripped text leaves, and does not begin with white space. |
| Base64.BlankAfterEncoding | webrtc/base/base64.cc:204-258 | With white space allowed and padding required, an encoding followed by a white-space character decodes to its bytes, and succeeds if and only if it is padded. |
| Base64.StrictIsCanonical | webrtc/base/base64.cc:204-258 | Whatever strict decoding accepts is the encoding of the result. |
| Base64.StrictRoundTrip | webrtc/base/base64.cc:98-136 | Strict decoding of an encoding succeeds, uses it all and gives the bytes back. |
| Base64.StrictAcceptsCanonical | webrtc/base/base64.h:23-43 | Strict decoding succeeds with r if and only if the input is the encoding of r. |
| Base64.StrictDecoding | webrtc/base/base64.cc:204-258 | In strict mode, for every pad and termination mode: the bytes are those of the symbols at the front; used are these and, unless padding is disallowed, the pads that complete their last quantum; and exactly when it succeeds. |
| Base64.EncodingIs | webrtc/base/base64.cc:98-136 | An encoding is symbols, four for three bytes, with no bits left over, and then exactly the pads that complete the last quantum. |
| Base64.StrictNoPad | webrtc/base/base64.h:27-35 | With padding disallowed, strict decoding of a whole buffer gives r if and only if the text is the encoding of r without its pads, or that and a lone zero symbol where it ends on a whole quantum. |
| Base64.StrictAnyPad | webrtc/base/base64.h:27-35 | With padding optional, if and only if it is one of these texts or the padded encoding. |
| Base64.LoneSymbolAccepted | webrtc/base/base64.cc:226-249 | A text of one zero symbol is accepted and decodes to nothing. |
| Crc32.ShiftsLinear | webrtc/base/crc32.cc:29-35 | The shift register is linear, over any number of shifts. |
| Crc32.AddByteAtOnce | webrtc/base/crc32.cc:28-35 | Eight message bits one by one are one exclusive-or and eight shifts. |
| Crc32.TableStep | webrtc/base/crc32.cc:45-47 | One table lookup does what eight message bits do. |
| Crc32.TableValue | webrtc/base/crc32.cc:28-35 | The inner loop computes eight shifts. |
| Crc32.EnsureTable | webrtc/base/crc32.cc:24-38 | All 256 entries are right afterwards, whether or not the table was there already. |
| Crc32.StepByTable | webrtc/base/crc32.cc:45-47 | One turn of the loop adds one byte, bit-serially defined. |
| Crc32.UpdateCrc32 | webrtc/base/crc32.cc:40-49 | The table-driven loop equals the bit-serial CRC with polynomial 0xEDB88320 for every start value and buffer. |
| Crc32.CrcAppend | webrtc/base/crc32.cc:40-49 | Updating over a and then b equals updating over a followed by b. |
| Crc32.CheckValue | webrtc/base/crc32_unittest.cc:17-23 | The checksum of abc is 0x352441C2. |
| Crc32.BurstIsDetected | webrtc/base/crc32.cc:40-49 | A change confined to at most four consecutive bytes always changes the checksum. |
| DiskCache.Cache.constructor | webrtc/base/diskcache.cc:60-61 | A new cache has no entries and no folder. |
| DiskCache.Cache.InitializeEntries | webrtc/base/diskcache_win32.cc:29-58 | In any order of the files, the restored books agree with the disk if and only if every file is below 4 GiB; an entry is as old as one of its files. |
| DiskCache.Cache.Initialize | webrtc/base/diskcache.cc:67-79 | Restores the books from the files, once and only if the folder can be made, and then evicts only idle entries; success means the total is within the limit; with a reliable file system the books agree with the disk if and only if every file is below 4 GiB. |
| DiskCache.Cache.GetOrCreateEntry | webrtc/base/diskcache.cc:297-312 | A missing entry is created empty, and the totals stay right. |
| Eviction.FirstIdle | webrtc/base/diskcache.cc:225-235 | Finds the first idle entry in the order of the map, exactly if there is one. |
| Eviction.EldestFrom | webrtc/base/diskcache.cc:236-240 | The loop finds the least recently modified of the entries it is given, in use or not; of several the one it starts with, or else the first. |
| Eviction.FindVictim | webrtc/base/diskcache.cc:224-240 | Finds the entry the choice falls on; there is none exactly when no entry is idle or the first idle one is the last. |
| Eviction.VictimIsOne | webrtc/base/diskcache.cc:224-240 | The choice is determined by locks, accessors, modification times and the order of the map. |
| Eviction.EvictsOnlyIdle | webrtc/base/diskcache.cc:224-247 | Evicting down to a limit takes only idle entries and leaves the others untouched. |
| Eviction.WhenItGivesUp | webrtc/base/diskcache.cc:224-247 | Eviction gives up on idle entries if and only if the first of them is the last entry of all, or the least recently modified from there on is in use. |
| Eviction.GivesUpTooEarly | webrtc/base/diskcache.cc:224-247 | Two caches whose idle entry stays: a single one, and one that an older entry in use follows. |
| DiskCache.Cache.LockResource | webrtc/base/diskcache.cc:97-109 | Locks from unlocking, or from unlocked without accessors, and exactly so within the limit; over the limit only idle entries go first; the lock is lost on an evicted entry only over the limit and on an idle entry; with a reliable file system the entries left are exactly those eviction leaves, the lock is granted exactly when that brings the cache within its limit, and lost exactly when it took the entry. |
| DiskCache.Cache.WriteResource | webrtc/base/diskcache.cc:111-137 | A stream is given exactly under the lock and if the file can be opened; the file's old size leaves entry and total alike, and the accessor joins both counts, so the sums stay right; the source's size assertion holds unless the stream is open for writing already. |
| DiskCache.Cache.UnlockResource | webrtc/base/diskcache.cc:139-152 | Only from locked; with accessors the unlock is left pending, without them it happens and exactly what eviction takes goes. |
| DiskCache.Cache.ReadResource | webrtc/base/diskcache.cc:154-169 | A stream is given exactly while unlocked, for streams that exist and if the file can be opened; entry and total count the accessor, so the sums stay right. |
| DiskCache.Cache.ReleaseResource | webrtc/base/diskcache.cc:314-343 | The entry is always there; the accessor leaves both counts and a writer's file goes back into entry and total, so the sums stay right; the last release completes a pending unlock, and exactly what eviction takes goes. |
| DiskCache.Cache.DeleteFiles | webrtc/base/diskcache.cc:194-205 | Deletes only the resource's own streams; succeeds if and only if none is left, which a reliable file system guarantees. |
| DiskCache.Cache.DeleteResource | webrtc/base/diskcache.cc:186-210 | Removes exactly an unlocked entry without accessors, together with its size; otherwise changes nothing. |
| DiskCache.Cache.CheckLimit | webrtc/base/diskcache.cc:212-247 | Removes only idle entries, and none within the limit; success means the total is within it, and over the limit that some entry went; with a reliable file system exactly the entries go that the choice falls on one after the other, it succeeds exactly when the total is then within the limit, and the books stay right. |
| DiskCache.Cache.Purge | webrtc/base/diskcache.cc:81-95 | Refuses without a folder or while streams are out, and with a reliable file system only then; keeps the entries when some file could not be deleted; afterwards the books are right if and only if the total was 0. |
| DiskCache.Cache.Run | webrtc/base/diskcache.h:62-90 | In every run of calls the total size is the sum of entry sizes, total accessors the sum of accessors, an unlocking entry has an accessor, no entry with a live adapter goes; and if the file system is reliable and no stream is opened for writing twice at a time, books that agree with the disk agree with it after the run. |
| DiskCache.WholeLife | webrtc/base/diskcache.h:62-90 | From creation over the scan of the folder through any run of calls: with a reliable file system, files below 4 GiB and no stream opened for writing twice at a time, each entry's size is the on-disk size of its streams not being written. |
| DiskCache.ReadersExcludeWriters | webrtc/base/diskcache.cc:97-169 | Two live adapters of one resource both read or both write, and its accessor count is their number. |
| DiskCache.AdapterHasEntry | webrtc/base/diskcache.cc:314-323 | A live adapter's entry exists, with an accessor and the matching lock, so the missing-entry branch is unreachable. |
| DiskCache.ClosedSizeWithout | webrtc/base/diskcache.cc:111-137 | Opening one stream for writing takes exactly its old size out of the on-disk sum. |
| DiskCache.OpenWriterOnDisk | webrtc/base/diskcache.cc:116-136 | The books agree with the disk again after a stream was opened for writing. |
| DiskCache.CloseWriterOnDisk | webrtc/base/diskcache.cc:322-342 | The books agree with the disk again after a writer was released. |
| ByteBuffer.NetworkBytes | webrtc/base/byteorder.h:130-164 | In network order the bytes written are the big-endian bytes, on either kind of machine. |
| ByteBuffer.ValueRoundTrip | webrtc/base/bytebuffer.cc:65-172 | In every order, width and machine, a value reads back equal if and only if it fits the width. |
| ByteBuffer.BytesValueFits | webrtc/base/bytebuffer.cc:65-122 | What is read is always below the limit of its width. |
| ByteBuffer.Buffer.constructor | webrtc/base/bytebuffer.cc:25-59 | A new buffer has nothing to read. |
| ByteBuffer.Buffer.FromBytes | webrtc/base/bytebuffer.cc:33-59 | A buffer made from bytes has exactly those to read. |
| ByteBuffer.Buffer.ReadBytes | webrtc/base/bytebuffer.cc:136-144 | Takes exactly the first n unread bytes, or nothing when there are fewer. |
| ByteBuffer.Buffer.Consume | webrtc/base/bytebuffer.cc:209-214 | Skips n unread bytes, or nothing; marks stay good. |
| ByteBuffer.Buffer.Resize | webrtc/base/bytebuffer.cc:191-207 | Keeps the unread bytes up to the size, in the old or in larger memory; invalidates marks. |
| ByteBuffer.Buffer.ReserveWriteBuffer | webrtc/base/bytebuffer.cc:182-189 | Makes room behind the unread bytes without changing them; marks stay good unless data moved. |
| ByteBuffer.Buffer.WriteBytes | webrtc/base/bytebuffer.cc:178-180 | Appends to the unread bytes, and to everything a mark can reach when data did not move. |
| ByteBuffer.Buffer.Clear | webrtc/base/bytebuffer.cc:228-232 | Leaves nothing to read and no good mark. |
| ByteBuffer.Buffer.SetReadPosition | webrtc/base/bytebuffer.cc:220-226 | Succeeds exactly for a mark of the current version, and then everything from the mark is unread. |
| ByteBuffer.Buffer.WriteUInt | webrtc/base/bytebuffer.cc:146-172 | Appends the bytes of the value. |
| ByteBuffer.Buffer.ReadUInt | webrtc/base/bytebuffer.cc:65-122 | Reads the value of the next bytes, or fails and leaves the buffer as it was. |
| ByteBuffer.Buffer.WriteValues | webrtc/base/bytebuffer.cc:146-172 | Any list of typed values is appended byte for byte. |
| ByteBuffer.Buffer.ReadBack | webrtc/base/bytebuffer.cc:65-122 | Any list of typed values that fit reads back equal, in either order, and what followed is left. |
| ByteBuffer.Buffer.Apply | webrtc/base/bytebuffer.cc:136-232 | Each operation does to the unread bytes what it does to a plain byte sequence; going back to any good mark makes everything from it unread, to a stale one nothing. |
| ByteBuffer.Buffer.MarkAndReturn | webrtc/base/bytebuffer.cc:216-226 | After any mix of operations, with other marks taken and returned to in between, returning to a good mark gives the bytes unread at the mark followed by those written since; a stale mark, if nothing went back in between, leaves what the operations leave of a plain sequence. |
| HttpClient.CompleteWithin | webrtc/base/httpclient.cc:712-800 | Every completion, whatever its mode, error and response, keeps requests made plus requests still possible within the bound. |
| HttpClient.ChallengesWithin | webrtc/base/httpclient.cc:767-799 | Any list of proxy challenges restarts the request at most once per redirect. |
| HttpClient.RunWithin | webrtc/base/httpclient.cc:303-415 | Every run of completions and name lookups keeps the bound. |
| HttpClient.RequestsAreBounded | webrtc/base/httpclient.cc:337-415 | One reset and start lead to at most 2*(kMaxRedirects+1)*(retries_+1) stream requests, however network, pool and server behave. |
| HttpClient.BoundIsReached | webrtc/base/httpclient.cc:442-453 | A run that makes exactly that many requests, for every number of retries. |
| HttpClient.CompleteRedirectsSafely | webrtc/base/httpclient.cc:745-766 | A completion changes the verb only to GET and only with a redirect, and redirects only for a 3xx answer with a location, at most five times. |
| HttpClient.FinalAnswer | webrtc/base/httpclient.cc:734-738 | Another answer is awaited if and only if the code is from 100 to 199. |
| HttpClient.ChallengesMean | webrtc/base/httpclient.cc:767-799 | Of a list of challenges only the first of a known scheme matters, and only without a context and with a name: it restarts the request, or ends it with a stream error if the document cannot be sent again. |
| HttpClient.CompletionMeans | webrtc/base/httpclient.cc:712-810 | For every state and report, exactly when a completion retries, goes on to send or to receive, redirects, answers a challenge or ends, with which error, and what is remembered: success only for a whole answer without error, otherwise the engine's own error, or a stream error when something was due that the document cannot be sent again for. |
| HttpClient.OverIsFinal | webrtc/base/httpclient.cc:807-810 | A finished request stays finished in every run. |
| HttpClient.SuccessIsAnAnswer | webrtc/base/httpclient.cc:712-810 | In every run that ends without error the last thing that happened was a whole answer, received without error. |
| HttpClient.RedirectsAreSafe | webrtc/base/httpclient.cc:442-453 | In every run nothing is redirected when redirects are off, and by default whatever is sent on to another place is a GET or a HEAD. |
| HttpClient.Client.constructor | webrtc/base/httpclient.cc:294-301 | A client after reset. |
| HttpClient.Client.DoConnect | webrtc/base/httpclient.cc:398-415 | One stream request, or a lookup and no request; a connect that follows a lookup keeps the requests within the bound. |
| HttpClient.Client.DoStart | webrtc/base/httpclient.cc:337-395 | The attempts begin again with one request or lookup; a start after which fewer starts are possible keeps the requests within the bound. |
| HttpClient.Client.AnswerChallenges | webrtc/base/httpclient.cc:767-799 | The loop over challenges restarts at the first one answered, skips ignored ones and stops at refused ones. |
| HttpClient.Client.OnHttpComplete | webrtc/base/httpclient.cc:712-810 | Retries, goes on, redirects, answers or ends exactly as report and fields say, with exactly the error they say, and stays within the bound; success is only reported for a whole answer. |
| HttpClient.Client.OnResolveResult | webrtc/base/httpclient.cc:303-319 | A failed lookup completes like a failed connect; a good one asks for the stream, or for another lookup; the bound is kept. |
| HttpServer.Server.constructor | webrtc/base/httpserver.cc:28-29 | A server without connections. |
| HttpServer.Server.Recv | webrtc/base/httpserver.cc:131-138 | Receiving is only ever started with the connection's transaction in place. |
| HttpServer.Server.HandleConnection | webrtc/base/httpserver.cc:44-52 | A new connection has a new number, owns its transaction, and receives once its stream is open; a dead stream leaves nothing behind. |
| HttpServer.Server.Remove | webrtc/base/httpserver.cc:99-114 | The connection goes; its transaction is destroyed exactly when the connection had it. |
| HttpServer.Server.Unwind | webrtc/base/httpserver.cc:110-113 | SignalCloseAllComplete fires exactly when closing and no connection is left, and ends the closing. |
| HttpServer.Server.Respond | webrtc/base/httpserver.cc:147-160 | The connection never has a transaction already; it gets this one back and sends, or the transaction is destroyed. |
| HttpServer.Server.InitiateClose | webrtc/base/httpserver.cc:162-170 | Closes at once exactly when not signalling and forced, or neither sending nor without its transaction; otherwise marks the connection. |
| HttpServer.WhenDeleted | webrtc/base/httpserver.cc:73-89 | From any point of the list on, a deleted connection is touched if and only if a listed one is gone already or one turn removes a later one. |
| HttpServer.WhatIsLeft | webrtc/base/httpserver.cc:73-89 | If none is touched, what remains is what a close leaves in place and no turn removed, all marked. |
| HttpServer.Server.CloseAll | webrtc/base/httpserver.cc:73-89 | Completes at once exactly without connections; touches a deleted connection if and only if the application, told of the removal of one connection, asks for a close that removes a later one; otherwise exactly the busy or signalling connections that the application did not remove remain, all marked. |
| HttpServer.Server.OnConnectComplete | webrtc/base/httpserver.cc:202-205 | A failed connect removes the connection; otherwise receiving starts. |
| HttpServer.Server.OnRecvComplete | webrtc/base/httpserver.cc:202-212 | The transaction passes from the connection to the application, which did not have it. |
| HttpServer.Server.OnSendComplete | webrtc/base/httpserver.cc:192-195 | The application is told while the connection still owns the transaction. |
| HttpServer.Server.SendSignalled | webrtc/base/httpserver.cc:196-217 | Removed exactly when failed, marked to close or without a stream, otherwise the same connection receives again; a deleted connection is touched only if the network closed it during the signal, never through a close by the application. |
| HttpServer.Server.OnHttpClosed | webrtc/base/httpserver.cc:222-227 | A close of an idle connection removes it, also during its signal, and leaves the application what it holds. |
| HttpServer.Server.CloseWhileHeld | webrtc/base/httpserver.cc:147-170 | A graceful close while the application holds the request ends the connection if and only if the response is not keep-alive. |
| HttpServer.Server.Run | webrtc/base/httpserver.cc:44-227 | In every run of events in which the application returns only what it holds, each transaction has exactly one owner, a connection without its transaction is idle, CloseAll completions never outnumber the CloseAll calls among the events, and a signalling connection is there unless one of the events is a close by the network. |
| Event.MutexStep | webrtc/base/event.cc:68-131 | At most one thread is between lock and unlock, and it is the owner. |
| Event.SleeperStep | webrtc/base/event.cc:68-73 | While the flag is up nobody sleeps, except until the setter that raised it has broadcast. |
| Event.FlagStep | webrtc/base/event.cc:68-131 | The flag is what the completed operations make it in their order, and a wait succeeds only while it is up. |
| Event.EveryRun | webrtc/base/event.cc:56-131 | All three in every interleaving, with timeouts and spurious wake-ups, for both kinds of event. |
| Event.FailsOnlyByTimeout | webrtc/base/event.cc:81-131 | Exactly a thread's own timeout makes its wait fail; a broadcast, a spurious wake-up or another thread does not. |
| Event.UntimedWaitsDoNotFail | webrtc/base/event.cc:117-120 | In every run a wait without a time limit never returns false. |
| Event.WaitsUseUpSets | webrtc/base/event.cc:122-126 | On an auto-reset flag waits use up sets one for one. |
| Event.CallsAreDone | webrtc/base/event.cc:68-131 | In every run each call of Set, Reset or Wait is pending or done, once, and as what it was: a Set sets, a Reset resets, a Wait succeeds or fails. |
| Event.WholeSet | webrtc/base/event.cc:68-73 | From every state with the mutex free, a whole Set leaves the flag up, with one set more done and nobody asleep. |
| Event.WholeReset | webrtc/base/event.cc:75-79 | A whole Reset leaves it down, with one reset more done. |
| Event.WholeWait | webrtc/base/event.cc:81-131 | A whole Wait succeeds at once exactly when the flag is up, and then takes it down exactly on an auto-reset event; otherwise it sleeps. |
| Event.WholeResume | webrtc/base/event.cc:109-131 | A thread that is woken succeeds while the flag is up and sleeps again while it is down; timed out, it fails. |
| Event.WholeTimeout | webrtc/base/event.cc:109-131 | A sleeper whose time is up fails and leaves the flag as it is. |
| Event.AutoResetEvent | webrtc/base/event.cc:68-131 | In every interleaving successful waits never outnumber the calls of Set plus the initial signal, and with the mutex free and the event signalled no waiter is asleep. |
| Attributes.ReadQuoted | webrtc/base/httpcommon.cc:277-286 | The loop over a quoted value takes it with its escapes to the closing quote or the end. |
| Attributes.ReadBare | webrtc/base/httpcommon.cc:287-293 | An unquoted value runs exactly to the first white space or comma, or to the end. |
| Attributes.ReadName | webrtc/base/httpcommon.cc:264-268 | A name runs to the first place where a name ends. |
| Attributes.ReadAttribute | webrtc/base/httpcommon.cc:264-298 | One attribute, with the comma after it. |
| Attributes.ParseAttributes | webrtc/base/httpcommon.cc:251-299 | Terminates on every input with the attributes of the reference parse. |
| Attributes.QuoteString | webrtc/base/httpcommon.cc:705-715 | The loop escapes quotes and backslashes and nothing else. |
| Attributes.UnquoteEscaped | webrtc/base/httpcommon.cc:277-286 | Unquoting undoes quoting for every value, whatever follows (section 3.2.6 of RFC 7230). |
| Attributes.JoinParses | webrtc/base/httpcommon.cc:251-299 | Any list of attributes with good names, quoted and joined with commas, parses back to itself. |
| Attributes.ListParses | webrtc/base/httpcommon.cc:251-299 | Any list of attributes with good names, quoted, with plain values or without values, in any mix, is read as it is meant. |
| Attributes.ParsedNamesAreGood | webrtc/base/httpcommon.cc:209-222 | The parser never returns a name with white space or with an equals sign before another character. |
| Attributes.RoundTripIff | webrtc/base/httpcommon.cc:251-299 | A list survives joining and parsing if and only if all its names are good. |

## Left out

- Socket, stream, thread and signal internals: they are nondeterministic environments. A successful transfer moves at least one byte, and the end of a stream stays the end.
- Leader parsing and the header-complete callback: functions of the line and of what was reported, which may fail and may change the data size.
- Integer widths in the HTTP engine: `size_t` and `unsigned long` have 64 bits, and an oversized content length wraps modulo 2^32 after saturating, as the C library does it.
- The leader of a sent message: it fits the buffer together with two line ends.
- Bytes of the buffer beyond its length, such as the terminator a formatted print leaves behind.
- The pull-mode document stream and its helper (`HttpBase::DocumentStream`), and attach, detach and abort: other ways to drive the same parser.
- HttpSender.Sender.FlushData: takes the number of turns as a parameter, because the loop of the source need not end; the claims hold after every number of turns.
- HttpReceiver.Receiver.DoReceiveLoop: which stream errors occur is left open, and whether the user takes over the document stream is fixed beforehand.
- Listening sockets and `SendRaw`: no property of their own.
- Hardware memory order in the queue: loads, stores and increments are atomic steps in program order, which is what the barrier is there for. `ClearAndResizeUnsafe` must not run concurrently and is left out.
- Decode flags as bit masks: each combination is a value of a datatype. Absent modes, `GetNextBase64Char` and `IsBase64Encoded` are left out.
- DiskCache.Cache.LockResource: when an evicted entry is locked the source writes to freed memory; the model only says that the lock is lost.
- DiskCache.Cache.Initialize: called on a cache nothing was asked of yet; file naming and creating the folder are left out.
- DiskCache.Cache.CheckLimit: where the source looks past the end of the map the model gives up; with a file system that refuses to delete files, how far the eviction gets is left open. The order of names is any order.
- DiskCache.Cache.WriteResource: called for an entry that exists, as are ReadResource and UnlockResource; the source asserts or dereferences it.
- The scoped `CacheLock`: it only calls the lock operations.
- ByteBuffer.Buffer.MarkAndReturn: room that is reserved and not filled is not among the operations, because its bytes are whatever memory held; reserving and filling is a write.
- ByteBuffer.Buffer.SetReadPosition: the version counter does not wrap around, and a mark of the current version comes from this buffer.
- HTTP client caching and validation, the Windows authentication schemes, and the text of digest answers: only which scheme makes a context matters for the bound.
- HttpClient.Client.DoStart: the headers it sets, and the requirement that no transfer encoding is set, are left out.
- HttpServer.Server.CloseAll: what the application asks for at each removal is fixed beforehand; when a deleted connection is touched the model stops there; a transaction counts as destroyed when its connection is removed.
- Event timeouts: the time arithmetic is left out; a timed wait may time out at any moment, and the thread library reports no other error.
- Attributes.ListParses: behind a name without a value there is a blank and no comma, because the parser takes a comma into such a name. `HttpComposeAttributes` is left out.
- Url, FlagList, firewall, `Buffer`, and the string and crypto helpers.
- Smoothers, filters and samplers in floating point, and the Windows, dbus and file-lock plumbing.
