/** Packets over a byte stream: a 16-bit length before each packet. */
module Framing {
  import opened ByteOrder
  import Memory

  const MAX_PACKET_SIZE: nat := 64 * 1024
  const LENGTH_SIZE: nat := 2
  const BUFFER_SIZE: nat := MAX_PACKET_SIZE + LENGTH_SIZE

  type Packet = seq<byte>

  /** A packet behind its length, which is cut to 16 bits. */
  function Frame(p: Packet): seq<byte> {
    BigEndian(|p| % 0x1_0000, LENGTH_SIZE) + p
  }

  function Frames(ps: seq<Packet>): seq<byte> {
    if ps == [] then [] else Frames(ps[..|ps| - 1]) + Frame(ps[|ps| - 1])
  }

  datatype Reassembly = Reassembly(packets: seq<Packet>, rest: seq<byte>)

  /** The length a stream announces for its first packet. */
  function Announced(s: seq<byte>): (n: nat)
    requires |s| >= LENGTH_SIZE
    ensures n <= 0xFFFF
  {
    FromBigEndianRoundTrip(s[..LENGTH_SIZE]);
    assert Power256(2) == 0x1_0000;
    FromBigEndian(s[..LENGTH_SIZE])
  }

  /** The whole packets at the front of a stream, and the bytes after them. */
  function Deframe(s: seq<byte>): Reassembly
    decreases |s|
  {
    if |s| < LENGTH_SIZE || |s| < LENGTH_SIZE + Announced(s) then Reassembly([], s)
    else
      var end := LENGTH_SIZE + Announced(s);
      var more := Deframe(s[end..]);
      Reassembly([s[LENGTH_SIZE..end]] + more.packets, more.rest)
  }

  predicate HasPacket(s: seq<byte>) {
    |s| >= LENGTH_SIZE && |s| >= LENGTH_SIZE + Announced(s)
  }

  /** Where the first whole packet ends. */
  function PacketEnd(s: seq<byte>): (n: nat)
    requires HasPacket(s)
    ensures LENGTH_SIZE <= n <= |s|
  {
    LENGTH_SIZE + Announced(s)
  }

  lemma DeframeStep(s: seq<byte>)
    ensures !HasPacket(s) ==> Deframe(s) == Reassembly([], s)
    ensures HasPacket(s) ==>
              var more := Deframe(s[PacketEnd(s)..]);
              Deframe(s) == Reassembly([s[LENGTH_SIZE..PacketEnd(s)]] + more.packets, more.rest)
  {
    hide Announced;
  }

  /** Reassembly may stop anywhere and go on with what was left. */
  lemma {:induction false} DeframeAppend(a: seq<byte>, b: seq<byte>)
    ensures var r := Deframe(a);
            var more := Deframe(r.rest + b);
            Deframe(a + b) == Reassembly(r.packets + more.packets, more.rest)
    decreases |a|
  {
    hide Announced, Deframe;
    DeframeStep(a);
    if HasPacket(a) {
      AnnouncedByPrefix(a, b);
      DeframeStep(a + b);
      var end := PacketEnd(a);
      DeframeAppend(a[end..], b);
      assert (a + b)[LENGTH_SIZE..end] == a[LENGTH_SIZE..end] && (a + b)[end..] == a[end..] + b;
    } else {
      assert [] + Deframe(a + b).packets == Deframe(a + b).packets;
    }
  }

  lemma AnnouncedByPrefix(a: seq<byte>, b: seq<byte>)
    requires |a| >= LENGTH_SIZE
    ensures Announced(a + b) == Announced(a)
  {
    assert (a + b)[..LENGTH_SIZE] == a[..LENGTH_SIZE];
  }

  /** What is left over is less than one frame of the largest size, and holds no whole packet. */
  lemma {:induction false} LeftoverIsShort(s: seq<byte>)
    ensures var rest := Deframe(s).rest;
            |rest| < LENGTH_SIZE + 0xFFFF && |rest| < BUFFER_SIZE && Deframe(rest) == Reassembly([], rest)
    decreases |s|
  {
    if |s| < LENGTH_SIZE || |s| < LENGTH_SIZE + Announced(s) {
    } else {
      LeftoverIsShort(s[LENGTH_SIZE + Announced(s)..]);
    }
  }

  lemma FrameAnnounces(p: Packet, rest: seq<byte>)
    ensures Announced(Frame(p) + rest) == |p| % 0x1_0000
  {
    BigEndianRoundTrip(|p| % 0x1_0000, LENGTH_SIZE);
    assert Power256(2) == 0x1_0000;
    assert (Frame(p) + rest)[..LENGTH_SIZE] == BigEndian(|p| % 0x1_0000, LENGTH_SIZE);
  }

  /** One packet survives framing exactly when its length fits the 16-bit prefix. */
  lemma FrameRoundTrip(p: Packet)
    ensures Deframe(Frame(p)) == Reassembly([p], []) <==> |p| <= 0xFFFF
  {
    FrameAnnounces(p, []);
    var s := Frame(p);
    assert s + [] == s;
    var end := LENGTH_SIZE + |p| % 0x1_0000;
    if |p| <= 0xFFFF {
      assert s[LENGTH_SIZE..end] == p && s[end..] == [];
    } else {
      assert |Deframe(s).packets[0]| == |p| % 0x1_0000;
    }
  }

  /** Any number of packets, back to back. */
  lemma {:induction false} FramesRoundTrip(ps: seq<Packet>)
    requires forall i | 0 <= i < |ps| :: |ps[i]| <= 0xFFFF
    ensures Deframe(Frames(ps)) == Reassembly(ps, [])
    decreases |ps|
  {
    if ps != [] {
      var before, last := ps[..|ps| - 1], ps[|ps| - 1];
      hide Frame;
      FramesRoundTrip(before);
      FrameRoundTrip(last);
      DeframeAppend(Frames(before), Frame(last));
      assert [] + Frame(last) == Frame(last);
      assert before + [last] == ps;
    }
  }

  /** A receiver that saw only part of the stream has a prefix of the packets. */
  lemma PartialStream(ps: seq<Packet>, arrived: seq<byte>)
    requires forall i | 0 <= i < |ps| :: |ps[i]| <= 0xFFFF
    requires arrived <= Frames(ps)
    ensures Deframe(arrived).packets <= ps
  {
    hide Deframe, Frames;
    FramesRoundTrip(ps);
    var missing := Frames(ps)[|arrived|..];
    assert arrived + missing == Frames(ps);
    DeframeAppend(arrived, missing);
  }

  /**
   * A connected socket: `wire` is what it took for sending, `arrived` what it delivered, `offers` what it
   * was asked to send and what it answered, and `rooms` for how much room it was asked to deliver.
   */
  class TcpSocket {
    ghost var wire: seq<byte>
    ghost var arrived: seq<byte>
    ghost var offers: seq<(seq<byte>, int)>
    ghost var rooms: seq<nat>

    constructor ()
      ensures wire == [] && arrived == []
    {
      wire, arrived, offers, rooms := [], [], [], [];
    }

    /** Takes some of the data and says how much; zero or less means nothing was taken. */
    method Send(data: seq<byte>) returns (res: int)
      modifies this`wire, this`offers
      ensures res <= |data|
      ensures wire == old(wire) + if res > 0 then data[..res] else []
      ensures offers == old(offers) + [(data, res)]
    {
      res := *;
      if 0 < res <= |data| {
        wire := wire + data[..res];
      } else {
        res := if res > 0 then 0 else res;
      }
      offers := offers + [(data, res)];
    }

    /** Delivers at most `room` bytes; a negative length is an error or a block. */
    method Recv(room: nat) returns (len: int, bytes: seq<byte>)
      modifies this`arrived, this`rooms
      ensures len == |bytes| <= room || (len < 0 && bytes == [])
      ensures arrived == old(arrived) + bytes
      ensures rooms == old(rooms) + [room]
    {
      rooms := rooms + [room];
      bytes := *;
      if |bytes| <= room {
        arrived := arrived + bytes;
        return |bytes|, bytes;
      }
      return -1, [];
    }
  }

  class PacketSocket {
    const socket: TcpSocket
    const inbuf: array<byte>
    const outbuf: array<byte>
    var inpos: nat
    var outpos: nat
    /** Packets handed to SignalReadPacket, in order. */
    var signalled: seq<Packet>
    /** Packets Send neither refused nor dropped, in order. */
    ghost var accepted: seq<Packet>

    constructor (socket: TcpSocket)
      requires socket.wire == [] && socket.arrived == []
      ensures Valid() && this.socket == socket && fresh(inbuf) && fresh(outbuf)
      ensures accepted == [] && signalled == []
    {
      this.socket := socket;
      inbuf := new byte[BUFFER_SIZE](_ => 0);
      outbuf := new byte[BUFFER_SIZE](_ => 0);
      inpos, outpos, signalled, accepted := 0, 0, [], [];
    }

    ghost predicate Valid()
      reads this, socket, inbuf, outbuf
    {
      SenderValid() && ReceiverValid() && inbuf != outbuf
    }

    /** The wire followed by the out-buffer is the frames of the accepted packets. */
    ghost predicate SenderValid()
      reads this, socket, outbuf
    {
      && outbuf.Length == BUFFER_SIZE
      && outpos <= BUFFER_SIZE
      && socket.wire + outbuf[..outpos] == Frames(accepted)
      && forall i | 0 <= i < |accepted| :: |accepted[i]| <= 0xFFFF
    }

    /** What was signalled and what is kept is what the reassembly of everything that arrived gives. */
    ghost predicate ReceiverValid()
      reads this, socket, inbuf
    {
      && inbuf.Length == BUFFER_SIZE
      && inpos < BUFFER_SIZE
      && Deframe(socket.arrived) == Reassembly(signalled, inbuf[..inpos])
    }

    method AppendToOutBuffer(data: seq<byte>)
      requires outbuf.Length == BUFFER_SIZE && outpos + |data| < BUFFER_SIZE
      modifies this`outpos, outbuf
      ensures outpos == old(outpos) + |data|
      ensures outbuf[..outpos] == old(outbuf[..outpos]) + data
    {
      Memory.Copy(outbuf, outpos, data);
      outpos := outpos + |data|;
      assert outbuf[..outpos] == old(outbuf[..outpos]) + data;
    }

    /** The length, narrowed to 16 bits, and then the packet. */
    method QueueFrame(packet: Packet)
      requires outbuf.Length == BUFFER_SIZE && outpos == 0 && LENGTH_SIZE + |packet| < BUFFER_SIZE
      modifies this`outpos, outbuf
      ensures outpos <= BUFFER_SIZE && outbuf[..outpos] == Frame(packet)
    {
      hide BigEndian;
      AppendToOutBuffer(BigEndian(|packet| % 0x1_0000, LENGTH_SIZE));
      AppendToOutBuffer(packet);
    }

    /** Moves bytes from the front of the out-buffer to the wire; together they stay the same. */
    method FlushOutBuffer() returns (res: int)
      requires outbuf.Length == BUFFER_SIZE && outpos <= BUFFER_SIZE
      modifies this`outpos, socket`wire, socket`offers, outbuf
      ensures outpos <= BUFFER_SIZE
      ensures socket.wire + outbuf[..outpos] == old(socket.wire + outbuf[..outpos])
      ensures socket.offers == old(socket.offers) + [(old(outbuf[..outpos]), res)]
      ensures res <= 0 ==> outpos == old(outpos) && socket.wire == old(socket.wire)
      ensures res > 0 ==> outpos == old(outpos) - res
    {
      ghost var all := outbuf[..outpos];
      res := socket.Send(outbuf[..outpos]);
      if res <= 0 {
        return;
      }
      outpos := outpos - res;
      Memory.MoveToFront(outbuf, res, outpos);
      assert outbuf[..outpos] == all[res..];
      Regroup(old(socket.wire), all, res);
    }

    /**
     * Send: refuses what is over the buffer size, drops a packet while an earlier one is still
     * going out or when the wire takes nothing, and otherwise accepts it whole. A packet that is not
     * accepted leaves no byte on the wire. Packets of 65536 to 65538 bytes pass the first test but not
     * the assertion made when they are buffered: then the program stops.
     */
    method Send(packet: Packet) returns (res: int, aborted: bool, ghost taken: bool)
      requires Valid()
      modifies this`outpos, this`accepted, socket`wire, socket`offers, outbuf
      ensures Valid()
      ensures if old(outpos) > 0 || |packet| > 0xFFFF then socket.offers == old(socket.offers)
              else exists answer :: && socket.offers == old(socket.offers) + [(Frame(packet), answer)]
                                    && taken == (answer > 0) && res == if taken then |packet| else answer
      ensures accepted == old(accepted) + if taken then [packet] else []
      ensures !taken ==> socket.wire == old(socket.wire) && outpos == old(outpos)
      ensures taken ==> !aborted && res == |packet| && |socket.wire| > |old(socket.wire)|
      ensures taken ==> old(outpos) == 0 && |packet| <= 0xFFFF
      ensures aborted <==> old(outpos) == 0 && 0x1_0000 <= |packet| <= BUFFER_SIZE
      ensures |packet| > BUFFER_SIZE ==> res == -1 && !taken
      ensures |packet| <= BUFFER_SIZE && old(outpos) > 0 ==> res == |packet| && !taken
      ensures |packet| <= 0xFFFF && old(outpos) == 0 ==> taken == (res > 0) || packet == []
    {
      hide Frames, Frame, Deframe;
      if |packet| > BUFFER_SIZE {
        return -1, false, false;
      }
      if outpos != 0 {
        return |packet|, false, false;
      }
      if LENGTH_SIZE + |packet| >= BUFFER_SIZE {
        return 0, true, false;
      }
      QueueFrame(packet);
      res := FlushOutBuffer();
      if res <= 0 {
        outpos := 0;
        assert socket.wire + outbuf[..0] == socket.wire + old(outbuf[..outpos]);
        return res, false, false;
      }
      accepted := accepted + [packet];
      FramesGrow(old(accepted), packet);
      assert old(socket.wire + outbuf[..outpos]) == old(socket.wire);
      return |packet|, false, true;
    }

    /** The socket became writable: flushes, and signals readiness once nothing is pending. */
    method OnWriteEvent() returns (ready: bool)
      requires Valid()
      modifies this`outpos, socket`wire, socket`offers, outbuf
      ensures Valid()
      ensures if old(outpos) == 0 then socket.offers == old(socket.offers)
              else exists answer :: && socket.offers == old(socket.offers) + [(old(outbuf[..outpos]), answer)]
                                    && outpos == old(outpos) - if answer > 0 then answer else 0
      ensures ready == (outpos == 0)
      ensures ready ==> socket.wire == Frames(accepted)
    {
      if outpos > 0 {
        var res := FlushOutBuffer();
      }
      ready := outpos == 0;
      if ready {
        assert socket.wire + outbuf[..0] == socket.wire;
      }
    }

    /** Signals the first packet in the buffer if it is whole, and moves what follows to the front. */
    method TakePacket() returns (found: bool)
      requires inbuf.Length == BUFFER_SIZE && inpos <= BUFFER_SIZE
      modifies this`inpos, this`signalled, inbuf
      ensures var all := old(inbuf[..inpos]);
              && found == HasPacket(all)
              && (found ==> inpos == old(inpos) - PacketEnd(all) && inbuf[..inpos] == all[PacketEnd(all)..]
                            && signalled == old(signalled) + [all[LENGTH_SIZE..PacketEnd(all)]])
              && (!found ==> inpos == old(inpos) && signalled == old(signalled) && inbuf[..] == old(inbuf[..]))
    {
      hide Announced;
      ghost var all := inbuf[..inpos];
      if inpos < LENGTH_SIZE {
        return false;
      }
      var length := GetBE16(inbuf);
      assert all[..LENGTH_SIZE] == inbuf[..LENGTH_SIZE];
      AnnouncedIs(all, length);
      var end := LENGTH_SIZE + length;
      if inpos < end {
        return false;
      }
      var packet := inbuf[LENGTH_SIZE..end];
      assert all[LENGTH_SIZE..end] == packet;
      signalled := signalled + [packet];
      inpos := inpos - end;
      Memory.MoveToFront(inbuf, end, inpos);
      assert all[end..] == inbuf[..inpos];
      return true;
    }

    /** Signals every whole packet in the buffer and moves what is left to its front. */
    method ProcessInput()
      requires inbuf.Length == BUFFER_SIZE && inpos <= BUFFER_SIZE
      modifies this`inpos, this`signalled, inbuf
      ensures inpos <= old(inpos)
      ensures Reassembly(signalled, inbuf[..inpos])
           == Reassembly(old(signalled) + Deframe(old(inbuf[..inpos])).packets, Deframe(old(inbuf[..inpos])).rest)
    {
      hide Deframe, HasPacket, PacketEnd;
      ghost var r := Deframe(inbuf[..inpos]);
      var found := true;
      while found
        invariant inpos <= old(inpos)
        invariant signalled + Deframe(inbuf[..inpos]).packets == old(signalled) + r.packets
        invariant Deframe(inbuf[..inpos]).rest == r.rest
        invariant !found ==> !HasPacket(inbuf[..inpos])
        decreases inpos, found
      {
        ghost var all, before := inbuf[..inpos], signalled;
        DeframeStep(all);
        found := TakePacket();
        if found {
          ghost var packet, rest := all[LENGTH_SIZE..PacketEnd(all)], Deframe(inbuf[..inpos]).packets;
          assert before + ([packet] + rest) == before + [packet] + rest;
        }
      }
      DeframeStep(inbuf[..inpos]);
    }

    /**
     * Readable: takes what the socket has and signals the packets it completes. There is always
     * room to receive into, and the overflow branch of the source is never taken.
     */
    method OnReadEvent() returns (overflow: bool)
      requires Valid()
      modifies this`inpos, this`signalled, socket`arrived, socket`rooms, inbuf
      ensures Valid() && socket.rooms == old(socket.rooms) + [BUFFER_SIZE - old(inpos)]
      ensures old(socket.arrived) <= socket.arrived && old(signalled) <= signalled
      ensures !overflow
    {
      var len, bytes := socket.Recv(BUFFER_SIZE - inpos);
      if len < 0 {
        assert socket.arrived == old(socket.arrived);
        return false;
      }
      Memory.Copy(inbuf, inpos, bytes);
      inpos := inpos + len;
      assert inbuf[..inpos] == old(inbuf[..inpos]) + bytes;
      DeframeAppend(old(socket.arrived), bytes);
      LeftoverIsShort(inbuf[..inpos]);
      ProcessInput();
      overflow := inpos >= BUFFER_SIZE;
    }
  }

  lemma Regroup(wire: seq<byte>, pending: seq<byte>, k: nat)
    requires k <= |pending|
    ensures (wire + pending[..k]) + pending[k..] == wire + pending
  {
  }

  lemma FramesGrow(ps: seq<Packet>, p: Packet)
    ensures Frames(ps + [p]) == Frames(ps) + Frame(p)
  {
    assert (ps + [p])[..|ps|] == ps;
  }

  method GetBE16(memory: array<byte>) returns (v: nat)
    requires memory.Length >= 2
    ensures v == FromBigEndian(memory[..2])
  {
    var high: int, low: int := memory[0], memory[1];
    v := high * 256 + low;
    var two := memory[..2];
    assert two[..1] == [memory[0]] && [memory[0]][..0] == [];
    assert FromBigEndian([memory[0]]) == memory[0];
  }

  lemma AnnouncedIs(s: seq<byte>, n: nat)
    requires |s| >= LENGTH_SIZE && n == FromBigEndian(s[..LENGTH_SIZE])
    ensures n == Announced(s)
  {
  }

  /**
   * End to end: a receiver that got any part of a sender's wire, in any fragments, has signalled a
   * prefix of the accepted packets, whole and in order; all of them once everything arrived.
   */
  lemma PacketsDelivered(sender: PacketSocket, receiver: PacketSocket)
    requires sender.SenderValid() && receiver.ReceiverValid()
    requires receiver.socket.arrived <= sender.socket.wire
    ensures receiver.signalled <= sender.accepted
    ensures sender.outpos == 0 && receiver.socket.arrived == sender.socket.wire ==>
              receiver.signalled == sender.accepted && receiver.inpos == 0
  {
    var wire, sent := sender.socket.wire, Frames(sender.accepted);
    assert wire <= sent by {
      assert wire + sender.outbuf[..sender.outpos] == sent;
    }
    PartialStream(sender.accepted, receiver.socket.arrived);
    if sender.outpos == 0 {
      assert wire + sender.outbuf[..0] == wire;
      FramesRoundTrip(sender.accepted);
    }
  }
}
