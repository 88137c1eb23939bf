/** A non-blocking connection with buffered input and output (framework/tcp_data_handler.cpp). */
module TcpDataHandlers {
  import opened Bytes
  import opened Buffers
  import opened Framing
  import opened CsPackets

  // ------------------------------------------------------------ the socket

  /** What the network does at each `recv`: bring some bytes, none yet, or fail. */
  datatype Arrival = Arrives(limit: nat) | NothingYet | ReadFails

  /** What the network does at each `send`: take some bytes, none for now, or fail. */
  datatype Acceptance = Accepts(limit: nat) | NotNow | WriteFails

  class Socket {
    const arrivals: nat -> Arrival
    const acceptances: nat -> Acceptance
    const finished: bool        // whether the peer closes after its last byte
    var incoming: seq<byte>     // what the peer has sent or will send, not yet received
    var sent: seq<byte>         // what the peer's side has accepted
    var recvs: nat
    var sends: nat

    constructor (incoming: seq<byte>, finished: bool, arrivals: nat -> Arrival, acceptances: nat -> Acceptance)
      ensures this.incoming == incoming && sent == [] && recvs == sends == 0
    {
      this.incoming, this.finished, this.arrivals, this.acceptances := incoming, finished, arrivals, acceptances;
      sent, recvs, sends := [], 0, 0;
    }

    /**
     `recv`: a prefix of what is incoming, of at most `capacity` bytes.  Zero means the end
     of the stream, or that there was no room to receive into; -1 is an error, which `again`
     tells from "try again later".
     */
    method Recv(capacity: nat) returns (n: int, bytes: seq<byte>, again: bool)
      modifies this`incoming, this`recvs
      ensures old(incoming) == bytes + incoming && |bytes| <= capacity
      ensures bytes == old(NextReceived(capacity))
      ensures n == -1 || n == |bytes|
      ensures n <= 0 ==> bytes == []
      ensures n > 0 ==> arrivals(old(recvs)).Arrives?
      ensures n == 0 <==> capacity == 0 || (arrivals(old(recvs)).Arrives? && old(incoming) == [] && finished)
      ensures n == -1 ==> if again then Dry() else arrivals(old(recvs)).ReadFails?
      ensures n == -1 && again ==> !arrivals(old(recvs)).ReadFails?
      ensures recvs == old(recvs) + 1
    {
      bytes, again := [], true;
      var arrival := arrivals(recvs);
      recvs := recvs + 1;
      if capacity == 0 {
        return 0, [], true;
      }
      match arrival {
        case ReadFails => return -1, [], false;
        case NothingYet => return -1, [], true;
        case Arrives(limit) =>
          if incoming == [] {
            return if finished then 0 else -1, [], true;
          }
          var most := if capacity < |incoming| then capacity else |incoming|;
          n := if limit < 1 then 1 else if limit > most then most else limit;
          bytes := incoming[..n];
          incoming := incoming[n..];
      }
    }

    /** The bytes that the next `recv` into `capacity` bytes will bring: at least one, if any can come. */
    function NextReceived(capacity: nat): (bytes: seq<byte>)
      reads `incoming, `recvs
      ensures bytes <= incoming && |bytes| <= capacity
      ensures capacity > 0 && incoming != [] && arrivals(recvs).Arrives? ==> bytes != []
    {
      match arrivals(recvs)
      case Arrives(limit) =>
        var most := if capacity < |incoming| then capacity else |incoming|;
        incoming[..if limit > most then most else if limit < 1 && most > 0 then 1 else limit]
      case _ => []
    }

    /** The last `recv` found nothing to read for now. */
    predicate Dry()
      reads `incoming, `recvs
    {
      recvs > 0 && (arrivals(recvs - 1).NothingYet? || (incoming == [] && !finished))
    }

    /** What the next `send` of `size` bytes will answer. */
    function NextTaken(size: int): (n: int)
      reads `sends
      ensures size >= 0 ==> -1 <= n <= size
    {
      match acceptances(sends)
      case WriteFails => -1
      case NotNow => -1
      case Accepts(limit) => if limit < size then limit else size
    }

    /** Whether the next `send` will fail for good. */
    predicate Failing()
      reads `sends
    {
      acceptances(sends).WriteFails?
    }

    /** `send`: a prefix of `bytes` is accepted; -1 is an error, as for `Recv`. */
    method Send(bytes: seq<byte>) returns (n: int, again: bool)
      modifies this`sent, this`sends
      ensures n == old(NextTaken(|bytes|)) && -1 <= n <= |bytes| && sends == old(sends) + 1
      ensures sent == old(sent) + if n > 0 then bytes[..n] else []
      ensures n < 0 && !again <==> old(Failing())
    {
      again := true;
      var acceptance := acceptances(sends);
      sends := sends + 1;
      match acceptance {
        case WriteFails => return -1, false;
        case NotNow => return -1, true;
        case Accepts(limit) =>
          n := if limit < |bytes| then limit else |bytes|;
          sent := sent + bytes[..n];
      }
    }
  }

  // ------------------------------------------------------------ the connection

  const MIN_WRITE_SIZE := 1024
  const MAX_WRITE_SIZE := 0x100_0000

  /** How the connection stands; anything but `Open` is what was last given to `handle_error`. */
  datatype Status = Open | PacketError(code: int) | NoMemory | PeerClosed | SystemError

  // ------------------------------------------------------------ what input amounts to

  /**
   What has been delivered, what is buffered and whether an error was raised are what
   parsing the whole received stream at once gives.
   */
  ghost predicate InputAt(received: seq<byte>, delivered: seq<Packet>, live: seq<byte>, status: Status, info: PacketInfo, verdict: Verdict) {
    var p := Extract(received, [], info, verdict);
    && p.delivered == delivered && p.rest == live
    && (if p.error != 0 then status == PacketError(p.error) else !status.PacketError?)
  }

  /** The buffered bytes are still to be parsed. */
  ghost predicate Pending(received: seq<byte>, delivered: seq<Packet>, live: seq<byte>, info: PacketInfo, verdict: Verdict) {
    Extract(received, [], info, verdict) == Extract(live, delivered, info, verdict)
  }

  lemma Arrived(received: seq<byte>, delivered: seq<Packet>, live: seq<byte>, status: Status,
                info: PacketInfo, verdict: Verdict, bytes: seq<byte>)
    requires Stable(info) && InputAt(received, delivered, live, status, info, verdict) && !status.PacketError?
    ensures Pending(received + bytes, delivered, live + bytes, info, verdict)
  {
    ExtractInParts(received, bytes, [], info, verdict);
  }

  lemma Waiting(received: seq<byte>, delivered: seq<Packet>, live: seq<byte>, status: Status, info: PacketInfo, verdict: Verdict)
    requires Pending(received, delivered, live, info, verdict) && !status.PacketError?
    requires live != [] ==> Waits(live, info(live))
    ensures InputAt(received, delivered, live, status, info, verdict)
  {
  }

  lemma NeedsMore(live: seq<byte>, info: PacketInfo, needed: int)
    requires info(live) == Info(0, needed) && |live| < needed <= MAX_PACKET_SIZE
    ensures Waits(live, info(live)) && info(live).size == needed
  {
  }

  /**
   What was received is the delivered packets and then what is buffered, and there is an
   error of a packet exactly when parsing stopped for one; a refused packet is still buffered.
   */
  lemma InputConserves(received: seq<byte>, delivered: seq<Packet>, live: seq<byte>, status: Status,
                       info: PacketInfo, verdict: Verdict)
    requires InputAt(received, delivered, live, status, info, verdict)
    ensures status.PacketError? ==> status.code != 0 && ComesApart(received, [], Parse(delivered, live, status.code), info, verdict)
    ensures !status.PacketError? ==> ComesApart(received, [], Parse(delivered, live, 0), info, verdict)
  {
    hide ComesApart, Extract;
    ExtractConserves(received, [], info, verdict);
  }

  /** An answer that is an error, or a size out of range, ends the stream there. */
  lemma Refused(received: seq<byte>, delivered: seq<Packet>, live: seq<byte>, info: PacketInfo, verdict: Verdict)
    requires Pending(received, delivered, live, info, verdict) && live != []
    ensures info(live).code != 0 ==> InputAt(received, delivered, live, PacketError(info(live).code), info, verdict)
    ensures info(live).code == 0 && (info(live).size < 1 || info(live).size > 4194304) ==>
              InputAt(received, delivered, live, PacketError(3), info, verdict)
  {
  }

  lemma Delivered(received: seq<byte>, delivered: seq<Packet>, live: seq<byte>, info: PacketInfo, verdict: Verdict)
    requires Pending(received, delivered, live, info, verdict) && live != []
    requires info(live).code == 0 && 1 <= info(live).size <= |live| && info(live).size <= MAX_PACKET_SIZE
    ensures var n := info(live).size;
            var d := delivered + [live[..n]];
            if verdict(d) != 0 then InputAt(received, d, live, PacketError(verdict(d)), info, verdict)
            else Pending(received, d, live[n..], info, verdict)
  {
  }

  /**
   What the socket has accepted and what is buffered is what was queued, in order; and
   while anything is buffered, write interest is registered.
   */
  ghost predicate Balanced(sent: seq<byte>, live: seq<byte>, queued: seq<byte>, interest: bool) {
    sent + live == queued && (live != [] ==> interest)
  }

  /** A connection that has received a run of encoded packets has delivered just those, and holds nothing back. */
  lemma DeliversPackets(received: seq<byte>, delivered: seq<Packet>, live: seq<byte>, status: Status, verdict: Verdict,
                        ps: seq<Typed>)
    requires InputAt(received, delivered, live, status, ClientInfo, verdict)
    requires forall p :: p in ps ==> WireSize(p.packetType, p.message) < 65535
    requires received == Flatten(Wires(ps)) && AllAccepted(Wires(ps), verdict, [])
    ensures delivered == Wires(ps) && live == [] && !status.PacketError?
  {
    WiresFramed(ps);
    ClientInfoStable();
    FramedStream(Wires(ps), [], ClientInfo, verdict);
    assert [] + Wires(ps) == Wires(ps);
  }

  /** The free space after the live bytes is not empty, and enough for the packet under way. */
  predicate RoomFor(live: seq<byte>, free: int, info: PacketInfo) {
    free >= 1 && (live != [] ==> free >= info(live).size - |live|)
  }

  class TcpDataHandler {
    const rbuf: Buffer
    const sbuf: Buffer
    const info: PacketInfo         // what `get_packet_info` answers
    const verdict: Verdict         // what `process_packet` answers
    const heap: nat -> nat         // what each `realloc` answers
    var allocations: nat
    var sock: Socket?
    var status: Status
    var writeInterest: bool        // whether EVENT_WRITE is registered
    var maxWriteSize: int
    var readAll: bool
    var delivered: seq<Packet>     // what `process_packet` was called with

    ghost var received: seq<byte>  // every byte received on this connection
    ghost var queued: seq<byte>    // every byte of the sends that returned 0

    ghost predicate Valid()
      reads this, rbuf, sbuf
    {
      && Stable(info) && rbuf != sbuf && rbuf.block != sbuf.block
      && rbuf.Valid() && sbuf.Valid()
      && (sock == null ==> rbuf.Drained() && sbuf.Drained())
      && maxWriteSize >= MIN_WRITE_SIZE
    }

    ghost predicate InputInv()
      requires Valid()
      reads this, rbuf, sbuf, rbuf.block
    {
      InputAt(received, delivered, rbuf.Contents(), status, info, verdict)
    }

    /** There is room for the next `recv`, and for the rest of the packet under way. */
    ghost predicate Room()
      requires rbuf.Valid()
      reads this, rbuf, rbuf.block
    {
      RoomFor(rbuf.Contents(), rbuf.end - rbuf.space, info)
    }

    /** The packet under way does not fit, and there was no memory for it. */
    ghost predicate Starved()
      reads this, rbuf, rbuf.block
    {
      rbuf.Valid() && !Room() && allocations > 0 && heap(allocations - 1) == NULL
    }

    /** No more than half of a buffer lies idle before its data. */
    predicate Compact(b: Buffer)
      reads b
    {
      b.data - b.begin <= (b.end - b.begin) / 2
    }

    /** What holds of the input between two rounds of `on_read`. */
    ghost predicate Listening()
      reads this, rbuf, sbuf, rbuf.block
    {
      Valid() && InputInv() && (status == Open ==> Room() && Compact(rbuf))
    }

    /** Output: nothing lost, reordered or stranded. */
    ghost predicate OutputInv()
      requires Valid()
      reads this, sock, sbuf, sbuf.block, rbuf
    {
      sock != null ==> Balanced(sock.sent, sbuf.Contents(), queued, writeInterest)
    }

    /** What holds between calls on a connection that has not failed. */
    ghost predicate Sound()
      reads this, sock, rbuf, sbuf, rbuf.block, sbuf.block
    {
      Valid() && Compact(sbuf) && (sock != null ==> InputInv() && OutputInv() && (status == Open ==> Room() && Compact(rbuf)))
    }

    constructor (info: PacketInfo, verdict: Verdict, heap: nat -> nat)
      requires Stable(info)
      ensures Valid() && fresh(rbuf) && fresh(sbuf) && sock == null && maxWriteSize == 16777216
      ensures Sound() && status == Open && !writeInterest && !readAll
      ensures rbuf.Contents() == [] && sbuf.Contents() == []
    {
      hide Stable, Buffer.Contents;
      this.info, this.verdict, this.heap, allocations := info, verdict, heap, 0;
      rbuf := new Buffer();
      sbuf := new Buffer();
      sock, status, writeInterest, readAll, delivered := null, Open, false, false, [];
      maxWriteSize := MAX_WRITE_SIZE;
      received, queued := [], [];
    }

    // ---------------------------------------------------------- input

    method OnRead()
      requires Sound() && sock != null && status == Open
      modifies this`status, this`delivered, this`received, this`allocations, rbuf, rbuf.block, sock`incoming, sock`recvs
      ensures Valid()
      ensures received + sock.incoming == old(received) + old(sock.incoming)
      ensures old(delivered) <= delivered
      ensures status == PeerClosed ==> sock.incoming == [] && sock.finished
      ensures status == NoMemory ==> Starved()
      ensures sock.recvs > old(sock.recvs)
      ensures status == Open && readAll ==>
                sock.arrivals(sock.recvs - 1).NothingYet? || (sock.incoming == [] && !sock.finished)
      ensures forall i :: old(sock.recvs) <= i < sock.recvs - 1 ==> sock.arrivals(i).Arrives?
      ensures status == SystemError <==> sock.arrivals(sock.recvs - 1).ReadFails?
      ensures !readAll ==>
                && sock.recvs == old(sock.recvs) + 1
                && received == old(received) + old(sock.NextReceived(rbuf.end - rbuf.space))
                && (status == PeerClosed <==>
                      sock.arrivals(old(sock.recvs)).Arrives? && old(sock.incoming) == [] && sock.finished)
      ensures Sound()
    {
      hide InputAt, Stable, RoomFor, Buffer.Contents, Balanced, Socket.NextReceived, TcpDataHandler.Starved;
      ReadRounds();
    }

    /** The loop of `on_read`. */
    method ReadRounds()
      requires Listening() && sock != null && status == Open
      modifies this`status, this`delivered, this`received, this`allocations, rbuf, rbuf.block, sock`incoming, sock`recvs
      ensures rbuf.block == old(rbuf.block) || fresh(rbuf.block)
      ensures received + sock.incoming == old(received) + old(sock.incoming)
      ensures old(delivered) <= delivered
      ensures status == PeerClosed ==> sock.incoming == [] && sock.finished
      ensures status == NoMemory ==> Starved()
      ensures sock.recvs > old(sock.recvs) && (status == Open && readAll ==> sock.Dry())
      ensures forall i :: old(sock.recvs) <= i < sock.recvs - 1 ==> sock.arrivals(i).Arrives?
      ensures status == SystemError <==> sock.arrivals(sock.recvs - 1).ReadFails?
      ensures !readAll ==>
                && sock.recvs == old(sock.recvs) + 1
                && received == old(received) + old(sock.NextReceived(rbuf.end - rbuf.space))
                && (status == PeerClosed <==>
                      sock.arrivals(old(sock.recvs)).Arrives? && old(sock.incoming) == [] && sock.finished)
      ensures Listening()
    {
      hide TcpDataHandler.Valid, TcpDataHandler.Listening, TcpDataHandler.Starved, Socket.NextReceived, Socket.Dry;
      var going := ReadOnce();
      ghost var once, outcome := received, status;
      while going && readAll
        invariant Listening() && (going ==> status == Open)
        invariant rbuf.block == old(rbuf.block) || fresh(rbuf.block)
        invariant received + sock.incoming == old(received) + old(sock.incoming)
        invariant old(delivered) <= delivered
        invariant status == PeerClosed ==> sock.incoming == [] && sock.finished
        invariant status == NoMemory ==> Starved()
        invariant sock.recvs > old(sock.recvs) && (status == Open && !going ==> sock.Dry())
        invariant forall i :: old(sock.recvs) <= i < sock.recvs - 1 ==> sock.arrivals(i).Arrives?
        invariant going ==> sock.arrivals(sock.recvs - 1).Arrives?
        invariant status == SystemError <==> sock.arrivals(sock.recvs - 1).ReadFails?
        invariant !readAll ==> sock.recvs == old(sock.recvs) + 1 && received == once && status == outcome
        decreases going, |sock.incoming|
      {
        going := ReadOnce();
      }
    }

    /** One round of `on_read`: receive, and hand over what is complete; false when there is no going on. */
    method ReadOnce() returns (more: bool)
      requires Listening() && sock != null && status == Open
      modifies this`status, this`delivered, this`received, this`allocations, rbuf, rbuf.block, sock`incoming, sock`recvs
      ensures Valid()
      ensures rbuf.block == old(rbuf.block) || fresh(rbuf.block)
      ensures received + sock.incoming == old(received) + old(sock.incoming)
      ensures old(delivered) <= delivered
      ensures status == PeerClosed ==> sock.incoming == [] && sock.finished
      ensures status == NoMemory ==> Starved()
      ensures more ==> status == Open && |sock.incoming| < old(|sock.incoming|)
      ensures sock.recvs == old(sock.recvs) + 1 && (status == Open && !more ==> sock.Dry())
      ensures received == old(received) + old(sock.NextReceived(rbuf.end - rbuf.space))
      ensures more ==> sock.arrivals(old(sock.recvs)).Arrives?
      ensures status == SystemError <==> sock.arrivals(old(sock.recvs)).ReadFails?
      ensures status == PeerClosed <==>
                sock.arrivals(old(sock.recvs)).Arrives? && old(sock.incoming) == [] && sock.finished
      ensures Listening()
    {
      hide InputAt, Stable, Buffer.Contents;
      var space := rbuf.SpaceSize();
      var n, bytes, again := sock.Recv(space);
      if n <= 0 {
        InputStatus(received, delivered, rbuf.Contents(), info, verdict);
        status := if n == 0 then PeerClosed else if again then Open else SystemError;
        return false;
      }
      Received(bytes);
      return status == Open;
    }

    /** The rest of a round that received bytes. */
    method Received(bytes: seq<byte>)
      requires Valid() && InputInv() && status == Open && sock != null
      requires 1 <= |bytes| <= rbuf.end - rbuf.space
      modifies this`status, this`delivered, this`received, this`allocations, rbuf, rbuf.block
      ensures Listening() && status != PeerClosed && status != SystemError
      ensures status == NoMemory ==> Starved()
      ensures rbuf.block == old(rbuf.block) || fresh(rbuf.block)
      ensures received == old(received) + bytes && old(delivered) <= delivered
    {
      hide InputAt, Stable, Pending, Buffer.Contents;
      Take(bytes);
      ExtractPackets();
      if status == Open {
        rbuf.Adjust();
      }
    }

    /** Received bytes go to the end of the buffer. */
    method Take(bytes: seq<byte>)
      requires Valid() && InputInv() && status == Open && sock != null
      requires 1 <= |bytes| <= rbuf.end - rbuf.space
      modifies this`received, rbuf`space, rbuf.block
      ensures Valid() && received == old(received) + bytes
      ensures rbuf.Contents() == old(rbuf.Contents()) + bytes
      ensures Pending(received, delivered, rbuf.Contents(), info, verdict)
    {
      hide InputAt, Pending, Stable, Buffer.Contents;
      Arrived(received, delivered, rbuf.Contents(), status, info, verdict, bytes);
      rbuf.Fill(bytes);
      var _ := rbuf.PushData(|bytes|);
      received := received + bytes;
    }

    /** The inner loop of `on_read`: hand over every complete packet, and see to room for the next. */
    method ExtractPackets()
      requires Valid() && status == Open && sock != null && rbuf.Contents() != []
      requires Pending(received, delivered, rbuf.Contents(), info, verdict)
      modifies this`status, this`delivered, this`allocations, rbuf
      ensures Valid() && InputInv() && (status == Open ==> Room())
      ensures old(delivered) <= delivered && (status == Open || status == NoMemory || status.PacketError?)
      ensures status == NoMemory ==> Starved()
      ensures rbuf.block == old(rbuf.block) || fresh(rbuf.block)
    {
      hide InputAt, Pending, Stable, RoomFor;
      var more := true;
      while more
        invariant rbuf.block == old(rbuf.block) || fresh(rbuf.block)
        invariant Valid() && old(delivered) <= delivered && (status == Open || status == NoMemory || status.PacketError?)
        invariant status == NoMemory ==> Starved()
        invariant if more then status == Open && rbuf.Contents() != [] && Pending(received, delivered, rbuf.Contents(), info, verdict)
                  else InputInv() && (status == Open ==> Room())
        decreases more, |rbuf.Contents()|
      {
        more := ExtractOne();
      }
    }

    /** One round of the inner loop; false when it is left. */
    method ExtractOne() returns (more: bool)
      requires Valid() && status == Open && sock != null && rbuf.Contents() != []
      requires Pending(received, delivered, rbuf.Contents(), info, verdict)
      modifies this`status, this`delivered, this`allocations, rbuf
      ensures Valid() && old(delivered) <= delivered && (status == Open || status == NoMemory || status.PacketError?)
      ensures status == NoMemory ==> Starved()
      ensures rbuf.block == old(rbuf.block) || fresh(rbuf.block)
      ensures more ==> status == Open && Pending(received, delivered, rbuf.Contents(), info, verdict)
                       && 0 < |rbuf.Contents()| < old(|rbuf.Contents()|)
      ensures !more ==> InputInv() && (status == Open ==> Room())
    {
      hide InputAt, Pending, Stable;
      var data := rbuf.Peek();
      Refused(received, delivered, data, info, verdict);
      var answer := info(data).code;
      if answer != 0 {
        status := PacketError(answer);
        return false;
      }
      var needed := info(data).size;
      if needed < 1 || needed > MAX_PACKET_SIZE {
        status := PacketError(ERROR_TYPE_REQUEST);
        return false;
      }
      if |data| < needed {
        MakeRoom(needed);
        return false;
      }
      more := Deliver(data, needed);
    }

    /** Hand over the packet at the front of the buffer. */
    method Deliver(data: seq<byte>, needed: int) returns (more: bool)
      requires Valid() && status == Open && sock != null && data == rbuf.Contents() != []
      requires Pending(received, delivered, data, info, verdict)
      requires info(data).code == 0 && needed == info(data).size && 1 <= needed <= |data| && needed <= MAX_PACKET_SIZE
      modifies this`status, this`delivered, rbuf`data, rbuf`space
      ensures Valid() && old(delivered) <= delivered && (status == Open || status.PacketError?)
      ensures more ==> status == Open && Pending(received, delivered, rbuf.Contents(), info, verdict)
                       && 0 < |rbuf.Contents()| < old(|rbuf.Contents()|)
      ensures !more ==> InputInv() && (status == Open ==> Room())
    {
      hide InputAt, Pending, Stable, Buffer.Contents;
      Delivered(received, delivered, data, info, verdict);
      delivered := delivered + [data[..needed]];
      var answer := verdict(delivered);
      if answer != 0 {
        status := PacketError(answer);
        return false;
      }
      more := PopPacket(needed);
    }

    /** Drop a packet that was accepted; true when bytes are left. */
    method PopPacket(needed: int) returns (more: bool)
      requires Valid() && status == Open && sock != null && 1 <= needed <= |rbuf.Contents()|
      requires Pending(received, delivered, rbuf.Contents()[needed..], info, verdict)
      modifies rbuf`data, rbuf`space
      ensures Valid() && rbuf.Contents() == old(rbuf.Contents())[needed..]
      ensures more <==> rbuf.Contents() != []
      ensures !more ==> InputInv() && Room()
    {
      hide InputAt, Pending, Stable;
      hide Buffer.Contents;
      ghost var live := rbuf.Contents()[needed..];
      var _ := rbuf.PopData(needed);
      assert rbuf.Contents() == live;
      assert rbuf.Valid();
      assert sbuf.Valid();
      assert Valid();
      var size := rbuf.DataSize();
      more := size > 0;
      if !more {
        Waiting(received, delivered, live, Open, info, verdict);
        assert rbuf.end - rbuf.space >= 1;
      }
    }

    /** Grow the buffer when the packet under way does not fit. */
    method MakeRoom(needed: int)
      requires Valid() && status == Open && sock != null && rbuf.Contents() != []
      requires Pending(received, delivered, rbuf.Contents(), info, verdict)
      requires info(rbuf.Contents()) == Info(0, needed) && |rbuf.Contents()| < needed <= MAX_PACKET_SIZE
      modifies this`status, this`allocations, rbuf
      ensures Valid() && InputInv() && (status == Open || status == NoMemory) && (status == Open <==> Room())
      ensures rbuf.block == old(rbuf.block) || fresh(rbuf.block)
      ensures rbuf.Contents() == old(rbuf.Contents()) && (status == NoMemory ==> Starved())
      ensures if old(Room()) then
                allocations == old(allocations) && rbuf.end == old(rbuf.end) && rbuf.space == old(rbuf.space)
              else
                && allocations == old(allocations) + 1
                && (status == NoMemory <==> heap(old(allocations)) == NULL)
                && (status == Open ==> rbuf.end - rbuf.begin == old(rbuf.end - rbuf.begin) + needed)
    {
      hide InputAt, Pending, Stable, Waits, Buffer.Contents;
      NeedsMore(rbuf.Contents(), info, needed);
      Waiting(received, delivered, rbuf.Contents(), Open, info, verdict);
      Waiting(received, delivered, rbuf.Contents(), NoMemory, info, verdict);
      var size := rbuf.DataSize();
      var space := rbuf.SpaceSize();
      if space < needed - size {
        var capacity := rbuf.Capacity();
        var code := rbuf.Resize(capacity + needed, heap(allocations));
        allocations := allocations + 1;
        if code != 0 {
          status := NoMemory;
        }
      }
    }

    // ---------------------------------------------------------- output

    /** The first `n` buffered bytes have been accepted. */
    method DropSent(n: int)
      requires Valid() && 1 <= n <= |sbuf.Contents()|
      modifies sbuf`data, sbuf`space, sbuf.block
      ensures Valid() && sbuf.Contents() == old(sbuf.Contents())[n..] && Compact(sbuf)
    {
      hide Buffer.Contents;
      ghost var live := sbuf.Contents()[n..];
      var _ := sbuf.PopData(n);
      sbuf.Adjust();
      assert sbuf.Contents() == live;
      assert rbuf.Valid() && sbuf.Valid();
    }

    /** On top of `before`, the socket has the first `k` bytes of `out`, and the others are buffered. */
    ghost predicate Parted(before: seq<byte>, out: seq<byte>, k: nat)
      reads this, sock, rbuf, sbuf, sbuf.block
    {
      Valid() && sock != null && k <= |out| && sock.sent == before + out[..k] && sbuf.Contents() == out[k..]
    }

    /** How much of `size` buffered bytes the socket takes when next offered them. */
    ghost function Takes(size: nat): nat
      requires sock != null
      reads this, sock
    {
      var n := sock.NextTaken(if size > maxWriteSize then maxWriteSize else size);
      if n > 0 then n else 0
    }

    /** Offer the front of the buffer to the socket once; it takes the first `k` bytes. */
    method Flush() returns (failed: bool, ghost k: nat)
      requires Valid() && sbuf.Contents() != [] && sock != null
      modifies sbuf`data, sbuf`space, sbuf.block, sock`sent, sock`sends
      ensures Valid() && k == old(Takes(|sbuf.Contents()|)) <= |old(sbuf.Contents())|
      ensures sock.sent == old(sock.sent) + old(sbuf.Contents())[..k]
      ensures sbuf.Contents() == old(sbuf.Contents())[k..] && (old(Compact(sbuf)) ==> Compact(sbuf))
      ensures failed <==> old(sock.Failing())
    {
      var data := sbuf.Peek();
      var toSend := if |data| > maxWriteSize then maxWriteSize else |data|;
      var n, again := sock.Send(data[..toSend]);
      if n > 0 {
        k := n;
        assert data[..toSend][..n] == data[..n];
        DropSent(n);
      } else {
        k := 0;
        assert data[..0] == [] && data[0..] == data;
      }
      failed := n < 0 && !again;
    }

    /** The socket can be written: send what is buffered, and lose interest once it is all gone. */
    method OnWrite()
      requires Sound() && sock != null && status == Open
      modifies this`status, this`writeInterest, sbuf`data, sbuf`space, sbuf.block, sock`sent, sock`sends
      ensures Valid()
      ensures status == if old(sbuf.Contents()) != [] && old(sock.Failing()) then SystemError else Open
      ensures writeInterest == (old(writeInterest) && !(status == Open && sbuf.Contents() == []))
      ensures if old(sbuf.Contents()) == [] then sbuf.Contents() == [] && sock.sent == old(sock.sent)
              else
                var k := old(Takes(|sbuf.Contents()|));
                k <= maxWriteSize && Parted(old(sock.sent), old(sbuf.Contents()), k)
      ensures Sound()
    {
      hide Balanced, InputAt, RoomFor, Stable, Buffer.Contents;
      InputStatus(received, delivered, rbuf.Contents(), info, verdict);
      if sbuf.data < sbuf.space {
        ghost var live, out := sbuf.Contents(), sock.sent;
        var failed, k := Flush();
        BalancedShift(out, live, queued, writeInterest, k);
        if failed {
          status := SystemError;
          return;
        }
      }
      if sbuf.data == sbuf.space {
        BalancedIdle(sock.sent, queued, writeInterest, false);
        writeInterest := false;
      }
    }

    /** Whether `size` more bytes fit the output buffer, or it can be grown. */
    ghost predicate CanHold(size: nat)
      reads this, sbuf
    {
      sbuf.end - sbuf.space >= size || heap(allocations) != NULL
    }

    /** Grow the output buffer when `size` more bytes do not fit. */
    method EnsureSpace(size: nat) returns (ok: bool)
      requires Valid()
      modifies this`allocations, sbuf
      ensures ok <==> old(CanHold(size))
      ensures allocations == old(allocations) + if old(sbuf.end - sbuf.space) >= size then 0 else 1
      ensures old(Compact(sbuf)) ==> Compact(sbuf)
      ensures ok ==> sbuf.end - sbuf.space == old(sbuf.end - sbuf.space)
                                              + if old(sbuf.end - sbuf.space) >= size then 0 else size
      ensures Valid() && sbuf.Contents() == old(sbuf.Contents())
      ensures sbuf.block == old(sbuf.block) || fresh(sbuf.block)
      ensures ok ==> sbuf.end - sbuf.space >= size
    {
      hide Stable, Buffer.Contents;
      var space := sbuf.SpaceSize();
      if space >= size {
        return true;
      }
      var capacity := sbuf.Capacity();
      var code := sbuf.Resize(capacity + size, heap(allocations));
      assert sbuf.Valid() && rbuf.Valid();
      allocations := allocations + 1;
      assert Valid();
      ok := code == 0;
    }

    /** Bytes go to the end of the output buffer. */
    method Append(bytes: seq<byte>)
      requires Valid() && |bytes| <= sbuf.end - sbuf.space && sock != null
      modifies sbuf`space, sbuf.block
      ensures Valid() && sbuf.Contents() == old(sbuf.Contents()) + bytes
    {
      hide Stable, Buffer.Contents;
      ghost var live := sbuf.Contents();
      sbuf.Fill(bytes);
      var _ := sbuf.PushData(|bytes|);
      assert sbuf.Contents() == live + bytes;
      assert rbuf.Valid() && sbuf.Valid();
    }

    /** Send raw bytes: at once as far as the socket takes them when nothing is waiting, the rest later. */
    method Send(data: seq<byte>, delayed: bool) returns (code: int)
      requires Sound() && (sock != null ==> status == Open)
      modifies this`allocations, this`writeInterest, this`queued, sbuf, sbuf.block
      modifies if sock != null then {sock} else {}
      ensures Valid()
      ensures code == if sock != null && old(CanHold(|data|)) && !(old(sbuf.Contents()) == [] && !delayed && old(sock.Failing())) then 0 else -1
      ensures queued == old(queued) + if code == 0 then data else []
      ensures code == 0 && sock != null && old(sbuf.Contents()) == [] && !delayed ==>
                var k := old(sock.NextTaken(|data|)); sock.sent == old(sock.sent) + data[..if k > 0 then k else 0]
      ensures code == 0 && sock != null && (old(sbuf.Contents()) != [] || delayed) ==> sock.sent == old(sock.sent)
      ensures code == -1 ==> sbuf.Contents() == old(sbuf.Contents()) && (sock != null ==> sock.sent == old(sock.sent))
      ensures writeInterest == (old(writeInterest) || (code == 0
                && !(old(sbuf.Contents()) == [] && !delayed && |sock.sent| - |old(sock.sent)| == |data|)))
      ensures sock != null ==> sock.incoming == old(sock.incoming) && sock.recvs == old(sock.recvs)
      ensures Sound()
    {
      hide Balanced, InputAt, RoomFor, Stable, Buffer.Contents;
      assert queued + [] == queued;
      if sock == null {
        return -1;
      }
      var ok := EnsureSpace(|data|);
      if !ok {
        return -1;
      }
      code := SendOrQueue(data, delayed);
    }

    /** The rest of `send`, with room for all of `data`. */
    method SendOrQueue(data: seq<byte>, delayed: bool) returns (code: int)
      requires Valid() && OutputInv() && sock != null && |data| <= sbuf.end - sbuf.space
      modifies this`writeInterest, this`queued, sbuf`space, sbuf.block, sock`sent, sock`sends
      ensures Valid() && OutputInv()
      ensures code == if old(sbuf.Contents()) == [] && !delayed && old(sock.Failing()) then -1 else 0
      ensures queued == old(queued) + if code == 0 then data else []
      ensures code == 0 && old(sbuf.Contents()) == [] && !delayed ==>
                var k := old(sock.NextTaken(|data|)); sock.sent == old(sock.sent) + data[..if k > 0 then k else 0]
      ensures old(sbuf.Contents()) != [] || delayed || code == -1 ==> sock.sent == old(sock.sent)
      ensures code == -1 ==> sbuf.Contents() == old(sbuf.Contents())
      ensures writeInterest == (old(writeInterest) || (code == 0
                && !(old(sbuf.Contents()) == [] && !delayed && |sock.sent| - |old(sock.sent)| == |data|)))
    {
      hide Balanced, Stable, Buffer.Contents;
      assert queued + [] == queued;
      ghost var out, live := sock.sent, sbuf.Contents();
      var n := 0;
      if sbuf.data == sbuf.space && !delayed {
        n := TrySend(data);
        if n < 0 {
          return -1;
        }
        if n == |data| {
          BalancedSent(out, queued, writeInterest, data);
          queued := queued + data;
          return 0;
        }
      }
      BalancedSplit(out, live, queued, writeInterest, data, n);
      QueueRest(data, n);
      return 0;
    }

    /** What the socket did not take is queued, and write interest registered. */
    method QueueRest(data: seq<byte>, n: nat)
      requires Valid() && sock != null && n <= |data| && |data| <= sbuf.end - sbuf.space
      requires Balanced(sock.sent, sbuf.Contents() + data[n..], queued + data, true)
      modifies this`writeInterest, this`queued, sbuf`space, sbuf.block
      ensures Valid() && OutputInv() && queued == old(queued) + data && writeInterest
    {
      hide Balanced, Buffer.Contents;
      writeInterest := true;
      queued := queued + data;
      Append(data[n..]);
    }

    /** One `send` straight to the socket; "try again" counts as nothing taken, other errors are -1. */
    method TrySend(data: seq<byte>) returns (n: int)
      requires sock != null
      modifies sock`sent, sock`sends
      ensures -1 <= n <= |data|
      ensures sock.sent == old(sock.sent) + data[..if n > 0 then n else 0]
      ensures n > 0 ==> n == old(sock.NextTaken(|data|))
      ensures n == 0 ==> old(sock.NextTaken(|data|)) <= 0
      ensures n < 0 || n == 0 ==> sock.sent == old(sock.sent)
      ensures n == |data| ==> sock.sent == old(sock.sent) + data
      ensures n < 0 <==> old(sock.Failing())
    {
      var again;
      n, again := sock.Send(data);
      assert n > 0 ==> n == |data| ==> data[..n] == data;
      if n < 0 && again {
        n := 0;
      }
    }

    /** Encode a packet straight into the output buffer, and try to send at once unless delayed. */
    method SendPacket(p: CsPacket, delayed: bool) returns (code: int)
      requires Sound() && (sock != null ==> status == Open)
      modifies this`allocations, this`writeInterest, this`queued, this`status, sbuf, sbuf.block
      modifies if sock != null then {sock} else {}
      ensures Valid() && (status == old(status) || status == SystemError)
      ensures var size := (if p.packetType % 4 == 2 then 4 else 12) + |p.body|;
              var free := old(sbuf.end - sbuf.space);
              code == if sock != null && size < 65535 && old(CanHold(size))
                         && (p.body == [] ==> free != 0 && free != size) then 0 else -1
      ensures code == 0 && delayed ==>
                && sock.sent == old(sock.sent) && writeInterest && status == old(status)
                && sbuf.Contents() == old(sbuf.Contents()) + Wire(p.packetType, p.Fields())
      ensures code == 0 && !delayed ==>
                var out := old(sbuf.Contents()) + Wire(p.packetType, p.Fields());
                var k := old(Takes(|sbuf.Contents()| + WireSize(p.packetType, p.Fields())));
                && k <= maxWriteSize && Parted(old(sock.sent), out, k)
                && status == (if old(sock.Failing()) then SystemError else Open)
                && writeInterest == !(status == Open && k == |out|)
      ensures code == -1 ==> status == old(status) && writeInterest == old(writeInterest)
      ensures queued == old(queued) + if code == 0 then Wire(p.packetType, p.Fields()) else []
      ensures code == -1 ==> sbuf.Contents() == old(sbuf.Contents()) && (sock != null ==> sock.sent == old(sock.sent))
      ensures sock != null ==> sock.incoming == old(sock.incoming) && sock.recvs == old(sock.recvs)
      ensures Sound()
    {
      hide Balanced, InputAt, RoomFor, Stable, Buffer.Contents, Wire, HavePlus, TcpDataHandler.Compact, Socket.NextTaken;
      assert queued + [] == queued;
      PlusByLowBits(p.packetType);
      var size := WireSize(p.packetType, p.Fields());
      if sock == null || size >= 65535 {
        return -1;
      }
      var ok := EnsureSpace(size);
      if !ok {
        return -1;
      }
      code := SendEncoded(p, delayed, Wire(p.packetType, p.Fields()));
    }

    /** The rest of `send` for a packet, with room for it. */
    method SendEncoded(p: CsPacket, delayed: bool, ghost wire: seq<byte>) returns (code: int)
      requires Sound() && sock != null && status == Open && wire == Wire(p.packetType, p.Fields())
      requires |wire| == WireSize(p.packetType, p.Fields()) < 65535 && |wire| <= sbuf.end - sbuf.space
      modifies this`writeInterest, this`queued, this`status, sbuf`data, sbuf`space, sbuf.block, sock`sent, sock`sends
      ensures Valid()
      ensures code == if HeadSize(p.packetType) < old(sbuf.end - sbuf.space) then 0 else -1
      ensures code == 0 && delayed ==>
                sock.sent == old(sock.sent) && writeInterest && status == Open && sbuf.Contents() == old(sbuf.Contents()) + wire
      ensures code == 0 && !delayed ==>
                var out, k := old(sbuf.Contents()) + wire, old(Takes(|sbuf.Contents()| + |wire|));
                && k <= maxWriteSize && Parted(old(sock.sent), out, k)
                && status == (if old(sock.Failing()) then SystemError else Open)
                && writeInterest == !(status == Open && k == |out|)
      ensures code == -1 ==> status == Open && writeInterest == old(writeInterest)
      ensures queued == old(queued) + if code == 0 then wire else []
      ensures code == -1 ==> sbuf.Contents() == old(sbuf.Contents()) && sock.sent == old(sock.sent)
      ensures Sound()
    {
      hide Balanced, InputAt, RoomFor, Stable, Buffer.Contents, Wire, WireSize, HeadSize;
      assert queued + [] == queued;
      assert wire != [] by {
        WireNotEmpty(p.packetType, p.Fields());
      }
      code := EncodePacket(p);
      if code < 1 {
        return -1;
      }
      if !delayed {
        OnWrite();
      }
      return 0;
    }

    /** `p->encode(space, space_size)`; the bytes it wrote become live, and write interest is registered. */
    method EncodePacket(p: CsPacket) returns (n: int)
      requires Valid() && OutputInv() && sock != null
      requires WireSize(p.packetType, p.Fields()) < 65535 && WireSize(p.packetType, p.Fields()) <= sbuf.end - sbuf.space
      modifies this`writeInterest, this`queued, sbuf`space, sbuf.block
      ensures Valid() && OutputInv()
      ensures n < 1 ==> sbuf.Contents() == old(sbuf.Contents()) && queued == old(queued)
      ensures n >= 1 ==> queued == old(queued) + Wire(p.packetType, p.Fields()) && writeInterest
                         && sbuf.Contents() == old(sbuf.Contents()) + Wire(p.packetType, p.Fields())
      ensures n < 1 ==> writeInterest == old(writeInterest)
      ensures n >= 1 <==> HeadSize(p.packetType) < old(sbuf.end - sbuf.space)
    {
      hide Balanced, Wire, WireSize, HeadSize, Stable, Buffer.Contents;
      var space := sbuf.SpaceSize();
      var bytes;
      n, bytes := Encoded(p, space);
      if n >= 1 {
        QueueEncoded(bytes);
      }
    }

    /** What `encode` writes into `space` bytes. */
    method Encoded(p: CsPacket, space: nat) returns (n: int, bytes: seq<byte>)
      requires WireSize(p.packetType, p.Fields()) < 65535 && WireSize(p.packetType, p.Fields()) <= space
      ensures n >= 1 <==> HeadSize(p.packetType) < space
      ensures n >= 1 ==> bytes == Wire(p.packetType, p.Fields()) && |bytes| <= space
    {
      EncodableWithRoom(p.packetType, p.Fields(), space);
      hide Wire, WireSize, HeadSize, Encodable, LaidOut;
      var scratch := new byte[space];
      n := p.Encode(scratch);
      bytes := if n >= 1 then scratch[..n] else [];
    }

    /** Bytes written into the free space become live, and write interest is registered. */
    method QueueEncoded(bytes: seq<byte>)
      requires Valid() && OutputInv() && sock != null && |bytes| <= sbuf.end - sbuf.space
      modifies this`writeInterest, this`queued, sbuf`space, sbuf.block
      ensures Valid() && OutputInv() && queued == old(queued) + bytes && writeInterest
      ensures sbuf.Contents() == old(sbuf.Contents()) + bytes
    {
      hide Balanced, Stable, Buffer.Contents;
      BalancedQueued(sock.sent, sbuf.Contents(), queued, writeInterest, bytes);
      queued := queued + bytes;
      writeInterest := true;
      Append(bytes);
    }

    // ---------------------------------------------------------- life cycle

    /**
     Take over a connected socket.  `registered` is whether the reactor accepts the handler.
     A buffer size of zero, which makes `realloc` free the block, is not used.
     */
    method Init(connection: Socket?, bufSize: int, registered: bool) returns (code: int)
      requires Valid() && bufSize != 0 && (connection != null ==> connection.sent == [])
      modifies this`allocations, this`sock, this`readAll, this`status, this`writeInterest, this`delivered,
        this`received, this`queued, rbuf, sbuf
      ensures Valid() && (code == 0 ==> Sound())
      ensures code == if old(sock) != null || connection == null then -1
                      else if bufSize < 0 || heap(old(allocations)) == NULL || heap(old(allocations) + 1) == NULL then -2
                      else if !registered then -3 else 0
      ensures code == 0 ==> sock == connection && status == Open && readAll && received == [] && queued == [] && delivered == []
      ensures code == 0 ==> rbuf.end - rbuf.space == sbuf.end - sbuf.space == bufSize && !writeInterest
      ensures code == 0 || code == -3 ==> allocations == old(allocations) + 2
      ensures code != 0 ==> sock == old(sock)
    {
      hide Buffer.Contents, Balanced, Stable, InputAt, RoomFor;
      if sock != null || connection == null {
        return -1;
      }
      var resized := ResizeBuffers(bufSize);
      if !resized {
        return -2;
      }
      if !registered {
        return -3;
      }
      Connect(connection);
      return 0;
    }

    /** The connection starts, with nothing received and nothing queued. */
    method Connect(connection: Socket)
      requires Valid() && sock == null && connection.sent == []
      requires rbuf.space < rbuf.end && rbuf.Contents() == [] && sbuf.Contents() == []
      modifies this`sock, this`readAll, this`status, this`writeInterest, this`delivered, this`received, this`queued
      ensures Sound() && sock == connection && status == Open && readAll && !writeInterest
      ensures received == [] && queued == [] && delivered == []
    {
      hide Balanced, Stable, InputAt, Buffer.Contents;
      InputStart(info, verdict);
      BalancedStart();
      sock, status, writeInterest, readAll := connection, Open, false, true;
      delivered, received, queued := [], [], [];
    }

    /** Give both empty buffers the same size. */
    method ResizeBuffers(bufSize: int) returns (ok: bool)
      requires Valid() && bufSize != 0 && sock == null
      modifies this`allocations, rbuf, sbuf
      ensures Valid() && rbuf.Contents() == [] && sbuf.Contents() == []
      ensures ok <==> bufSize > 0 && heap(old(allocations)) != NULL && heap(old(allocations) + 1) != NULL
      ensures ok ==> rbuf.end - rbuf.space == sbuf.end - sbuf.space == bufSize && allocations == old(allocations) + 2
    {
      hide Buffer.Contents;
      var resized := rbuf.Resize(bufSize, heap(allocations));
      allocations := allocations + 1;
      assert rbuf.Valid() && sbuf.Valid() && rbuf.block != sbuf.block;
      if resized != 0 {
        return false;
      }
      resized := sbuf.Resize(bufSize, heap(allocations));
      allocations := allocations + 1;
      assert rbuf.Valid() && sbuf.Valid() && rbuf.block != sbuf.block;
      return resized == 0;
    }

    method Fini(release: bool)
      requires Valid()
      modifies this`sock, rbuf, sbuf
      ensures Sound() && sock == null && rbuf.Contents() == [] && sbuf.Contents() == []
      ensures release ==> rbuf.begin == NULL && sbuf.begin == NULL
      ensures !release ==> (rbuf.begin, rbuf.end, sbuf.begin, sbuf.end) == old((rbuf.begin, rbuf.end, sbuf.begin, sbuf.end))
    {
      hide Stable, Buffer.Contents, Balanced, InputAt;
      if sock != null {
        sock := null;
        rbuf.Clear();
        sbuf.Clear();
      }
      assert rbuf.Valid() && sbuf.Valid();
      if release {
        rbuf.Fini();
        sbuf.Fini();
      }
    }

    method SetReadAllFlag(flag: bool)
      modifies this`readAll
      ensures readAll == flag && (old(Sound()) ==> Sound())
    {
      hide InputAt, Balanced, RoomFor, Stable, Buffer.Contents;
      readAll := flag;
    }

    method SetMaxWriteSize(maxSize: int)
      modifies this`maxWriteSize
      ensures maxWriteSize == (if maxSize < 1024 then 1024 else maxSize) && (old(Sound()) ==> Sound())
    {
      hide InputAt, Balanced, RoomFor, Stable, Buffer.Contents;
      maxWriteSize := if maxSize < MIN_WRITE_SIZE then MIN_WRITE_SIZE else maxSize;
    }
  }

  lemma EncodableWithRoom(packetType: int, m: Message, size: int)
    requires WireSize(packetType, m) < 65535 && WireSize(packetType, m) <= size
    ensures Encodable(packetType, m, size) <==> HeadSize(packetType) < size
    ensures WireSize(packetType, m) >= 1
  {
  }

  lemma WireNotEmpty(packetType: int, m: Message)
    ensures Wire(packetType, m) != []
  {
  }

  lemma InputStart(info: PacketInfo, verdict: Verdict)
    ensures InputAt([], [], [], Open, info, verdict)
  {
  }

  lemma BalancedStart()
    ensures Balanced([], [], [], false)
  {
  }

  lemma BalancedSent(sent: seq<byte>, queued: seq<byte>, interest: bool, data: seq<byte>)
    requires Balanced(sent, [], queued, interest)
    ensures Balanced(sent + data, [], queued + data, interest)
  {
  }

  lemma BalancedQueued(sent: seq<byte>, live: seq<byte>, queued: seq<byte>, interest: bool, data: seq<byte>)
    requires Balanced(sent, live, queued, interest)
    ensures Balanced(sent, live + data, queued + data, true)
  {
    assert sent + (live + data) == (sent + live) + data;
  }

  /** Bytes sent directly, when nothing is buffered, and the rest behind what is buffered. */
  lemma BalancedSplit(sent: seq<byte>, live: seq<byte>, queued: seq<byte>, interest: bool, data: seq<byte>, n: nat)
    requires Balanced(sent, live, queued, interest) && n <= |data| && (n > 0 ==> live == [])
    ensures Balanced(sent + data[..n], live + data[n..], queued + data, true)
    ensures n == 0 ==> Balanced(sent, live + data[n..], queued + data, true)
  {
    assert data[..n] + data[n..] == data;
    assert n == 0 ==> sent + data[..n] == sent;
    if n > 0 {
      assert sent + data[..n] + data[n..] == sent + (data[..n] + data[n..]);
    } else {
      assert (sent + live) + data == sent + (live + data);
    }
  }

  lemma BalancedShift(sent: seq<byte>, live: seq<byte>, queued: seq<byte>, interest: bool, k: nat)
    requires Balanced(sent, live, queued, interest) && k <= |live|
    ensures Balanced(sent + live[..k], live[k..], queued, interest)
  {
    assert live[..k] + live[k..] == live;
  }

  lemma BalancedIdle(sent: seq<byte>, queued: seq<byte>, interest: bool, interest': bool)
    requires Balanced(sent, [], queued, interest)
    ensures Balanced(sent, [], queued, interest')
  {
  }

  /** An error that parsing did not raise does not touch what input amounts to. */
  lemma InputStatus(received: seq<byte>, delivered: seq<Packet>, live: seq<byte>, info: PacketInfo, verdict: Verdict)
    requires InputAt(received, delivered, live, Open, info, verdict)
    ensures InputAt(received, delivered, live, PeerClosed, info, verdict)
    ensures InputAt(received, delivered, live, SystemError, info, verdict)
  {
  }
}
