/**
 packet__queue and packet__write on one side of a connection, packet__read on the other.
 Sockets appear only as schedules: each call of net__write or net__read takes the next event,
 so every pattern of partial transfers, EAGAIN, EINTR and errors is a schedule.
 */
module PacketIO {
  import opened Sequences
  import opened Bytes
  import opened Frames

  datatype Rc = Success | NoConn | ConnLost | Tls | Errno | MalformedPacket

  /** Transfer up to k bytes, or an errno; a schedule that has run out means EAGAIN. */
  datatype IoEvent = Ready(k: nat) | Again | Interrupted | Reset | Eof | Proto | Failed

  predicate Transfers(e: IoEvent) {
    e.Ready? && e.k > 0
  }

  ghost predicate AllTransfer(calls: seq<IoEvent>) {
    forall i :: 0 <= i < |calls| ==> Transfers(calls[i])
  }

  /** The answers of the socket are those that the schedule had in store; once it has run out, EAGAIN. */
  ghost predicate AnswersFrom(calls: seq<IoEvent>, before: seq<IoEvent>, after: seq<IoEvent>) {
    calls + after == before || (after == [] && calls == before + [Again])
  }

  /**
   The return code of packet__write: the first answer of the socket that transfers nothing ends
   the call. Only ECONNRESET, EPROTO and an errno the code does not know are errors; EAGAIN and
   EINTR are not.
   */
  ghost predicate WriteDecided(calls: seq<IoEvent>, rc: Rc) {
    && (calls != [] ==> AllTransfer(calls[..|calls| - 1]))
    && rc in {Success, ConnLost, Tls, Errno}
    && (rc == ConnLost <==> calls != [] && calls[|calls| - 1].Reset?)
    && (rc == Tls <==> calls != [] && calls[|calls| - 1].Proto?)
    && (rc == Errno <==> calls != [] && calls[|calls| - 1].Failed?)
  }

  /**
   The return code of packet__read. An end of file is ECONNRESET's equal, except in the body,
   where what errno was left at decides; EPROTO is like any other unknown errno.
   */
  ghost predicate ReadDecided(calls: seq<IoEvent>, rc: Rc, inBody: bool, stale: IoEvent) {
    && (calls != [] ==> AllTransfer(calls[..|calls| - 1]))
    && rc in {Success, ConnLost, Errno, MalformedPacket}
    && (rc == ConnLost <==> calls != [] && var e := Reason(calls, inBody, stale); e.Reset? || e.Eof?)
    && (rc == Errno <==> calls != [] && var e := Reason(calls, inBody, stale); e.Proto? || e.Failed?)
  }

  function Reason(calls: seq<IoEvent>, inBody: bool, stale: IoEvent): IoEvent
    requires calls != []
  {
    if calls[|calls| - 1].Eof? && inBody then stale else calls[|calls| - 1]
  }

  /** A schedule without errors or EAGAIN: every call transfers something. */
  ghost predicate Flows(schedule: seq<IoEvent>) {
    forall i :: 0 <= i < |schedule| ==> schedule[i].Ready? && schedule[i].k > 0
  }

  /** An outgoing packet: bytes[pos..] is still to be written. */
  datatype OutPacket = OutPacket(command: byte, bytes: seq<byte>, pos: nat, toProcess: nat)

  ghost predicate Sound(p: OutPacket) {
    p.pos + p.toProcess == |p.bytes|
  }

  ghost function Rest(p: OutPacket): seq<byte>
    requires Sound(p)
  {
    p.bytes[p.pos..]
  }

  ghost function Unsent(queue: seq<OutPacket>): seq<byte>
    requires forall i :: 0 <= i < |queue| ==> Sound(queue[i])
  {
    if queue == [] then [] else Rest(queue[0]) + Unsent(queue[1..])
  }

  lemma {:induction false} UnsentAppend(queue: seq<OutPacket>, p: OutPacket)
    requires (forall i :: 0 <= i < |queue| ==> Sound(queue[i])) && Sound(p)
    ensures Unsent(queue + [p]) == Unsent(queue) + Rest(p)
  {
    if queue == [] {
      assert queue + [p] == [p] && [p][1..] == [];
      assert Unsent([p]) == Rest(p) + Unsent([p][1..]);
    } else {
      assert (queue + [p])[1..] == queue[1..] + [p];
      UnsentAppend(queue[1..], p);
    }
  }

  const CMD_DISCONNECT: byte := 0xE0

  /** The outgoing half of struct mosquitto. */
  class Sender {
    var current: Option<OutPacket>
    var outPackets: seq<OutPacket>
    var outPacketCount: int
    var sockOpen: bool
    var connectPending: bool
    var sent: seq<byte>
    var schedule: seq<IoEvent>
    /** What the socket has answered in the current call of packet__write. */
    ghost var calls: seq<IoEvent>

    ghost predicate Valid()
      reads this`current, this`outPackets, this`outPacketCount
    {
      && (current.Some? ==> Sound(current.value))
      && (forall i :: 0 <= i < |outPackets| ==> Sound(outPackets[i]))
      && outPacketCount == |outPackets|
    }

    /** Everything accepted but not yet on the wire, in the order it will go out. */
    ghost function Pending(): seq<byte>
      requires Valid()
      reads this`current, this`outPackets, this`outPacketCount
    {
      (if current.Some? then Rest(current.value) else []) + Unsent(outPackets)
    }

    constructor ()
      ensures Valid() && sent == [] && Pending() == [] && sockOpen
    {
      current, outPackets, outPacketCount, sockOpen, connectPending := None, [], 0, true, false;
      sent, schedule, calls := [], [], [];
    }

    /** net__write: part of the bytes go out, or an errno comes back. */
    method NetWrite(bytes: seq<byte>) returns (written: nat, e: IoEvent)
      requires bytes != []
      modifies this`sent, this`schedule, this`calls
      ensures written <= |bytes| && sent == old(sent) + bytes[..written] && (written > 0 <==> Transfers(e))
      ensures calls == old(calls) + [e]
      ensures if old(schedule) == [] then e == Again && schedule == []
              else e == old(schedule)[0] && schedule == old(schedule)[1..]
    {
      e := if schedule == [] then Again else schedule[0];
      schedule := if schedule == [] then [] else schedule[1..];
      calls := calls + [e];
      written := 0;
      if e.Ready? {
        written := if e.k < |bytes| then e.k else |bytes|;
      }
      sent := sent + bytes[..written];
    }

    /** The promotion of the queue's head to current_out_packet. */
    method Promote()
      requires Valid() && current.None?
      modifies this`current, this`outPackets, this`outPacketCount
      ensures Valid() && Pending() == old(Pending())
      ensures current.None? ==> Pending() == []
      ensures |outPackets| + (if current.Some? then 1 else 0) == |old(outPackets)|
    {
      if outPackets != [] {
        current := Some(outPackets[0]);
        outPackets := outPackets[1..];
        outPacketCount := outPacketCount - 1;
      }
    }

    /** The inner loop of packet__write: true when the current packet is fully written. */
    method WriteCurrent(ghost s0: seq<IoEvent>) returns (done: bool, rc: Rc)
      requires Valid() && current.Some? && AllTransfer(calls) && AnswersFrom(calls, s0, schedule)
      modifies this`current, this`sent, this`schedule, this`calls
      ensures Valid() && current.Some? && current.value.command == old(current.value.command)
      ensures sent + Rest(current.value) == old(sent) + Rest(old(current.value)) && old(sent) <= sent
      ensures done ==> current.value.toProcess == 0 && rc == Success && AllTransfer(calls)
      ensures WriteDecided(calls, rc) && AnswersFrom(calls, s0, schedule)
      ensures !done ==> calls != [] && !Transfers(calls[|calls| - 1])
    {
      hide Unsent, AllTransfer, AnswersFrom, WriteDecided;
      var packet := current.value;
      ghost var p0, sent0 := packet, sent;
      while packet.toProcess > 0
        invariant Valid() && current == Some(packet) && packet.command == p0.command
        invariant sent + Rest(packet) == sent0 + Rest(p0) && sent0 <= sent
        invariant AllTransfer(calls) && AnswersFrom(calls, s0, schedule)
        decreases packet.toProcess
      {
        ghost var before, answered, left := sent, calls, schedule;
        var n, e := NetWrite(packet.bytes[packet.pos..]);
        OneAnswer(answered, s0, left, e, schedule);
        if n == 0 {
          assert sent == before;
          match e {
            case Reset => rc := ConnLost;
            case Proto => rc := Tls;
            case Failed => rc := Errno;
            case _ => rc := Success;
          }
          StoppedBy(answered, e, rc);
          return false, rc;
        }
        WriteShift(before, packet, n);
        packet := packet.(toProcess := packet.toProcess - n, pos := packet.pos + n);
        current := Some(packet);
      }
      Unstopped(calls);
      return true, Success;
    }

    /** One round of packet__write: the current packet, then the promotion of the next unless it was DISCONNECT. */
    method WriteOne(ghost s0: seq<IoEvent>) returns (done: bool, disconnect: bool, rc: Rc)
      requires Valid() && current.Some? && AllTransfer(calls) && AnswersFrom(calls, s0, schedule)
      modifies this`current, this`outPackets, this`outPacketCount, this`sent, this`schedule, this`calls
      ensures Valid() && sent + Pending() == old(sent + Pending()) && old(sent) <= sent
      ensures disconnect <==> done && old(current.value.command) / 16 * 16 == CMD_DISCONNECT
      ensures done && !disconnect ==> |outPackets| + (if current.Some? then 1 else 0) == |old(outPackets)|
      ensures current.None? ==> Pending() == []
      ensures disconnect ==> current.Some? && current.value.command == old(current.value.command)
      ensures disconnect ==> current.value.command / 16 == 14 && current.value.toProcess == 0
      ensures WriteDecided(calls, rc) && AnswersFrom(calls, s0, schedule)
      ensures if done then rc == Success && AllTransfer(calls) else calls != [] && !Transfers(calls[|calls| - 1])
    {
      hide Unsent, AllTransfer, AnswersFrom, WriteDecided;
      Regroup(sent, Rest(current.value), Unsent(outPackets));
      done, rc := WriteCurrent(s0);
      Regroup(sent, Rest(current.value), Unsent(outPackets));
      disconnect := false;
      if done {
        disconnect := current.value.command / 16 * 16 == CMD_DISCONNECT;
        if !disconnect {
          ghost var tail := Unsent(outPackets);
          assert Rest(current.value) == [];
          current := None;
          Promote();
          assert Pending() == [] + tail;
        }
      }
    }

    /**
     packet__write: drain the queue as far as the socket allows; a DISCONNECT closes it. The
     return code is decided by what the socket answered in this call.
     */
    method PacketWrite() returns (rc: Rc)
      requires Valid()
      modifies this
      ensures Valid() && sent + Pending() == old(sent + Pending()) && old(sent) <= sent
      ensures !old(sockOpen) ==> sent == old(sent) && !sockOpen
      ensures rc == NoConn <==> !old(sockOpen)
      ensures old(sockOpen) ==> WriteDecided(calls, rc) && AnswersFrom(calls, old(schedule), schedule)
      ensures old(sockOpen) && !sockOpen ==>
        current.Some? && current.value.command / 16 == 14 && current.value.toProcess == 0
      ensures old(sockOpen) && sockOpen && !old(connectPending) ==> Pending() == [] || !AllTransfer(calls)
      ensures Flows(old(schedule)) && old(sockOpen) ==> rc == Success
      ensures Flows(old(schedule)) && old(sockOpen) && !old(connectPending) ==>
        Pending() == [] || !sockOpen || schedule == []
    {
      hide Valid, Pending, Unsent;
      rc := NoConn;
      calls := [];
      if sockOpen {
        Start();
        Unstopped([]);
        assert AnswersFrom([], schedule, schedule);
        rc := Success;
        if !connectPending {
          rc := Drain(schedule);
        }
        FlowsDecides(calls, old(schedule), schedule, rc);
      }
    }

    /** The head of the queue becomes the current packet if there is none. */
    method Start()
      requires Valid()
      modifies this`current, this`outPackets, this`outPacketCount
      ensures Valid() && Pending() == old(Pending()) && (current.None? ==> Pending() == [])
    {
      if current.None? {
        Promote();
      }
    }

    /** The outer loop of packet__write. */
    method Drain(ghost s0: seq<IoEvent>) returns (rc: Rc)
      requires Valid() && sockOpen && (current.None? ==> Pending() == [])
      requires AllTransfer(calls) && AnswersFrom(calls, s0, schedule)
      modifies this
      ensures Valid() && sent + Pending() == old(sent + Pending()) && old(sent) <= sent
      ensures connectPending == old(connectPending)
      ensures WriteDecided(calls, rc) && AnswersFrom(calls, s0, schedule)
      ensures !sockOpen ==> current.Some? && current.value.command / 16 == 14 && current.value.toProcess == 0
      ensures sockOpen ==> Pending() == [] || !AllTransfer(calls)
    {
      hide Valid, Pending, Unsent, AnswersFrom, WriteDecided;
      ghost var goal, sent0 := sent + Pending(), sent;
      while current.Some?
        invariant Valid() && sent + Pending() == goal && sent0 <= sent
        invariant AllTransfer(calls) && AnswersFrom(calls, s0, schedule)
        invariant sockOpen && connectPending == old(connectPending) && (current.None? ==> Pending() == [])
        decreases |outPackets| + if current.Some? then 1 else 0
      {
        var done, disconnect;
        done, disconnect, rc := WriteOne(s0);
        if !done {
          return rc;
        }
        if disconnect {
          sockOpen := false;
          return Success;
        }
      }
      Unstopped(calls);
      return Success;
    }

    /** packet__queue; `writeNow` is the unthreaded, not-in-callback case that writes at once. */
    method PacketQueue(f: Frame, writeNow: bool) returns (rc: Rc)
      requires Valid()
      modifies this
      ensures Valid() && old(sent) <= sent
      ensures sent + Pending() == old(sent + Pending()) + FrameBytes(f)
      ensures !writeNow ==> rc == Success && sent == old(sent) && sockOpen == old(sockOpen)
    {
      Enqueue(f);
      rc := Success;
      if writeNow {
        rc := PacketWrite();
      }
    }

    /** The packet joins the end of the queue. */
    method Enqueue(f: Frame)
      requires Valid()
      modifies this`outPackets, this`outPacketCount
      ensures Valid() && sent + Pending() == old(sent + Pending()) + FrameBytes(f)
    {
      hide FrameBytes;
      var bytes := FrameBytes(f);
      var p := OutPacket(f.command, bytes, 0, |bytes|);
      assert Rest(p) == bytes;
      UnsentAppend(outPackets, p);
      hide Unsent;
      ghost var cur := if current.Some? then Rest(current.value) else [];
      Regroup(cur, Unsent(outPackets), bytes);
      Regroup(sent, cur + Unsent(outPackets), bytes);
      outPackets := outPackets + [p];
      outPacketCount := outPacketCount + 1;
    }

    /** packet__cleanup_all_no_locks: nothing is left to send. */
    method CleanupAll()
      requires Valid()
      modifies this`current, this`outPackets, this`outPacketCount
      ensures Valid() && Pending() == [] && outPacketCount == 0
    {
      if current.None? && outPackets != [] {
        current, outPackets := Some(outPackets[0]), outPackets[1..];
      }
      while current.Some?
        invariant (current.None? ==> outPackets == []) && forall i :: 0 <= i < |outPackets| ==> Sound(outPackets[i])
        decreases |outPackets| + if current.Some? then 1 else 0
      {
        if outPackets != [] {
          current, outPackets := Some(outPackets[0]), outPackets[1..];
        } else {
          current := None;
        }
      }
      outPacketCount := 0;
    }
  }

  /** The incoming half of struct mosquitto; the fields of in_packet stand side by side. */
  class Receiver {
    var command: byte
    var remainingCount: int
    var remainingMult: nat
    var remainingLength: nat
    var payload: seq<byte>
    var toProcess: nat
    var sockOpen: bool
    var connectPending: bool
    var incoming: seq<byte>
    var schedule: seq<IoEvent>
    /** errno as the last failing call left it; an end of file does not set it. */
    var errno: IoEvent
    var handled: seq<Frame>
    /** What the socket has answered in the current call of packet__read. */
    ghost var calls: seq<IoEvent>

    ghost function P(): InPacket
      reads this
    {
      InPacket(command, remainingCount, remainingMult, remainingLength, payload, toProcess)
    }

    /** A complete length with nothing left to read never survives a call. */
    ghost predicate Valid()
      reads this
    {
      (remainingCount > 0 ==> toProcess > 0) && !errno.Ready? && !errno.Eof?
    }

    constructor ()
      ensures Valid() && P() == CLEAN && handled == [] && incoming == [] && sockOpen && !connectPending
    {
      command, remainingCount, remainingMult, remainingLength, payload, toProcess := 0, 0, 1, 0, [], 0;
      sockOpen, connectPending, incoming, schedule, errno, handled := true, false, [], [], Again, [];
      calls := [];
    }

    /** net__read: up to n of the bytes that have arrived, or none and the reason. */
    method NetRead(n: nat) returns (bytes: seq<byte>, e: IoEvent)
      requires n > 0
      modifies this`incoming, this`schedule, this`errno, this`calls
      ensures |bytes| <= n && old(incoming) == bytes + incoming
      ensures bytes != [] <==> Transfers(e) && old(incoming) != []
      ensures calls == old(calls) + [e]
      ensures if old(schedule) == [] then e == Again && schedule == []
              else e == old(schedule)[0] && schedule == old(schedule)[1..]
      ensures errno == if bytes != [] || e.Eof? then old(errno) else if e.Ready? then Again else e
    {
      e := if schedule == [] then Again else schedule[0];
      schedule := if schedule == [] then [] else schedule[1..];
      calls := calls + [e];
      bytes := [];
      if e.Ready? {
        var k := if e.k < n then e.k else n;
        k := if k < |incoming| then k else |incoming|;
        bytes := incoming[..k];
        incoming := incoming[k..];
      }
      if bytes == [] && !e.Eof? {
        errno := if e.Ready? then Again else e;
      }
    }

    /** What every part of packet__read says about the socket: it has answered from the schedule. */
    ghost predicate Asked(s0: seq<IoEvent>)
      reads this`calls, this`schedule
    {
      AllTransfer(calls) && AnswersFrom(calls, s0, schedule)
    }

    /** The answer of the socket to a read that failed, outside the body. */
    method FailedRead(e: IoEvent) returns (rc: Rc)
      ensures rc == ConnLost <==> e.Reset? || e.Eof?
      ensures rc == Errno <==> e.Proto? || e.Failed?
      ensures rc in {Success, ConnLost, Errno}
    {
      match e {
        case Eof => rc := ConnLost;
        case Reset => rc := ConnLost;
        case Again => rc := Success;
        case Interrupted => rc := Success;
        case Ready(_) => rc := Success;
        case Proto => rc := Errno;
        case Failed => rc := Errno;
      }
    }

    /** packet__cleanup */
    method Cleanup()
      modifies this`command, this`remainingCount, this`remainingMult, this`remainingLength, this`payload, this`toProcess
      ensures P() == CLEAN
    {
      command, remainingCount, remainingMult, remainingLength, payload, toProcess := 0, 0, 1, 0, [], 0;
    }

    /** The Remaining Length loop of packet__read, entered with the command known. */
    method ReadLength(ghost r0: Reader, ghost c0: seq<byte>, ghost s0: seq<IoEvent>)
      returns (complete: bool, rc: Rc, ghost c: seq<byte>)
      requires remainingCount <= 0 && Feed(r0, c0) == Fed(Reader(P(), NeedLength), [], false) && Asked(s0)
      modifies this`incoming, this`schedule, this`errno, this`calls, this`remainingCount, this`remainingMult,
        this`remainingLength, this`toProcess
      ensures c0 <= c && c0 + old(incoming) == c + incoming
      ensures complete ==> Feed(r0, c) == Settled(P()) && remainingCount > 0 && Asked(s0) && errno == old(errno)
      ensures !complete ==> ReadDecided(calls, rc, false, old(errno)) && AnswersFrom(calls, s0, schedule)
      ensures !complete && rc != MalformedPacket ==>
        Feed(r0, c) == Fed(Reader(P(), NeedLength), [], false) && remainingCount <= 0
      ensures rc == MalformedPacket ==>
        !complete && Feed(r0, c) == Fed(Reader(P(), NeedLength), [], true) && remainingCount <= 0
      ensures (old(errno).Ready? || old(errno).Eof?) || !(errno.Ready? || errno.Eof?)
    {
      hide Feed, Settled, AllTransfer, AnswersFrom, ReadDecided;
      c := c0;
      while true
        invariant remainingCount <= 0 && Feed(r0, c) == Fed(Reader(P(), NeedLength), [], false)
        invariant Asked(s0) && errno == old(errno)
        invariant c0 <= c && c0 + old(incoming) == c + incoming
        decreases |incoming|
      {
        ghost var p0, answered, left := P(), calls, schedule;
        var bytes, e := NetRead(1);
        OneAnswer(answered, s0, left, e, schedule);
        if bytes == [] {
          rc := FailedRead(e);
          ReadStoppedBy(answered, e, rc, false, old(errno));
          return false, rc, c;
        }
        var b := bytes[0];
        ExtendLength(r0, c, p0, b);
        c := c + [b];
        remainingCount := remainingCount - 1;
        if remainingCount < -4 {
          ReadStoppedBy(answered, e, MalformedPacket, false, old(errno));
          return false, MalformedPacket, c;
        }
        remainingLength := remainingLength + (b % 128) * remainingMult;
        remainingMult := remainingMult * 128;
        if b < 128 {
          break;
        }
      }
      remainingCount := -remainingCount;
      toProcess := remainingLength;
      return true, Success, c;
    }

    /** The payload loop of packet__read; here an end of file is answered by whatever errno says. */
    method ReadBody(ghost r0: Reader, ghost c0: seq<byte>, ghost s0: seq<IoEvent>)
      returns (complete: bool, rc: Rc, ghost c: seq<byte>)
      requires Feed(r0, c0) == Settled(P()) && Asked(s0) && !errno.Ready? && !errno.Eof?
      modifies this`incoming, this`schedule, this`errno, this`calls, this`payload, this`toProcess
      ensures c0 <= c && c0 + old(incoming) == c + incoming
      ensures Feed(r0, c) == Settled(P()) && complete == (toProcess == 0) && rc != MalformedPacket
      ensures ReadDecided(calls, rc, true, old(errno)) && AnswersFrom(calls, s0, schedule)
      ensures complete ==> rc == Success
      ensures complete ==> AllTransfer(calls)
      ensures !errno.Ready? && !errno.Eof?
    {
      hide Feed, Settled, AllTransfer, AnswersFrom, ReadDecided;
      c := c0;
      while toProcess > 0
        invariant Feed(r0, c) == Settled(P())
        invariant Asked(s0) && errno == old(errno)
        invariant c0 <= c && c0 + old(incoming) == c + incoming
        decreases toProcess
      {
        ghost var p0, answered, left := P(), calls, schedule;
        var bytes, e := NetRead(toProcess);
        OneAnswer(answered, s0, left, e, schedule);
        if bytes == [] {
          rc := FailedRead(errno);
          ReadStoppedBy(answered, e, rc, true, old(errno));
          return false, rc, c;
        }
        ExtendBody(r0, c, p0, bytes);
        c := c + bytes;
        toProcess := toProcess - |bytes|;
        payload := payload + bytes;
      }
      ReadUnstopped(calls, true, old(errno));
      return true, Success, c;
    }

    /** The first byte of packet__read, if no command is known yet. */
    method ReadCommand(ghost s0: seq<IoEvent>) returns (complete: bool, rc: Rc, ghost c: seq<byte>)
      requires Valid() && Asked(s0)
      modifies this`incoming, this`schedule, this`errno, this`calls, this`command
      ensures old(incoming) == c + incoming && Valid()
      ensures !complete ==> c == [] && P() == old(P()) && old(command) == 0 && rc != MalformedPacket
      ensures !complete ==> ReadDecided(calls, rc, false, old(errno)) && AnswersFrom(calls, s0, schedule)
      ensures complete ==> InPacketFrom(Reader(old(P()), Resume(old(P()))), c) && Asked(s0) && errno == old(errno)
      ensures complete ==> old(command) != 0 || c != []
    {
      hide Feed, AllTransfer, AnswersFrom, ReadDecided;
      c := [];
      ghost var p0, answered, left := P(), calls, schedule;
      FeedEmpty(Reader(p0, Resume(p0)));
      if command == 0 {
        var bytes, e := NetRead(1);
        OneAnswer(answered, s0, left, e, schedule);
        if bytes == [] {
          rc := FailedRead(e);
          ReadStoppedBy(answered, e, rc, false, old(errno));
          return false, rc, c;
        }
        ExtendCommand(p0, bytes[0]);
        c := bytes;
        assert bytes == [bytes[0]];
        command := bytes[0];
      }
      return true, Success, c;
    }

    /** Feeding c to r0 leads to the fields as they are, inside a packet with nothing delivered. */
    ghost predicate InPacketFrom(r0: Reader, c: seq<byte>)
      reads this
    {
      if remainingCount <= 0 then Feed(r0, c) == Fed(Reader(P(), NeedLength), [], false)
      else Feed(r0, c) == Settled(P())
    }

    /** The rest of packet__read: length and body, and the handing over of a complete packet. */
    method ReadRest(ghost r0: Reader, ghost c0: seq<byte>, ghost s0: seq<IoEvent>) returns (rc: Rc, ghost c: seq<byte>)
      requires InPacketFrom(r0, c0) && Asked(s0) && !errno.Ready? && !errno.Eof?
      modifies this`incoming, this`schedule, this`errno, this`calls, this`command, this`remainingCount,
        this`remainingMult, this`remainingLength, this`payload, this`toProcess, this`handled
      ensures Valid() && c0 <= c && c0 + old(incoming) == c + incoming
      ensures var t := Feed(r0, c);
              && P() == t.reader.p && handled == old(handled) + t.frames
              && (rc == MalformedPacket <==> t.rejected) && |t.frames| <= 1
      ensures ReadDecided(calls, rc, remainingCount > 0, old(errno)) && AnswersFrom(calls, s0, schedule)
    {
      hide Feed, AllTransfer, AnswersFrom, ReadDecided;
      c := c0;
      var complete;
      if remainingCount <= 0 {
        complete, rc, c := ReadLength(r0, c, s0);
        if !complete {
          return rc, c;
        }
      }
      complete, rc, c := ReadBody(r0, c, s0);
      if !complete {
        return rc, c;
      }
      handled := handled + [Frame(command, payload)];
      Cleanup();
      ReadUnstopped(calls, false, old(errno));
      return Success, c;
    }

    /**
     packet__read. Whatever bytes the call takes, it leaves the state and hands over the
     frames that feeding them one by one to the resumed parser gives. The return code is decided
     by the parser, and by what the socket answered in this call.
     */
    method PacketRead() returns (rc: Rc, ghost c: seq<byte>)
      requires Valid()
      modifies this
      ensures Valid() && old(incoming) == c + incoming
      ensures sockOpen == old(sockOpen) && connectPending == old(connectPending)
      ensures var t := Feed(Reader(old(P()), Resume(old(P()))), c);
              && P() == t.reader.p && handled == old(handled) + t.frames
              && (rc == MalformedPacket <==> t.rejected) && |t.frames| <= 1
      ensures (rc == NoConn <==> !old(sockOpen)) && (rc == NoConn ==> c == [])
      ensures old(sockOpen) ==> AnswersFrom(calls, old(schedule), schedule)
      ensures old(sockOpen) ==>
        ReadDecided(calls, rc, remainingCount > 0 && (old(command) != 0 || c != []), old(errno))
      ensures Flows(old(schedule)) && old(sockOpen) ==> rc in {Success, MalformedPacket}
    {
      hide Feed, InPacketFrom;
      c, calls := [], [];
      ghost var r0, s0 := Reader(P(), Resume(P())), schedule;
      FeedEmpty(r0);
      assert [] + incoming == incoming;
      if !sockOpen {
        return NoConn, c;
      }
      assert AnswersFrom([], s0, s0);
      rc := Success;
      ReadUnstopped([], remainingCount > 0 && command != 0, errno);
      if !connectPending {
        var complete;
        complete, rc, c := ReadCommand(s0);
        if complete {
          rc, c := ReadRest(r0, c, s0);
        }
      }
      FlowsReads(calls, s0, schedule, rc, remainingCount > 0 && (old(command) != 0 || c != []), old(errno));
    }
  }

  // ----- the answers of the socket -----

  lemma OneAnswer(calls: seq<IoEvent>, s0: seq<IoEvent>, left: seq<IoEvent>, e: IoEvent, after: seq<IoEvent>)
    requires AllTransfer(calls) && AnswersFrom(calls, s0, left)
    requires if left == [] then e == Again && after == [] else e == left[0] && after == left[1..]
    ensures AnswersFrom(calls + [e], s0, after)
    ensures Transfers(e) ==> AllTransfer(calls + [e])
  {
    assert calls == s0 + [Again] ==> !Transfers(calls[|s0|]);
    if left == [] {
      assert calls + left == calls;
    } else {
      assert calls + [e] + after == calls + left;
    }
  }

  lemma StoppedBy(calls: seq<IoEvent>, e: IoEvent, rc: Rc)
    requires AllTransfer(calls) && rc in {Success, ConnLost, Tls, Errno}
    requires (rc == ConnLost <==> e.Reset?) && (rc == Tls <==> e.Proto?) && (rc == Errno <==> e.Failed?)
    ensures WriteDecided(calls + [e], rc)
  {
    assert (calls + [e])[..|calls|] == calls;
  }

  lemma Unstopped(calls: seq<IoEvent>)
    requires AllTransfer(calls)
    ensures WriteDecided(calls, Success)
  {
  }

  lemma ReadStoppedBy(calls: seq<IoEvent>, e: IoEvent, rc: Rc, inBody: bool, stale: IoEvent)
    requires AllTransfer(calls) && rc in {Success, ConnLost, Errno, MalformedPacket}
    requires var why := if e.Eof? && inBody then stale else e;
             (rc == ConnLost <==> why.Reset? || why.Eof?) && (rc == Errno <==> why.Proto? || why.Failed?)
    ensures ReadDecided(calls + [e], rc, inBody, stale)
  {
    assert (calls + [e])[..|calls|] == calls;
  }

  lemma ReadUnstopped(calls: seq<IoEvent>, inBody: bool, stale: IoEvent)
    requires AllTransfer(calls)
    ensures ReadDecided(calls, Success, inBody, stale)
  {
  }

  /** Under a schedule that flows the socket never stops a write before the schedule has run out. */
  lemma FlowsDecides(calls: seq<IoEvent>, s0: seq<IoEvent>, after: seq<IoEvent>, rc: Rc)
    requires WriteDecided(calls, rc) && AnswersFrom(calls, s0, after)
    ensures Flows(s0) ==> rc == Success && (AllTransfer(calls) || after == [])
  {
    if Flows(s0) {
      if calls + after == s0 {
        assert forall i :: 0 <= i < |calls| ==> calls[i] == s0[i];
      } else {
        assert calls[|calls| - 1] == Again;
      }
    }
  }

  lemma FlowsReads(calls: seq<IoEvent>, s0: seq<IoEvent>, after: seq<IoEvent>, rc: Rc, inBody: bool, stale: IoEvent)
    requires ReadDecided(calls, rc, inBody, stale) && AnswersFrom(calls, s0, after)
    ensures Flows(s0) ==> rc in {Success, MalformedPacket}
  {
    if Flows(s0) && calls != [] {
      if calls + after == s0 {
        assert calls[|calls| - 1] == s0[|calls| - 1];
      } else {
        assert calls[|calls| - 1] == Again;
      }
    }
  }

  lemma FeedEmpty(r: Reader)
    ensures Feed(r, []) == Fed(r, [], false)
  {
  }

  /** The command byte of a packet. */
  lemma ExtendCommand(p: InPacket, b: byte)
    requires p.command == 0 && (p.remainingCount > 0 ==> p.toProcess > 0)
    ensures var q := p.(command := b);
            Feed(Reader(p, NeedCommand), [b])
            == if p.remainingCount <= 0 then Fed(Reader(q, NeedLength), [], false) else Settled(q)
  {
    FeedEmpty(Reader(p, NeedCommand));
    assert [] + [b] == [b];
    Extend(Reader(p, NeedCommand), [], Reader(p, NeedCommand), b);
  }

  /** The reader once the length is known: waiting for the body, or done if there is none. */
  function Settled(p: InPacket): Fed {
    var (r, out) := Settle(p);
    Fed(r, if out.Deliver? then [out.frame] else [], false)
  }

  /** Feeding one more byte to a reader that has delivered nothing so far. */
  lemma Extend(r0: Reader, c: seq<byte>, r: Reader, b: byte)
    requires Feed(r0, c) == Fed(r, [], false)
    ensures var (r', out) := OnByte(r, b);
            Feed(r0, c + [b]) == Fed(r', if out.Deliver? then [out.frame] else [], out.Reject?)
  {
    FeedConcat(r0, c, [b]);
    assert [b][1..] == [];
    var t := Feed(r, [b]);
    assert [] + t.frames == t.frames;
    assert Feed(OnByte(r, b).0, []).frames == [];
  }

  /** Feeding one byte of Remaining Length. */
  lemma ExtendLength(r0: Reader, c: seq<byte>, p: InPacket, b: byte)
    requires Feed(r0, c) == Fed(Reader(p, NeedLength), [], false)
    ensures var count, mult := p.remainingCount - 1, p.remainingMult * 128;
            var length := p.remainingLength + (b % 128) * p.remainingMult;
            Feed(r0, c + [b])
            == if count < -4 then Fed(Reader(p.(remainingCount := count), NeedLength), [], true)
               else if b >= 128 then
                 Fed(Reader(p.(remainingCount := count, remainingLength := length, remainingMult := mult), NeedLength),
                     [], false)
               else
                 Settled(p.(remainingCount := -count, remainingLength := length, remainingMult := mult,
                            toProcess := length))
  {
    hide Feed;
    Extend(r0, c, Reader(p, NeedLength), b);
  }

  /** Feeding a chunk of the body. */
  lemma ExtendBody(r0: Reader, c: seq<byte>, p: InPacket, s: seq<byte>)
    requires Feed(r0, c) == Settled(p) && 0 < |s| <= p.toProcess
    ensures Feed(r0, c + s) == Settled(p.(payload := p.payload + s, toProcess := p.toProcess - |s|))
  {
    FeedConcat(r0, c, s);
    FeedBody(p, s);
    assert s[..|s|] == s;
    var t := Feed(Reader(p, NeedBody), s);
    assert [] + t.frames == t.frames;
  }

  lemma WriteShift(sent: seq<byte>, p: OutPacket, n: nat)
    requires Sound(p) && n <= p.toProcess
    ensures var q := p.(toProcess := p.toProcess - n, pos := p.pos + n);
            Sound(q) && sent + p.bytes[p.pos..][..n] + Rest(q) == sent + Rest(p)
  {
    assert p.bytes[p.pos..] == p.bytes[p.pos..][..n] + p.bytes[p.pos + n..];
  }

}
