/**
 One connection end to end: a sender draining its queue through partial writes, a network
 that delivers the sent bytes in order a few at a time, and a receiver whose packet__read
 may stop after any byte. Every method is one step of a run; the invariant holds after any
 sequence of steps, and it makes the frames handled a prefix of the frames queued.
 */
module Link {
  import opened Sequences
  import opened Bytes
  import opened Frames
  import opened PacketIO

  lemma {:induction false} FramesBytesAppend(fs: seq<Frame>, f: Frame)
    ensures FramesBytes(fs + [f]) == FramesBytes(fs) + FrameBytes(f)
  {
    if fs == [] {
      assert fs + [f] == [f] && [f][1..] == [];
      assert FramesBytes([f]) == FrameBytes(f) + FramesBytes([f][1..]);
    } else {
      assert (fs + [f])[1..] == fs[1..] + [f];
      FramesBytesAppend(fs[1..], f);
    }
  }

  class Connection {
    const tx: Sender
    const rx: Receiver
    ghost var queued: seq<Frame>
    ghost var consumed: seq<byte>
    var inFlight: nat

    ghost predicate Valid()
      reads this, tx, rx
    {
      && tx.Valid() && rx.Valid()
      && (forall f | f in queued :: Sendable(f))
      // everything queued is on the wire or still with the sender
      && tx.sent + tx.Pending() == FramesBytes(queued)
      // everything sent has been read, has arrived, or is in flight
      && inFlight <= |tx.sent| && tx.sent[..|tx.sent| - inFlight] == consumed + rx.incoming
      // the receiver is where feeding the bytes read so far puts it
      && Feed(START, consumed) == Fed(Reader(rx.P(), Resume(rx.P())), rx.handled, false)
    }

    constructor ()
      ensures Valid() && queued == [] && fresh(tx) && fresh(rx)
    {
      tx := new Sender();
      rx := new Receiver();
      queued, consumed, inFlight := [], [], 0;
    }

    method Queue(f: Frame, writeNow: bool) returns (rc: Rc)
      requires Valid() && Sendable(f)
      modifies this, tx
      ensures Valid() && queued == old(queued) + [f] && rx.handled == old(rx.handled)
    {
      hide Feed, Frames.FramesBytes, Frames.FrameBytes, Unsent;
      var before := tx.sent;
      FramesBytesAppend(queued, f);
      rc := tx.PacketQueue(f, writeNow);
      queued := queued + [f];
      Grow(before, tx.sent, inFlight);
      inFlight := inFlight + (|tx.sent| - |before|);
    }

    method Write() returns (rc: Rc)
      requires Valid()
      modifies this, tx
      ensures Valid() && queued == old(queued) && rx.handled == old(rx.handled)
    {
      hide Feed, Frames.FramesBytes, Unsent;
      var before := tx.sent;
      rc := tx.PacketWrite();
      Grow(before, tx.sent, inFlight);
      inFlight := inFlight + (|tx.sent| - |before|);
    }

    /** The environment decides what the socket calls to come will do, and when the sockets are usable. */
    method Plan(toWrite: seq<IoEvent>, toRead: seq<IoEvent>, txPending: bool, rxPending: bool)
      requires Valid()
      modifies tx`schedule, rx`schedule, tx`connectPending, rx`connectPending
      ensures Valid() && tx.schedule == toWrite && rx.schedule == toRead && rx.handled == old(rx.handled)
      ensures tx.connectPending == txPending && rx.connectPending == rxPending
    {
      tx.schedule, tx.connectPending := toWrite, txPending;
      rx.schedule, rx.connectPending := toRead, rxPending;
    }

    /** The network delivers the next n bytes. */
    method Arrive(n: nat)
      requires Valid() && n <= inFlight
      modifies this, rx
      ensures Valid() && queued == old(queued) && rx.handled == old(rx.handled)
    {
      hide Feed, Frames.FramesBytes, Unsent;
      var k := |tx.sent| - inFlight;
      assert tx.sent[..k + n] == tx.sent[..k] + tx.sent[k..k + n];
      Regroup(consumed, rx.incoming, tx.sent[k..k + n]);
      rx.incoming := rx.incoming + tx.sent[k..k + n];
      inFlight := inFlight - n;
    }

    method Read() returns (rc: Rc)
      requires Valid()
      modifies this, rx
      ensures Valid() && queued == old(queued) && old(rx.handled) <= rx.handled
      ensures rc != MalformedPacket
    {
      hide Feed, Frames.FramesBytes, Unsent, Sendable;
      ghost var c;
      ghost var p, handled := rx.P(), rx.handled;
      rc, c := rx.PacketRead();
      Regroup(consumed, c, rx.incoming);
      PrefixOfAll(consumed + c, rx.incoming, tx.sent, inFlight, tx.Pending());
      ReadKeeps(queued, consumed, c, p, handled);
      consumed := consumed + c;
    }
  }

  lemma Grow(before: seq<byte>, after: seq<byte>, inFlight: nat)
    requires before <= after && inFlight <= |before|
    ensures var k := inFlight + (|after| - |before|);
            k <= |after| && after[..|after| - k] == before[..|before| - inFlight]
  {
  }

  /** What reading c of a stream of frames does to a reader that has read `before` of it. */
  lemma ReadKeeps(queued: seq<Frame>, before: seq<byte>, c: seq<byte>, p: InPacket, handled: seq<Frame>)
    requires (forall f | f in queued :: Sendable(f)) && before + c <= FramesBytes(queued)
    requires Feed(START, before) == Fed(Reader(p, Resume(p)), handled, false)
    ensures var t := Feed(Reader(p, Resume(p)), c);
            && !t.rejected
            && Feed(START, before + c) == Fed(Reader(t.reader.p, Resume(t.reader.p)), handled + t.frames, false)
  {
    hide Feed, Frames.FramesBytes;
    FeedConcat(START, before, c);
    ArrivedPartIsPrefix(queued, before + c);
    FeedSane(START, before + c);
  }

  lemma PrefixOfAll(a: seq<byte>, b: seq<byte>, sent: seq<byte>, k: nat, pending: seq<byte>)
    requires k <= |sent| && sent[..|sent| - k] == a + b
    ensures a <= sent + pending
  {
    assert sent == sent[..|sent| - k] + sent[|sent| - k..];
  }

  /**
   On every run the frames handed over so far are a prefix of the frames queued; and when all
   bytes have been sent and read they are all of them.
   */
  lemma ChannelIsTransparent(c: Connection)
    requires c.Valid()
    ensures c.rx.handled <= c.queued
    ensures c.tx.Pending() == [] && c.inFlight == 0 && c.rx.incoming == [] ==> c.rx.handled == c.queued
  {
    PrefixOfAll(c.consumed, c.rx.incoming, c.tx.sent, c.inFlight, c.tx.Pending());
    ArrivedPartIsPrefix(c.queued, c.consumed);
    if c.tx.Pending() == [] && c.inFlight == 0 && c.rx.incoming == [] {
      assert c.consumed == FramesBytes(c.queued);
    }
  }
}
