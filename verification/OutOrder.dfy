/**
 The order in which outgoing messages are published for the first time. A message sent before
 one that was accepted earlier overtakes it; exactly one kind of step makes this happen.
 */
module OutOrder {
  import opened Sequences
  import opened Bytes
  import opened OutFlow
  import opened OutFlowRuns
  import opened OutResend

  /** The session, and which of its messages have been published at least once. */
  datatype Wire = Wire(s: Session, seen: set<uint16>)

  function Published(sent: seq<Sent>): set<uint16> {
    set p | p in sent && p.SentPublish? :: p.mid
  }

  function Mids(msgs: seq<Msg>): set<uint16> {
    set m | m in msgs :: m.mid
  }

  function Advance(w: Wire, e: Event): Wire {
    var (s, sent) := Step(w.s, e);
    Wire(s, (w.seen + Published(sent)) * Mids(s.msgs))
  }

  /** No message has been published before an earlier one. */
  ghost predicate InOrder(w: Wire) {
    forall i, j :: 0 <= i < j < |w.s.msgs| && w.s.msgs[j].mid in w.seen ==> w.s.msgs[i].mid in w.seen
  }

  /** Every live message has been published. A message accepted offline is live without that. */
  ghost predicate CaughtUp(w: Wire) {
    forall i :: 0 <= i < |w.s.msgs| && w.s.msgs[i].state != Invalid ==> w.s.msgs[i].mid in w.seen
  }

  /** What a state says about a message having been published. */
  ghost predicate StatesSeen(w: Wire) {
    forall i :: 0 <= i < |w.s.msgs| ==>
      && (w.s.msgs[i].state in {WaitForPubcomp, ResendPubrel} ==> w.s.msgs[i].mid in w.seen)
      && (w.s.connected && w.s.msgs[i].state in {WaitForPuback, WaitForPubrec} ==> w.s.msgs[i].mid in w.seen)
  }

  ghost predicate WireInv(w: Wire) {
    && Inv(w.s) && StatesOk(w.s.msgs) && w.seen <= Mids(w.s.msgs)
    && StatesSeen(w) && (w.s.active ==> CaughtUp(w))
  }

  // ----- what a release and a retry publish -----

  function LiveMids(msgs: seq<Msg>): set<uint16> {
    set m | m in msgs && m.state != Invalid :: m.mid
  }

  /** A message before and after a release that published `pub`. */
  ghost predicate Became(m: Msg, m': Msg, pub: set<uint16>, connected: bool) {
    && m'.mid == m.mid && m'.qos == m.qos
    && (m' == m || (m.state == Invalid && m' == Released(m) && (connected ==> m.mid in pub)))
  }

  lemma PublishedCons(p: Sent, rest: seq<Sent>)
    ensures Published([p] + rest) == (if p.SentPublish? then {p.mid} else {}) + Published(rest)
  {
  }

  lemma LiveMidsCons(m: Msg, rest: seq<Msg>)
    ensures LiveMids([m] + rest) == (if m.state != Invalid then {m.mid} else {}) + LiveMids(rest)
  {
  }

  /** A release publishes the messages that it makes live and no others, and nothing without a connection. */
  lemma {:induction false} ReleasePublishes(msgs: seq<Msg>, quota: nat, connected: bool)
    requires Queueable(msgs)
    ensures var f := Release(msgs, quota, connected);
            && |f.msgs| == |msgs| && (!connected ==> f.sent == [])
            && (forall i :: 0 <= i < |msgs| ==> Became(msgs[i], f.msgs[i], Published(f.sent), connected))
            && Published(f.sent) <= LiveMids(f.msgs)
    decreases |msgs|
  {
    hide Published, LiveMids;
    if msgs == [] || quota == 0 {
      PublishedNothing();
    } else {
      var rest := msgs[1..];
      var f := Release(msgs, quota, connected);
      assert f.msgs != [] ==> f.msgs == [f.msgs[0]] + f.msgs[1..];
      LiveMidsCons(f.msgs[0], f.msgs[1..]);
      if !Waiting(msgs[0]) {
        ReleasePublishes(rest, quota, connected);
      } else if !connected {
        PublishedNothing();
      } else {
        ReleasePublishes(rest, quota - 1, connected);
        PublishedCons(f.sent[0], f.sent[1..]);
        assert f.sent == [f.sent[0]] + f.sent[1..];
      }
    }
  }

  lemma PublishedNothing()
    ensures Published([]) == {}
  {
  }

  /** A retry publishes the messages whose state says so and no others. */
  lemma {:induction false} RetryPublishes(msgs: seq<Msg>)
    ensures var f := Retry(msgs);
            && |f.msgs| == |msgs|
            && (forall i :: 0 <= i < |msgs| ==> f.msgs[i].mid == msgs[i].mid && f.msgs[i].state == msgs[i].state)
            && (forall i :: 0 <= i < |msgs| && msgs[i].state in {PublishQos1, PublishQos2} ==>
                  msgs[i].mid in Published(f.sent))
            && Published(f.sent) <= LiveMids(f.msgs)
    decreases |msgs|
  {
    hide Published, LiveMids;
    PublishedNothing();
    if msgs != [] {
      var f, g, r := Retry(msgs), Retry(msgs[1..]), Retried(msgs[0]);
      RetryPublishes(msgs[1..]);
      LiveMidsCons(r.0, g.msgs);
      if r.1 == [] {
        assert f.sent == g.sent;
      } else {
        PublishedCons(r.1[0], g.sent);
        assert f.sent == [r.1[0]] + g.sent;
      }
    }
  }

  // ----- one step -----

  ghost predicate OrderOn(msgs: seq<Msg>, seen: set<uint16>) {
    forall i, j :: 0 <= i < j < |msgs| && msgs[j].mid in seen ==> msgs[i].mid in seen
  }

  ghost predicate AllSeen(msgs: seq<Msg>, seen: set<uint16>) {
    forall i :: 0 <= i < |msgs| && msgs[i].state != Invalid ==> msgs[i].mid in seen
  }

  lemma InMids(msgs: seq<Msg>, i: nat)
    requires i < |msgs|
    ensures msgs[i].mid in Mids(msgs)
  {
    assert msgs[i] in msgs;
  }

  lemma NewlySeen(msgs: seq<Msg>, seen: set<uint16>, i: nat)
    requires i < |msgs|
    ensures msgs[i].mid in seen * Mids(msgs) <==> msgs[i].mid in seen
  {
    InMids(msgs, i);
  }

  lemma LiveIndex(msgs: seq<Msg>, j: nat, n: nat)
    requires j < |msgs| && DistinctMids(msgs) && LiveUpTo(msgs, n) && msgs[j].mid in LiveMids(msgs)
    ensures j < n
  {
    var m :| m in msgs && m.state != Invalid && m.mid == msgs[j].mid;
    var k :| 0 <= k < |msgs| && msgs[k] == m;
  }

  /** If every live message is seen, then what is published on top keeps the order. */
  lemma PublishedOnTop(msgs: seq<Msg>, seen: set<uint16>, pub: set<uint16>, n: nat)
    requires OrderOn(msgs, seen) && DistinctMids(msgs) && LiveUpTo(msgs, n)
    requires pub <= LiveMids(msgs) && AllSeen(msgs, seen + pub)
    ensures OrderOn(msgs, (seen + pub) * Mids(msgs)) && AllSeen(msgs, (seen + pub) * Mids(msgs))
  {
    var seen' := (seen + pub) * Mids(msgs);
    forall i, j | 0 <= i < j < |msgs| && msgs[j].mid in seen' ensures msgs[i].mid in seen' {
      NewlySeen(msgs, seen + pub, i);
      if msgs[j].mid !in seen { LiveIndex(msgs, j, n); }
    }
    forall i | 0 <= i < |msgs| && msgs[i].state != Invalid ensures msgs[i].mid in seen' {
      NewlySeen(msgs, seen + pub, i);
    }
  }

  /** The general step of an active client: messages `kept`, then a release. */
  lemma ReleaseKeepsWire(kept: Session, seen: set<uint16>)
    requires Inv(ReleaseIn(kept).0) && kept.connected && Queueable(kept.msgs) && StatesOk(kept.msgs)
    requires OrderOn(kept.msgs, seen) && AllSeen(kept.msgs, seen)
    ensures var (s, sent) := ReleaseIn(kept);
            var w := Wire(s, (seen + Published(sent)) * Mids(s.msgs));
            WireInv(w) && InOrder(w) && CaughtUp(w)
  {
    hide Release, Published, LiveMids, Mids;
    ReleasePublishes(kept.msgs, kept.quota, true);
    ReleaseStatesOk(kept.msgs, kept.quota, true);
    var (s, sent) := ReleaseIn(kept);
    var pub := Published(sent);
    assert OrderOn(s.msgs, seen);
    PublishedOnTop(s.msgs, seen, pub, Live(s.msgs));
    MidsOnly(seen + pub, s.msgs);
  }

  lemma MidsOnly(seen: set<uint16>, msgs: seq<Msg>)
    ensures seen * Mids(msgs) <= Mids(msgs)
  {
  }

  lemma WithoutKeepsOrder(msgs: seq<Msg>, seen: set<uint16>, k: nat)
    requires k < |msgs| && OrderOn(msgs, seen)
    ensures OrderOn(Without(msgs, k), seen) && (AllSeen(msgs, seen) ==> AllSeen(Without(msgs, k), seen))
    ensures Queueable(msgs) ==> Queueable(Without(msgs, k))
    ensures StatesOk(msgs) ==> StatesOk(Without(msgs, k))
  {
    var r := Without(msgs, k);
    assert forall i :: 0 <= i < |r| ==> r[i] == msgs[if i < k then i else i + 1];
  }

  lemma AckKeepsOrder(w: Wire, mid: uint16, qos: nat)
    requires WireInv(w) && InOrder(w) && Legal(w.s, Ack(mid, qos))
    ensures WireInv(Advance(w, Ack(mid, qos))) && InOrder(Advance(w, Ack(mid, qos)))
  {
    AckKeeps(w.s, mid, qos);
    LookupLive(w.s, mid, qos);
    var i := Lookup(w.s.msgs, mid, qos).i;
    WithoutKeepsOrder(w.s.msgs, w.seen, i);
    ReleaseKeepsWire(Dropped(w.s.(quota := Increment(w.s.quota, w.s.maximum)), i), w.seen);
  }

  lemma PubrecKeepsOrder(w: Wire, mid: uint16, refused: bool)
    requires WireInv(w) && InOrder(w) && Legal(w.s, Pubrec(mid, refused))
    ensures WireInv(Advance(w, Pubrec(mid, refused))) && InOrder(Advance(w, Pubrec(mid, refused)))
  {
    hide WireInv, InOrder, Legal;
    if refused { RefusalKeepsOrder(w, mid); } else { AcceptanceKeepsOrder(w, mid); }
  }

  lemma AcceptanceKeepsOrder(w: Wire, mid: uint16)
    requires WireInv(w) && InOrder(w) && Legal(w.s, Pubrec(mid, false))
    ensures WireInv(Advance(w, Pubrec(mid, false))) && InOrder(Advance(w, Pubrec(mid, false)))
  {
    hide Lookup, StateOk, Mids;
    PubrecKeeps(w.s, mid, false);
    LookupLive(w.s, mid, 2);
    StepStatesOk(w.s, Pubrec(mid, false));
    var i := Lookup(w.s.msgs, mid, 2).i;
    var msgs := w.s.msgs[i := w.s.msgs[i].(state := WaitForPubcomp)];
    SameSeen(w, msgs, [SentPubrel(mid)]);
    assert Advance(w, Pubrec(mid, false)) == Wire(w.s.(msgs := msgs), w.seen);
    MidsOnly(w.seen + Published([SentPubrel(mid)]), msgs);
  }

  lemma RefusalKeepsOrder(w: Wire, mid: uint16)
    requires WireInv(w) && InOrder(w) && Legal(w.s, Pubrec(mid, true))
    ensures WireInv(Advance(w, Pubrec(mid, true))) && InOrder(Advance(w, Pubrec(mid, true)))
  {
    hide Lookup;
    PubrecKeeps(w.s, mid, true);
    LookupLive(w.s, mid, 2);
    var i := Lookup(w.s.msgs, mid, 2).i;
    WithoutKeepsOrder(w.s.msgs, w.seen, i);
    ReleaseKeepsWire(Dropped(w.s, i).(quota := Increment(w.s.quota, w.s.maximum)), w.seen);
  }

  /** Nothing is published and no message comes or goes: the same are seen. */
  lemma SameSeen(w: Wire, msgs: seq<Msg>, sent: seq<Sent>)
    requires w.seen <= Mids(w.s.msgs) && SameMessages(msgs, w.s.msgs) && Published(sent) == {}
    ensures (w.seen + Published(sent)) * Mids(msgs) == w.seen
  {
    forall mid | mid in w.seen ensures mid in Mids(msgs) {
      var m :| m in w.s.msgs && m.mid == mid;
      var i :| 0 <= i < |w.s.msgs| && w.s.msgs[i] == m;
      InMids(msgs, i);
    }
  }

  lemma AppendUnseen(w: Wire, m: Msg)
    requires WireInv(w) && InOrder(w) && forall i :: 0 <= i < |w.s.msgs| ==> w.s.msgs[i].mid != m.mid
    ensures m.mid !in w.seen && OrderOn(w.s.msgs + [m], w.seen)
    ensures m.state == Invalid && CaughtUp(w) ==> AllSeen(w.s.msgs + [m], w.seen)
  {
  }

  /** Published with a connection and quota left before the CONNACK: it goes out at once, alone. */
  lemma PublishAtOnce(w: Wire, mid: uint16, qos: nat)
    requires WireInv(w) && InOrder(w) && Legal(w.s, Publish(mid, qos)) && w.s.connected && w.s.quota > 0
    ensures var v := Advance(w, Publish(mid, qos));
            var m := Released(Msg(mid, qos, Invalid, false));
            v.s.msgs == w.s.msgs + [m] && v.seen == w.seen + {mid}
    ensures InOrder(Advance(w, Publish(mid, qos))) <==> CaughtUp(w)
    ensures !w.s.active ==> StatesSeen(Advance(w, Publish(mid, qos)))
  {
    hide Release, Mids;
    var m := Msg(mid, qos, Invalid, false);
    ReleaseLast(w.s.msgs, m, w.s.quota);
    MidsAppend(w.s.msgs, Released(m));
    AppendUnseen(w, m);
    assert Published([SentPublish(mid, qos, false)]) == {mid};
    assert Step(w.s, Publish(mid, qos)).0.msgs == w.s.msgs + [Released(m)];
    assert w.seen <= Mids(w.s.msgs);
    AppendSeen(w.s.msgs, Released(m), w.seen);
  }

  lemma AppendSeen(msgs: seq<Msg>, m: Msg, seen: set<uint16>)
    requires OrderOn(msgs, seen) && forall i :: 0 <= i < |msgs| ==> msgs[i].mid != m.mid
    ensures OrderOn(msgs + [m], seen + {m.mid}) <==> forall i :: 0 <= i < |msgs| ==> msgs[i].mid in seen
  {
    var all := msgs + [m];
    if OrderOn(all, seen + {m.mid}) {
      forall i | 0 <= i < |msgs| ensures msgs[i].mid in seen {
        assert all[i] == msgs[i] && all[|msgs|] == m;
      }
    }
  }

  lemma MidsAppend(msgs: seq<Msg>, m: Msg)
    ensures Mids(msgs + [m]) == Mids(msgs) + {m.mid}
  {
    assert forall x :: x in msgs + [m] <==> x in msgs || x == m;
  }

  /** Published without a connection, or without quota: nothing goes out. */
  lemma PublishLater(w: Wire, mid: uint16, qos: nat)
    requires WireInv(w) && InOrder(w) && Legal(w.s, Publish(mid, qos)) && (!w.s.connected || w.s.quota == 0)
    ensures Advance(w, Publish(mid, qos)).seen == w.seen && InOrder(Advance(w, Publish(mid, qos)))
    ensures !w.s.active ==> StatesSeen(Advance(w, Publish(mid, qos)))
  {
    hide Release, Published, Mids, LiveMids;
    var m := Msg(mid, qos, Invalid, false);
    var msgs := w.s.msgs + [m];
    var f := Release(msgs, w.s.quota, w.s.connected);
    ReleasePublishes(msgs, w.s.quota, w.s.connected);
    NoQuotaNoRelease(msgs, w.s.connected);
    AppendUnseen(w, m);
    MidsAppend(w.s.msgs, m);
    PublishedNothing();
    SameSeen(w.(s := w.s.(msgs := msgs)), f.msgs, []);
    assert Advance(w, Publish(mid, qos)) == Wire(Step(w.s, Publish(mid, qos)).0, w.seen);
    assert Advance(w, Publish(mid, qos)).s.msgs == f.msgs;
  }

  lemma NoQuotaNoRelease(msgs: seq<Msg>, connected: bool)
    ensures Release(msgs, 0, connected) == Flow(msgs, 0, [])
  {
  }

  /**
   A publish overtakes an earlier message exactly when there is a connection and quota for it
   while a message accepted offline still waits for the CONNACK to be published.
   */
  lemma PublishKeepsOrderIff(w: Wire, mid: uint16, qos: nat)
    requires WireInv(w) && InOrder(w) && Legal(w.s, Publish(mid, qos))
    ensures WireInv(Advance(w, Publish(mid, qos)))
    ensures InOrder(Advance(w, Publish(mid, qos))) <==> !w.s.connected || w.s.quota == 0 || CaughtUp(w)
  {
    var m := Msg(mid, qos, Invalid, false);
    PublishKeeps(w.s, mid, qos);
    StepStatesOk(w.s, Publish(mid, qos));
    AppendUnseen(w, m);
    if w.s.active {
      ReleaseKeepsWire(w.s.(msgs := w.s.msgs + [m], queueLen := w.s.queueLen + 1), w.seen);
    } else if w.s.connected && w.s.quota > 0 {
      PublishAtOnce(w, mid, qos);
      MidsOnly(w.seen + Published(Step(w.s, Publish(mid, qos)).1), Step(w.s, Publish(mid, qos)).0.msgs);
    } else {
      PublishLater(w, mid, qos);
      MidsOnly(w.seen + Published(Step(w.s, Publish(mid, qos)).1), Step(w.s, Publish(mid, qos)).0.msgs);
    }
  }

  lemma ReconnectKeepsOrder(w: Wire, ok: bool)
    requires WireInv(w) && InOrder(w)
    ensures WireInv(Advance(w, Reconnect(ok))) && InOrder(Advance(w, Reconnect(ok)))
  {
    hide Reset, Published, Mids, StateOk;
    StepKeeps(w.s, Reconnect(ok));
    StepStatesOk(w.s, Reconnect(ok));
    ResetSeen(w);
    PublishedNothing();
    SameSeen(w, Reset(w.s.msgs, w.s.maximum, false).msgs, []);
  }

  /** The reset of a reconnect: whoever waits for an answer to PUBREL has been published. */
  lemma ResetSeen(w: Wire)
    requires WireInv(w) && InOrder(w)
    ensures var a := Reset(w.s.msgs, w.s.maximum, false).msgs;
            && SameMessages(a, w.s.msgs) && OrderOn(a, w.seen)
            && forall i :: 0 <= i < |a| && a[i].state !in {Invalid, PublishQos1, PublishQos2} ==> a[i].mid in w.seen
    ensures var a := Reset(w.s.msgs, w.s.maximum, false).msgs;
            forall i :: 0 <= i < |a| ==> a[i].state !in {WaitForPuback, WaitForPubrec}
  {
    ResetAt(w.s.msgs, w.s.maximum, false);
    hide Reset;
    var a := Reset(w.s.msgs, w.s.maximum, false).msgs;
    forall i | 0 <= i < |a|
      ensures a[i].state !in {WaitForPuback, WaitForPubrec}
      ensures a[i].state !in {Invalid, PublishQos1, PublishQos2} ==> a[i].mid in w.seen
    {
      assert StateOk(w.s.msgs[i]);
    }
  }

  /** The recount of a CONNACK: whoever is not to be resent has been published. */
  lemma RecountSeen(w: Wire)
    requires WireInv(w) && InOrder(w) && w.s.connected
    ensures var a := Reset(w.s.msgs, w.s.maximum, true).msgs;
            && SameMessages(a, w.s.msgs) && OrderOn(a, w.seen) && (w.s.active ==> AllSeen(a, w.seen))
            && forall i :: 0 <= i < |a| && a[i].state !in {Invalid, PublishQos1, PublishQos2} ==> a[i].mid in w.seen
  {
    ResetAt(w.s.msgs, w.s.maximum, true);
    hide Reset;
    var a := Reset(w.s.msgs, w.s.maximum, true).msgs;
    forall i | 0 <= i < |a| && a[i].state !in {Invalid, PublishQos1, PublishQos2} ensures a[i].mid in w.seen {
      assert StateOk(w.s.msgs[i]);
    }
  }

  /** The retry of a CONNACK brings every live message up to date. */
  lemma RetryCatchesUp(a: seq<Msg>, seen: set<uint16>, n: nat)
    requires OrderOn(a, seen) && DistinctMids(Retry(a).msgs) && LiveUpTo(Retry(a).msgs, n)
    requires forall i :: 0 <= i < |a| && a[i].state !in {Invalid, PublishQos1, PublishQos2} ==> a[i].mid in seen
    ensures var r := Retry(a);
            var seen' := (seen + Published(r.sent)) * Mids(r.msgs);
            OrderOn(r.msgs, seen') && AllSeen(r.msgs, seen')
  {
    RetryPublishes(a);
    hide Retry, Published, LiveMids, Mids;
    var r := Retry(a);
    assert OrderOn(r.msgs, seen);
    PublishedOnTop(r.msgs, seen, Published(r.sent), n);
  }

  lemma ConnackKeepsOrder(w: Wire, accepted: bool)
    requires WireInv(w) && InOrder(w) && w.s.connected
    ensures WireInv(Advance(w, Connack(accepted))) && InOrder(Advance(w, Connack(accepted)))
  {
    hide Reset, Retry, Published, Mids, StateOk;
    ConnackKeeps(w.s, accepted);
    StepStatesOk(w.s, Connack(accepted));
    RecountSeen(w);
    var a, v := Reset(w.s.msgs, w.s.maximum, true).msgs, Advance(w, Connack(accepted));
    if accepted {
      RetryCatchesUp(a, w.seen, Live(v.s.msgs));
      MidsOnly(w.seen + Published(Retry(a).sent), v.s.msgs);
      assert CaughtUp(v);
    } else {
      PublishedNothing();
      SameSeen(w, a, []);
    }
  }

  lemma LossKeepsOrder(w: Wire)
    requires WireInv(w) && InOrder(w)
    ensures WireInv(Advance(w, ConnectionLost)) && InOrder(Advance(w, ConnectionLost))
  {
    StepKeeps(w.s, ConnectionLost);
    PublishedNothing();
    SameSeen(w, w.s.msgs, []);
  }

  // ----- whole runs -----

  /** No publish of the run has a connection and quota while an earlier message waits for the CONNACK. */
  ghost predicate NoneOvertakes(w: Wire, es: seq<Event>)
    decreases |es|
  {
    es == [] || ((es[0].Publish? ==> !w.s.connected || w.s.quota == 0 || CaughtUp(w))
                 && NoneOvertakes(Advance(w, es[0]), es[1..]))
  }

  ghost predicate AlwaysInOrder(w: Wire, es: seq<Event>)
    decreases |es|
  {
    InOrder(w) && (es == [] || AlwaysInOrder(Advance(w, es[0]), es[1..]))
  }

  lemma StepKeepsOrder(w: Wire, e: Event)
    requires WireInv(w) && InOrder(w) && Legal(w.s, e)
    ensures WireInv(Advance(w, e))
    ensures InOrder(Advance(w, e)) <==> (e.Publish? ==> !w.s.connected || w.s.quota == 0 || CaughtUp(w))
  {
    hide WireInv, InOrder, Advance, CaughtUp;
    match e
    case Publish(mid, qos) => PublishKeepsOrderIff(w, mid, qos);
    case Ack(mid, qos) => AckKeepsOrder(w, mid, qos);
    case Pubrec(mid, refused) => PubrecKeepsOrder(w, mid, refused);
    case ConnectionLost => LossKeepsOrder(w);
    case Reconnect(ok) => ReconnectKeepsOrder(w, ok);
    case Connack(accepted) => ConnackKeepsOrder(w, accepted);
  }

  /** On every legal run messages are first published in the order of the list exactly when no publish overtakes. */
  lemma {:induction false} FirstPublishedInOrderIff(w: Wire, es: seq<Event>)
    requires WireInv(w) && InOrder(w) && LegalRun(w.s, es)
    ensures AlwaysInOrder(w, es) <==> NoneOvertakes(w, es)
    decreases |es|
  {
    if es != [] {
      hide WireInv, InOrder, CaughtUp;
      StepKeepsOrder(w, es[0]);
      var v := Advance(w, es[0]);
      if InOrder(v) { FirstPublishedInOrderIff(v, es[1..]); }
    }
  }

  /** A new client satisfies all of this. */
  lemma NewClient(maximum: nat)
    ensures WireInv(Wire(Fresh(maximum), {})) && InOrder(Wire(Fresh(maximum), {}))
  {
  }

  /** For instance: the first message is accepted offline, the second after the reconnect and before the CONNACK. */
  lemma SecondOvertakesFirst(a: uint16, b: uint16)
    requires a != 0 && b != 0 && a != b
    ensures var w := Wire(Session([Msg(a, 1, PublishQos1, false)], 1, 2, 1, true, false), {});
            && Step(Step(Fresh(2), Publish(a, 1)).0, Reconnect(true)).0 == w.s
            && WireInv(w) && InOrder(w) && !InOrder(Advance(w, Publish(b, 1)))
  {
    hide Step, Advance;
    OfflineThenReconnect(a);
    var r := Msg(a, 1, PublishQos1, false);
    assert [r][1..] == [] && Live([r]) == 1 + Live([]);
    PublishKeepsOrderIff(Wire(Session([r], 1, 2, 1, true, false), {}), b, 1);
  }

  lemma OfflineThenReconnect(a: uint16)
    ensures Step(Step(Fresh(2), Publish(a, 1)).0, Reconnect(true)).0
         == Session([Msg(a, 1, PublishQos1, false)], 1, 2, 1, true, false)
  {
    var m := Msg(a, 1, Invalid, false);
    assert [] + [m] == [m] && [m][1..] == [] && [Released(m)] + [] == [Released(m)];
    assert Step(Fresh(2), Publish(a, 1)).0.msgs == [Released(m)];
    assert [Released(m)][1..] == [] && Reset([], 1, false) == Flow([], 1, []);
  }
}
