/**
 What an outgoing session does in answer to each event, told by the packets it sends, by whether
 the client is active and by the messages that are still unfinished.
 */
module OutAnswers {
  import opened Sequences
  import opened Bytes
  import opened OutFlow
  import opened OutFlowRuns
  import opened OutResend
  import opened OutOrder

  // ----- CONNACK and the state of the client -----

  /** The connection goes down, or is opened anew. */
  predicate Drops(e: Event) {
    e.ConnectionLost? || e.Reconnect?
  }

  /** A refused CONNACK sends nothing and does not make the client active. */
  lemma RefusedConnackIsSilent(s: Session)
    ensures var (t, sent) := Step(s, Connack(false));
            && sent == [] && t.active == s.active && t.connected == s.connected
            && SameMessages(t.msgs, s.msgs) && (forall i :: 0 <= i < |s.msgs| ==> t.msgs[i].dup == s.msgs[i].dup)
  {
    ResetAt(s.msgs, s.maximum, true);
  }

  lemma StepActive(s: Session, e: Event)
    ensures Step(s, e).0.active <==> e == Connack(true) || (s.active && !Drops(e))
    ensures Step(s, e).0.connected <==> e == Reconnect(true) || (s.connected && !Drops(e))
  {
    hide Release, Reset, Retry, Lookup;
  }

  /** Some event e of the run is followed by no drop of the connection. */
  ghost predicate StandsFrom(es: seq<Event>, e: Event, i: int) {
    0 <= i < |es| && es[i] == e && forall j :: i < j < |es| ==> !Drops(es[j])
  }

  /**
   The client is active exactly when an accepted CONNACK has come since the connection last
   dropped, and connected exactly when a reconnect has succeeded since.
   */
  lemma {:induction false} ActiveIff(s: Session, es: seq<Event>)
    ensures Run(s, es).0.active
       <==> (s.active && forall j :: 0 <= j < |es| ==> !Drops(es[j])) || exists i :: StandsFrom(es, Connack(true), i)
    ensures Run(s, es).0.connected
       <==> (s.connected && forall j :: 0 <= j < |es| ==> !Drops(es[j]))
             || exists i :: StandsFrom(es, Reconnect(true), i)
    decreases |es|
  {
    if es != [] {
      var e, rest := es[0], es[1..];
      StepActive(s, e);
      hide Step;
      ActiveIff(Step(s, e).0, rest);
      StandsCons(es, Connack(true));
      StandsCons(es, Reconnect(true));
      assert (forall j :: 0 <= j < |es| ==> !Drops(es[j]))
          <==> !Drops(e) && forall j :: 0 <= j < |rest| ==> !Drops(rest[j]) by {
        assert forall j :: 0 <= j < |rest| ==> rest[j] == es[j + 1];
      }
    }
  }

  lemma StandsCons(es: seq<Event>, e: Event)
    requires es != []
    ensures (exists i :: StandsFrom(es, e, i))
       <==> (es[0] == e && forall j :: 0 <= j < |es[1..]| ==> !Drops(es[1..][j]))
             || exists i :: StandsFrom(es[1..], e, i)
  {
    var rest := es[1..];
    if i :| StandsFrom(es, e, i) {
      if i > 0 {
        assert StandsFrom(rest, e, i - 1);
      } else {
        assert forall j :: 0 <= j < |rest| ==> rest[j] == es[j + 1];
      }
    }
    if i :| StandsFrom(rest, e, i) {
      assert forall j :: i + 1 < j < |es| ==> es[j] == rest[j - 1];
      assert StandsFrom(es, e, i + 1);
    }
    if es[0] == e && forall j :: 0 <= j < |rest| ==> !Drops(rest[j]) {
      assert forall j :: 0 < j < |es| ==> es[j] == rest[j - 1];
      assert StandsFrom(es, e, 0);
    }
  }

  ghost predicate NoDups(msgs: seq<Msg>) {
    forall i :: 0 <= i < |msgs| ==> !msgs[i].dup
  }

  predicate FirstPublish(p: Sent) {
    p.SentPublish? && !p.dup
  }

  /** A release publishes with the dup flag that the message has. */
  lemma {:induction false} ReleaseDups(msgs: seq<Msg>, quota: nat, connected: bool)
    requires NoDups(msgs)
    ensures var f := Release(msgs, quota, connected);
            NoDups(f.msgs) && forall p | p in f.sent :: FirstPublish(p)
    decreases |msgs|
  {
    if msgs != [] && quota > 0 {
      if !Waiting(msgs[0]) { ReleaseDups(msgs[1..], quota, connected); }
      else if connected { ReleaseDups(msgs[1..], quota - 1, connected); }
    }
  }

  lemma NoConnackStep(s: Session, e: Event)
    requires NoDups(s.msgs) && !s.active && e != Connack(true)
    ensures var (t, sent) := Step(s, e);
            NoDups(t.msgs) && !t.active && forall p | p in sent :: FirstPublish(p)
  {
    hide Release, Reset, Retry, Lookup;
    match e
    case Publish(mid, qos) =>
      ReleaseDups(s.msgs + [Msg(mid, qos, Invalid, false)], s.quota, s.connected);
    case Reconnect(ok) => ResetAt(s.msgs, s.maximum, false);
    case Connack(accepted) => ResetAt(s.msgs, s.maximum, true);
    case _ =>
  }

  /**
   As long as every CONNACK is refused, on any run, the client does not become active, resends
   nothing and answers nothing: all it sends are first publishes.
   */
  lemma {:induction false} RefusedRunsResendNothing(s: Session, es: seq<Event>)
    requires NoDups(s.msgs) && !s.active && forall i :: 0 <= i < |es| ==> es[i] != Connack(true)
    ensures var (t, sent) := Run(s, es);
            NoDups(t.msgs) && !t.active && forall p | p in sent :: FirstPublish(p)
    decreases |es|
  {
    if es != [] {
      NoConnackStep(s, es[0]);
      hide Step;
      RefusedRunsResendNothing(Step(s, es[0]).0, es[1..]);
    }
  }

  /** Without a connection no packet is handed over at all. */
  lemma SilentWithoutConnection(s: Session, e: Event)
    requires Inv(s) && Legal(s, e) && !s.connected
    ensures Step(s, e).1 == []
  {
    if e.Publish? {
      hide Release;
      var msgs := s.msgs + [Msg(e.mid, e.qos, Invalid, false)];
      ReleasePublishes(msgs, s.quota, false);
    }
  }

  // ----- the send quota -----

  ghost predicate QosOk(msgs: seq<Msg>) {
    forall i :: 0 <= i < |msgs| ==> msgs[i].qos <= 2
  }

  lemma {:induction false} ReleaseCharges(msgs: seq<Msg>, quota: nat, connected: bool)
    ensures var f := Release(msgs, quota, connected);
            && f.quota + |f.sent| == quota && |f.msgs| == |msgs|
            && (connected && QosOk(msgs) ==> f.quota == 0 || forall i :: 0 <= i < |msgs| ==> !Waiting(f.msgs[i]))
    decreases |msgs|
  {
    if msgs != [] && quota > 0 {
      if !Waiting(msgs[0]) { ReleaseCharges(msgs[1..], quota, connected); }
      else if connected { ReleaseCharges(msgs[1..], quota - 1, connected); }
    }
  }

  /** The events that put a unit of quota back, up to the maximum. */
  predicate Refunds(s: Session, e: Event) {
    s.active && (e.Ack? || (e.Pubrec? && e.refused && e.mid != 0))
  }

  /**
   In any state: every first publish costs one unit of quota, an acknowledgement or a refused
   PUBREC of any kind puts one back, and reconnect and CONNACK charge every message in the list.
   The queue length moves with the list.
   */
  lemma SendQuotaLaw(s: Session, e: Event)
    requires s.quota <= s.maximum
    ensures var (t, sent) := Step(s, e);
            && (e.Publish? || e.Ack? || (e.Pubrec? && e.refused) ==>
                  t.quota + |sent| == if Refunds(s, e) then Min(s.quota + 1, s.maximum) else s.quota)
            && (e.ConnectionLost? || (e.Pubrec? && !e.refused) ==> t.quota == s.quota)
            && (e.Reconnect? || e.Connack? ==> t.quota == s.maximum - Min(s.maximum, |s.msgs|))
            && (if e.Reconnect? || e.Connack? then t.queueLen == |t.msgs|
                else t.queueLen - |t.msgs| == s.queueLen - |s.msgs|)
  {
    hide Release, Reset, Retry, Lookup;
    match e
    case Publish(mid, qos) => ReleaseCharges(s.msgs + [Msg(mid, qos, Invalid, false)], s.quota, s.connected);
    case Ack(mid, qos) =>
      var l := Lookup(s.msgs, mid, qos);
      ReleaseCharges(if l.At? then Without(s.msgs, l.i) else s.msgs, Increment(s.quota, s.maximum), s.connected);
    case Pubrec(mid, refused) =>
      var l := Lookup(s.msgs, mid, 2);
      ReleaseCharges(if l.At? then Without(s.msgs, l.i) else s.msgs, Increment(s.quota, s.maximum), s.connected);
    case ConnectionLost =>
    case Reconnect(ok) => ResetAt(s.msgs, s.maximum, false);
    case Connack(accepted) =>
      ResetAt(s.msgs, s.maximum, true);
      RetryAt(Reset(s.msgs, s.maximum, true).msgs);
  }

  /** The first message of the identifier has another QoS. */
  ghost predicate Mistaken(s: Session, mid: uint16, qos: nat) {
    exists i :: 0 <= i < |s.msgs| && s.msgs[i].mid == mid && s.msgs[i].qos != qos
                && forall j :: 0 <= j < i ==> s.msgs[j].mid != mid
  }

  /**
   Quota that has come back is used at once: nothing waits while quota is left, in any state, after
   a publish, a refused PUBREC or an acknowledgement, known or not. An acknowledgement of the
   wrong kind changes no message and releases none.
   */
  lemma QuotaIsUsed(s: Session, e: Event)
    requires s.connected && QosOk(s.msgs) && ((e.Publish? && e.qos <= 2) || (Refunds(s, e) && e.mid != 0))
    ensures var (t, sent) := Step(s, e);
            if e.Ack? && Mistaken(s, e.mid, e.qos) then t.msgs == s.msgs && sent == []
            else t.quota == 0 || forall i :: 0 <= i < |t.msgs| ==> !Waiting(t.msgs[i])
  {
    hide Release, Reset, Retry, Lookup;
    match e
    case Publish(mid, qos) => ReleaseCharges(s.msgs + [Msg(mid, qos, Invalid, false)], s.quota, s.connected);
    case Ack(mid, qos) =>
      var l := Lookup(s.msgs, mid, qos);
      assert l.WrongQos? <==> Mistaken(s, mid, qos) by { LookupMistaken(s, mid, qos); }
      ReleaseCharges(if l.At? then Without(s.msgs, l.i) else s.msgs, Increment(s.quota, s.maximum), s.connected);
    case Pubrec(mid, refused) =>
      var l := Lookup(s.msgs, mid, 2);
      ReleaseCharges(if l.At? then Without(s.msgs, l.i) else s.msgs, Increment(s.quota, s.maximum), s.connected);
  }

  lemma LookupMistaken(s: Session, mid: uint16, qos: nat)
    ensures Lookup(s.msgs, mid, qos).WrongQos? <==> Mistaken(s, mid, qos)
  {
    var k := IndexOfMid(s.msgs, mid);
    if k.Some? { assert s.msgs[k.value].mid == mid; }
  }

  // ----- PUBREC -----

  /** PUBREC of an active client for a message it does not have is answered all the same. */
  lemma UnknownPubrec(s: Session, mid: uint16)
    requires s.active && mid != 0 && forall i :: 0 <= i < |s.msgs| ==> s.msgs[i].mid != mid
    ensures Step(s, Pubrec(mid, false)) == (s, [SentPubrel(mid)])
  {
  }

  /** The first message of the identifier decides: one of QoS 2 is confirmed and answered, another is neither. */
  lemma KnownPubrec(s: Session, mid: uint16, i: nat)
    requires s.active && mid != 0 && i < |s.msgs| && s.msgs[i].mid == mid
    requires forall j :: 0 <= j < i ==> s.msgs[j].mid != mid
    ensures Step(s, Pubrec(mid, false))
         == if s.msgs[i].qos == 2 then (s.(msgs := s.msgs[i := s.msgs[i].(state := WaitForPubcomp)]), [SentPubrel(mid)])
            else (s, [])
  {
    hide Release, Reset, Retry;
  }

  /** PUBREL goes out only in answer to PUBREC, or again after an accepted CONNACK. */
  lemma PubrelOnlyInAnswer(s: Session, e: Event, mid: uint16)
    requires Queueable(s.msgs) && (e.Publish? ==> e.mid != 0 && e.qos in {1, 2}) && SentPubrel(mid) in Step(s, e).1
    ensures e == Pubrec(mid, false)
         || (e == Connack(true) && exists i :: 0 <= i < |s.msgs| && s.msgs[i].mid == mid
                                               && s.msgs[i].state in {WaitForPubcomp, ResendPubrel})
  {
    hide Release, Reset, Retry, Lookup;
    match e
    case Publish(m, qos) =>
      ReleaseSendsWaiting(s.msgs + [Msg(m, qos, Invalid, false)], s.quota, s.connected, SentPubrel(mid));
    case Ack(m, qos) =>
      var l, quota := Lookup(s.msgs, m, qos), Increment(s.quota, s.maximum);
      ReleaseSendsWaiting(if l.At? then Without(s.msgs, l.i) else s.msgs, quota, s.connected, SentPubrel(mid));
    case Pubrec(m, refused) =>
      var l, quota := Lookup(s.msgs, m, 2), Increment(s.quota, s.maximum);
      if refused {
        ReleaseSendsWaiting(if l.At? then Without(s.msgs, l.i) else s.msgs, quota, s.connected, SentPubrel(mid));
      }
    case Connack(accepted) =>
      ResetAt(s.msgs, s.maximum, true);
      var a := Reset(s.msgs, s.maximum, true).msgs;
      RetrySends(a, SentPubrel(mid));
      var i :| 0 <= i < |a| && SentPubrel(mid) in Retried(a[i]).1;
      assert s.msgs[i].mid == mid && s.msgs[i].state in {WaitForPubcomp, ResendPubrel};
    case _ =>
  }

  // ----- which messages are unfinished -----

  ghost predicate Unfinished(s: Session, mid: uint16, qos: nat) {
    exists i :: 0 <= i < |s.msgs| && s.msgs[i].mid == mid && s.msgs[i].qos == qos
  }

  lemma SameUnfinished(s: Session, t: Session, mid: uint16, qos: nat)
    requires SameMessages(t.msgs, s.msgs)
    ensures Unfinished(t, mid, qos) <==> Unfinished(s, mid, qos)
  {
    if i :| 0 <= i < |s.msgs| && s.msgs[i].mid == mid && s.msgs[i].qos == qos { assert t.msgs[i].mid == mid; }
    if i :| 0 <= i < |t.msgs| && t.msgs[i].mid == mid && t.msgs[i].qos == qos { assert s.msgs[i].mid == mid; }
  }

  lemma RemovedUnfinished(s: Session, k: nat, mid: uint16, qos: nat)
    requires k < |s.msgs| && DistinctMids(s.msgs)
    ensures Unfinished(Dropped(s, k), mid, qos) <==> Unfinished(s, mid, qos) && mid != s.msgs[k].mid
  {
    var r := Without(s.msgs, k);
    assert forall i :: 0 <= i < |r| ==> r[i] == s.msgs[if i < k then i else i + 1];
    if i :| 0 <= i < |s.msgs| && s.msgs[i].mid == mid && s.msgs[i].qos == qos && mid != s.msgs[k].mid {
      assert r[if i < k then i else i - 1] == s.msgs[i];
    }
    if i :| 0 <= i < |r| && r[i].mid == mid && r[i].qos == qos {
      assert s.msgs[if i < k then i else i + 1].mid == mid;
    }
  }

  /** The events that finish a message: its acknowledgement, or a refusal. */
  predicate Completes(e: Event, mid: uint16) {
    (e.Ack? && e.mid == mid) || (e.Pubrec? && e.refused && e.mid == mid)
  }

  lemma ReleaseUnfinished(s: Session, mid: uint16, qos: nat)
    requires Queueable(s.msgs)
    ensures Unfinished(ReleaseIn(s).0, mid, qos) <==> Unfinished(s, mid, qos)
  {
    hide Release;
    ReleasePublishes(s.msgs, s.quota, s.connected);
    SameUnfinished(s, ReleaseIn(s).0, mid, qos);
  }

  lemma PublishUnfinished(s: Session, m: Msg, mid: uint16, qos: nat)
    ensures Unfinished(s.(msgs := s.msgs + [m]), mid, qos)
        <==> Unfinished(s, mid, qos) || (m.mid == mid && m.qos == qos)
  {
    var all := s.msgs + [m];
    if i :| 0 <= i < |s.msgs| && s.msgs[i].mid == mid && s.msgs[i].qos == qos { assert all[i] == s.msgs[i]; }
    assert all[|s.msgs|] == m;
  }

  lemma StepUnfinished(s: Session, e: Event, mid: uint16, qos: nat)
    requires Inv(s) && Legal(s, e)
    ensures Unfinished(Step(s, e).0, mid, qos)
       <==> (Unfinished(s, mid, qos) && !Completes(e, mid)) || e == Publish(mid, qos)
  {
    hide Release, Reset, Retry, Lookup, Unfinished;
    match e
    case Publish(m, q) =>
      var added := Msg(m, q, Invalid, false);
      PublishUnfinished(s, added, mid, qos);
      var t := s.(msgs := s.msgs + [added], queueLen := s.queueLen + 1);
      SameUnfinished(s.(msgs := s.msgs + [added]), t, mid, qos);
      ReleaseUnfinished(t, mid, qos);
    case Ack(m, q) =>
      LookupLive(s, m, q);
      DropUnfinished(s, Lookup(s.msgs, m, q).i, mid, qos);
    case Pubrec(m, refused) =>
      LookupLive(s, m, 2);
      var i := Lookup(s.msgs, m, 2).i;
      if refused {
        DropUnfinished(s, i, mid, qos);
      } else {
        SameUnfinished(s, Step(s, e).0, mid, qos);
      }
    case ConnectionLost => SameUnfinished(s, Step(s, e).0, mid, qos);
    case Reconnect(ok) =>
      ResetAt(s.msgs, s.maximum, false);
      SameUnfinished(s, Step(s, e).0, mid, qos);
    case Connack(accepted) =>
      ResetAt(s.msgs, s.maximum, true);
      RetryPublishes(Reset(s.msgs, s.maximum, true).msgs);
      RetryAt(Reset(s.msgs, s.maximum, true).msgs);
      SameUnfinished(s, Step(s, e).0, mid, qos);
  }

  /** A message is taken out and others are released in its place. */
  lemma DropUnfinished(s: Session, i: nat, mid: uint16, qos: nat)
    requires i < |s.msgs| && Queueable(s.msgs) && DistinctMids(s.msgs)
    ensures var t := Dropped(s.(quota := Increment(s.quota, s.maximum)), i);
            Unfinished(ReleaseIn(t).0, mid, qos) <==> Unfinished(s, mid, qos) && mid != s.msgs[i].mid
  {
    hide Unfinished, Release;
    var t := Dropped(s.(quota := Increment(s.quota, s.maximum)), i);
    var r := Without(s.msgs, i);
    assert forall k :: 0 <= k < |r| ==> r[k] == s.msgs[if k < i then k else k + 1];
    RemovedUnfinished(s, i, mid, qos);
    SameUnfinished(Dropped(s, i), t, mid, qos);
    ReleaseUnfinished(t, mid, qos);
  }

  ghost predicate PublishedLast(es: seq<Event>, mid: uint16, qos: nat, i: int) {
    0 <= i < |es| && es[i] == Publish(mid, qos) && forall j :: i < j < |es| ==> !Completes(es[j], mid)
  }

  /**
   On every legal run a message is held exactly when it was published, or held before, and has
   not been completed since: no event loses a message and none brings one back.
   */
  lemma {:induction false} UnfinishedIff(s: Session, es: seq<Event>, mid: uint16, qos: nat)
    requires Inv(s) && LegalRun(s, es)
    ensures Unfinished(Run(s, es).0, mid, qos)
       <==> (Unfinished(s, mid, qos) && forall j :: 0 <= j < |es| ==> !Completes(es[j], mid))
            || exists i :: PublishedLast(es, mid, qos, i)
    decreases |es|
  {
    if es != [] {
      hide Unfinished, Step, Inv;
      StepUnfinished(s, es[0], mid, qos);
      StepKeeps(s, es[0]);
      UnfinishedIff(Step(s, es[0]).0, es[1..], mid, qos);
      PublishedCons(es, mid, qos);
      var rest := es[1..];
      assert forall j :: 0 <= j < |rest| ==> rest[j] == es[j + 1];
      assert (forall j :: 0 <= j < |es| ==> !Completes(es[j], mid))
        <==> !Completes(es[0], mid) && forall j :: 0 <= j < |rest| ==> !Completes(rest[j], mid);
    }
  }

  lemma PublishedCons(es: seq<Event>, mid: uint16, qos: nat)
    requires es != []
    ensures (exists i :: PublishedLast(es, mid, qos, i))
       <==> (es[0] == Publish(mid, qos) && forall j :: 0 <= j < |es[1..]| ==> !Completes(es[1..][j], mid))
            || exists i :: PublishedLast(es[1..], mid, qos, i)
  {
    var rest := es[1..];
    assert forall j :: 0 < j < |es| ==> es[j] == rest[j - 1];
    if i :| PublishedLast(es, mid, qos, i) && i > 0 { assert PublishedLast(rest, mid, qos, i - 1); }
    if PublishedLast(es, mid, qos, 0) { assert forall j :: 0 <= j < |rest| ==> rest[j] == es[j + 1]; }
    if i :| PublishedLast(rest, mid, qos, i) { assert PublishedLast(es, mid, qos, i + 1); }
    if es[0] == Publish(mid, qos) && forall j :: 0 <= j < |rest| ==> !Completes(rest[j], mid) {
      assert PublishedLast(es, mid, qos, 0);
    }
  }
}
