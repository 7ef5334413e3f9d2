/**
 Order on the wire: what is resent after a reconnect, and in which order messages are sent for
 the first time.
 */
module OutResend {
  import opened Sequences
  import opened Bytes
  import opened OutFlow
  import opened OutFlowRuns

  // ----- resending after a reconnect -----

  /** What a message that was in flight is resent as. */
  function Resent(m: Msg): Sent {
    if m.state == WaitForPubcomp || m.state == ResendPubrel then SentPubrel(m.mid) else SentPublish(m.mid, m.qos, true)
  }

  /** The states an outgoing message of its QoS can be in. */
  predicate StateOk(m: Msg) {
    if m.qos == 1 then m.state in {Invalid, PublishQos1, WaitForPuback}
    else m.state in {Invalid, PublishQos2, WaitForPubrec, WaitForPubcomp, ResendPubrel}
  }

  ghost predicate StatesOk(msgs: seq<Msg>) {
    forall i :: 0 <= i < |msgs| ==> msgs[i].qos in {1, 2} && StateOk(msgs[i])
  }

  lemma {:induction false} ReleaseStatesOk(msgs: seq<Msg>, quota: nat, connected: bool)
    requires StatesOk(msgs)
    ensures StatesOk(Release(msgs, quota, connected).msgs)
    decreases |msgs|
  {
    if msgs != [] && quota > 0 {
      if !Waiting(msgs[0]) {
        ReleaseStatesOk(msgs[1..], quota, connected);
      } else if connected {
        ReleaseStatesOk(msgs[1..], quota - 1, connected);
      }
    }
  }

  lemma StepStatesOk(s: Session, e: Event)
    requires StatesOk(s.msgs) && (e.Publish? ==> e.qos in {1, 2})
    ensures StatesOk(Step(s, e).0.msgs)
  {
    hide Release, Reset, Retry, StateOk, Lookup, Increment;
    match e
    case Publish(mid, qos) =>
      NewStateOk(mid, qos);
      ReleaseStatesOk(s.msgs + [Msg(mid, qos, Invalid, false)], s.quota, s.connected);
    case Ack(mid, qos) =>
      RemovedStatesOk(s, Lookup(s.msgs, mid, qos));
    case Pubrec(mid, refused) =>
      NewStateOk(mid, 2);
      RemovedStatesOk(s, Lookup(s.msgs, mid, 2));
    case ConnectionLost =>
    case Reconnect(ok) => ResetStatesOk(s.msgs, s.maximum, false);
    case Connack(accepted) =>
      ResetStatesOk(s.msgs, s.maximum, true);
      RetryStatesOk(Reset(s.msgs, s.maximum, true).msgs);
  }

  lemma RemovedStatesOk(s: Session, l: Found)
    requires StatesOk(s.msgs) && (l.At? ==> l.i < |s.msgs|)
    ensures var kept := if l.At? then Without(s.msgs, l.i) else s.msgs;
            StatesOk(Release(kept, Increment(s.quota, s.maximum), s.connected).msgs)
  {
    hide Release, StateOk;
    ReleaseStatesOk(if l.At? then Without(s.msgs, l.i) else s.msgs, Increment(s.quota, s.maximum), s.connected);
  }

  lemma NewStateOk(mid: uint16, qos: nat)
    requires qos in {1, 2}
    ensures StateOk(Msg(mid, qos, Invalid, false))
    ensures forall m: Msg :: m.qos == 2 ==> StateOk(m.(state := WaitForPubcomp))
  {
  }

  lemma ResetStatesOk(msgs: seq<Msg>, quota: nat, quotaOnly: bool)
    requires StatesOk(msgs)
    ensures StatesOk(Reset(msgs, quota, quotaOnly).msgs)
  {
    ResetAt(msgs, quota, quotaOnly);
  }

  lemma RetryStatesOk(msgs: seq<Msg>)
    requires StatesOk(msgs)
    ensures StatesOk(Retry(msgs).msgs)
  {
    RetryAt(msgs);
  }

  lemma {:induction false} RunStatesOk(s: Session, es: seq<Event>)
    requires StatesOk(s.msgs) && LegalRun(s, es)
    ensures StatesOk(Run(s, es).0.msgs)
    decreases |es|
  {
    if es != [] {
      StepStatesOk(s, es[0]);
      RunStatesOk(Step(s, es[0]).0, es[1..]);
    }
  }

  /** If the first n messages have one packet each to resend and the others none, those go out in order. */
  lemma {:induction false} RetrySendsInOrder(msgs: seq<Msg>, n: nat)
    requires n <= |msgs| && forall i :: 0 <= i < |msgs| ==> |Retried(msgs[i]).1| == if i < n then 1 else 0
    ensures |Retry(msgs).sent| == n && forall i :: 0 <= i < n ==> Retry(msgs).sent[i] == Retried(msgs[i]).1[0]
    decreases |msgs|
  {
    if msgs != [] {
      var t := msgs[1..];
      assert forall i :: 0 <= i < |t| ==> t[i] == msgs[i + 1];
      RetrySendsInOrder(t, if n > 0 then n - 1 else 0);
    }
  }

  /** One message through both resets and the retry. */
  lemma ResentOne(m: Msg, charged: bool)
    requires m.qos in {1, 2} && StateOk(m) && (charged ==> m.state != Invalid)
    ensures Retried(ResetMsg(ResetMsg(m, charged, false), charged, true)).1 == if charged then [Resent(m)] else []
  {
  }

  // ----- publishes between the reconnect and its CONNACK -----

  /** What can happen until the CONNACK: publishes, and packets that a client not yet active ignores. */
  predicate BeforeConnack(e: Event) {
    e.Publish? || e.Ack? || e.Pubrec?
  }

  ghost predicate LegalWindow(s: Session, es: seq<Event>)
    decreases |es|
  {
    es == [] || (BeforeConnack(es[0]) && (es[0].Publish? ==> Legal(s, es[0])) && LegalWindow(Step(s, es[0]).0, es[1..]))
  }

  /** The messages of base are as the reconnect left them; later ones wait, or have just been sent. */
  ghost predicate Window(s: Session, base: seq<Msg>) {
    && Inv(s) && s.connected && !s.active && base <= s.msgs
    && forall i :: |base| <= i < |s.msgs| ==> s.msgs[i].state in {Invalid, WaitForPuback, WaitForPubrec}
  }

  /** With quota and nothing else waiting, a release sends the last message. */
  lemma {:induction false} ReleaseLast(a: seq<Msg>, m: Msg, quota: nat)
    requires quota > 0 && Waiting(m) && forall i :: 0 <= i < |a| ==> !Waiting(a[i])
    ensures Release(a + [m], quota, true) == Flow(a + [Released(m)], quota - 1, [SentPublish(m.mid, m.qos, m.dup)])
    decreases |a|
  {
    if a == [] {
      assert [] + [m] == [m] && [m][1..] == [];
      assert Release([], quota - 1, true) == Flow([], quota - 1, []);
    } else {
      assert (a + [m])[1..] == a[1..] + [m];
      ReleaseLast(a[1..], m, quota);
      assert [a[0]] + (a[1..] + [Released(m)]) == a + [Released(m)];
    }
  }

  lemma WindowStep(s: Session, e: Event, base: seq<Msg>)
    requires Window(s, base) && BeforeConnack(e) && (e.Publish? ==> Legal(s, e))
    ensures Window(Step(s, e).0, base) && Step(s, e).0.maximum == s.maximum
  {
    if e.Publish? {
      PublishKeeps(s, e.mid, e.qos);
      var m := Msg(e.mid, e.qos, Invalid, false);
      if s.quota > 0 { ReleaseLast(s.msgs, m, s.quota); }
    }
  }

  lemma {:induction false} WindowRun(s: Session, es: seq<Event>, base: seq<Msg>)
    requires Window(s, base) && LegalWindow(s, es)
    ensures Window(Run(s, es).0, base) && Run(s, es).0.maximum == s.maximum
    decreases |es|
  {
    if es != [] {
      WindowStep(s, es[0], base);
      WindowRun(Step(s, es[0]).0, es[1..], base);
    }
  }

  /**
   Section 4.4 of MQTT 3.1.1: after a reconnect and its CONNACK the client resends, in list
   order, exactly one packet for each message that is in flight again, the first `maximum`:
   PUBREL where the broker has confirmed receipt, PUBLISH with the dup flag otherwise. What is
   published between the two changes nothing in this.
   */
  lemma ResendsInOrder(s: Session, es: seq<Event>)
    requires Inv(s) && StatesOk(s.msgs) && LegalWindow(Step(s, Reconnect(true)).0, es)
    ensures var sent := Step(Run(Step(s, Reconnect(true)).0, es).0, Connack(true)).1;
            && |sent| == Min(s.maximum, |s.msgs|)
            && forall i :: 0 <= i < |sent| ==> sent[i] == Resent(s.msgs[i])
  {
    hide Reset, Retry, Retried, ResetMsg, Resent, StateOk, Step, Run, Inv;
    var n, r := Min(s.maximum, |s.msgs|), Step(s, Reconnect(true)).0;
    ReconnectKeeps(s);
    WindowRun(r, es, r.msgs);
    var w := Run(r, es).0;
    var b := Reset(w.msgs, s.maximum, true).msgs;
    ConnackSends(w);
    ResetAt(s.msgs, s.maximum, false);
    ResetAt(w.msgs, s.maximum, true);
    assert forall i :: 0 <= i < |s.msgs| ==> w.msgs[i] == r.msgs[i];
    forall i | 0 <= i < |b| ensures Retried(b[i]).1 == if i < n then [Resent(s.msgs[i])] else [] {
      if i < |s.msgs| {
        FirstAreLive(s, i);
        ResentOne(s.msgs[i], i < s.maximum);
      } else {
        NotResent(w.msgs[i], i < s.maximum);
      }
    }
    RetrySendsInOrder(b, n);
  }

  lemma ConnackSends(s: Session)
    ensures Step(s, Connack(true)).1 == Retry(Reset(s.msgs, s.maximum, true).msgs).sent
  {
  }

  lemma FirstAreLive(s: Session, i: nat)
    requires Inv(s) && i < |s.msgs|
    ensures i < s.maximum ==> s.msgs[i].state != Invalid
  {
  }

  lemma ReconnectKeeps(s: Session)
    requires Inv(s)
    ensures Window(Step(s, Reconnect(true)).0, Step(s, Reconnect(true)).0.msgs)
    ensures Step(s, Reconnect(true)).0.msgs == Reset(s.msgs, s.maximum, false).msgs
    ensures Step(s, Reconnect(true)).0.maximum == s.maximum
  {
    StepKeeps(s, Reconnect(true));
  }

  lemma NotResent(m: Msg, charged: bool)
    requires m.state in {Invalid, WaitForPuback, WaitForPubrec}
    ensures Retried(ResetMsg(m, charged, true)).1 == []
  {
  }
}
