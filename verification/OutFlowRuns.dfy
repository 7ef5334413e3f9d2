/**
 What every run of the outgoing flow keeps. Runs may publish, lose the connection and
 reconnect at any time; the broker acknowledges only messages that are in flight.
 */
module OutFlowRuns {
  import opened Sequences
  import opened Bytes
  import opened OutFlow

  /** Messages that are not waiting for quota. */
  function Live(msgs: seq<Msg>): nat {
    if msgs == [] then 0 else (if msgs[0].state != Invalid then 1 else 0) + Live(msgs[1..])
  }

  /** Exactly the first n messages are live. */
  ghost predicate LiveUpTo(msgs: seq<Msg>, n: nat) {
    n <= |msgs| && forall i :: 0 <= i < |msgs| ==> (msgs[i].state != Invalid <==> i < n)
  }

  lemma {:induction false} LiveUpToCounts(msgs: seq<Msg>, n: nat)
    requires LiveUpTo(msgs, n)
    ensures Live(msgs) == n
    decreases |msgs|
  {
    if msgs != [] {
      LiveUpToCounts(msgs[1..], if n > 0 then n - 1 else 0);
    }
  }

  ghost predicate Queueable(msgs: seq<Msg>) {
    forall i :: 0 <= i < |msgs| ==> msgs[i].mid != 0 && (msgs[i].qos == 1 || msgs[i].qos == 2)
  }

  ghost predicate DistinctMids(msgs: seq<Msg>) {
    forall i, j :: 0 <= i < j < |msgs| ==> msgs[i].mid != msgs[j].mid
  }

  /** Same messages in the same places; only states and dup flags may differ. */
  ghost predicate SameMessages(a: seq<Msg>, b: seq<Msg>) {
    |a| == |b| && forall i :: 0 <= i < |a| ==> a[i].mid == b[i].mid && a[i].qos == b[i].qos
  }

  /** How many messages one call of message__release_to_inflight makes live. */
  function ReleaseCount(n: nat, len: nat, quota: nat, connected: bool): nat
    requires n <= len
  {
    if connected then Min(quota, len - n) else Min(Min(quota, 1), len - n)
  }

  lemma {:induction false} ReleaseExtendsPrefix(msgs: seq<Msg>, quota: nat, connected: bool, n: nat)
    requires LiveUpTo(msgs, n) && Queueable(msgs)
    ensures var f, k := Release(msgs, quota, connected), ReleaseCount(n, |msgs|, quota, connected);
            && LiveUpTo(f.msgs, n + k) && SameMessages(f.msgs, msgs)
            && f.quota == (if connected then quota - k else quota)
            && (forall i :: 0 <= i < n ==> f.msgs[i] == msgs[i])
    decreases |msgs|
  {
    if msgs != [] && quota > 0 {
      if n > 0 {
        ReleaseExtendsPrefix(msgs[1..], quota, connected, n - 1);
      } else if connected {
        ReleaseExtendsPrefix(msgs[1..], quota - 1, connected, 0);
      }
    }
  }

  /** Only messages that were waiting are published by a release. */
  lemma {:induction false} ReleaseSendsWaiting(msgs: seq<Msg>, quota: nat, connected: bool, p: Sent)
    requires p in Release(msgs, quota, connected).sent
    ensures p.SentPublish? && exists i :: 0 <= i < |msgs| && msgs[i].mid == p.mid && msgs[i].state == Invalid
    decreases |msgs|
  {
    var f := Release(msgs, quota, connected);
    if Waiting(msgs[0]) && f.sent[0] == p {
      assert msgs[0].mid == p.mid;
    } else {
      ReleaseSendsWaiting(msgs[1..], if Waiting(msgs[0]) then quota - 1 else quota, connected, p);
      var i :| 0 <= i < |msgs[1..]| && msgs[1..][i].mid == p.mid && msgs[1..][i].state == Invalid;
      assert msgs[i + 1] == msgs[1..][i];
    }
  }

  lemma {:induction false} ResetAt(msgs: seq<Msg>, quota: nat, quotaOnly: bool)
    ensures var f := Reset(msgs, quota, quotaOnly);
            && |f.msgs| == |msgs| && f.quota == quota - Min(quota, |msgs|)
            && forall i :: 0 <= i < |msgs| ==> f.msgs[i] == ResetMsg(msgs[i], i < quota, quotaOnly)
    decreases |msgs|
  {
    if msgs != [] {
      ResetAt(msgs[1..], if quota > 0 then quota - 1 else 0, quotaOnly);
    }
  }

  lemma {:induction false} RetryAt(msgs: seq<Msg>)
    ensures var f := Retry(msgs);
            |f.msgs| == |msgs| && forall i :: 0 <= i < |msgs| ==> f.msgs[i] == Retried(msgs[i]).0
  {
    if msgs != [] { RetryAt(msgs[1..]); }
  }

  lemma {:induction false} RetrySends(msgs: seq<Msg>, p: Sent)
    requires p in Retry(msgs).sent
    ensures exists i :: 0 <= i < |msgs| && p in Retried(msgs[i]).1
  {
    if p !in Retried(msgs[0]).1 {
      RetrySends(msgs[1..], p);
      var i :| 0 <= i < |msgs[1..]| && p in Retried(msgs[1..][i]).1;
      assert msgs[i + 1] == msgs[1..][i];
    }
  }

  // ----- the invariant -----

  /**
   The accounting of a session: queue_len is the list length, the live messages are a prefix,
   nothing waits while there is quota, and with a connection quota and live messages add up to
   the maximum. Offline publishes are live without having been charged, hence `>=` there.
   */
  ghost predicate Inv(s: Session) {
    && Queueable(s.msgs) && DistinctMids(s.msgs)
    && s.quota <= s.maximum && s.queueLen == |s.msgs|
    && LiveUpTo(s.msgs, Live(s.msgs))
    && (s.quota > 0 ==> Live(s.msgs) == |s.msgs|)
    && (if s.connected then s.quota + Live(s.msgs) == s.maximum else s.quota + Live(s.msgs) >= s.maximum)
    && (s.active ==> s.connected)
  }

  ghost predicate HasLive(s: Session, mid: uint16, qos: nat) {
    exists i :: 0 <= i < |s.msgs| && s.msgs[i].mid == mid && s.msgs[i].qos == qos && s.msgs[i].state != Invalid
  }

  /** Fresh packet identifiers, never 0, and a broker that answers only what is in flight. */
  ghost predicate Legal(s: Session, e: Event) {
    match e
    case Publish(mid, qos) =>
      mid != 0 && (qos == 1 || qos == 2) && forall i :: 0 <= i < |s.msgs| ==> s.msgs[i].mid != mid
    case Ack(mid, qos) => s.active && HasLive(s, mid, qos)
    case Pubrec(mid, refused) => s.active && HasLive(s, mid, 2)
    case Connack(accepted) => s.connected
    case _ => true
  }

  lemma RemoveFacts(msgs: seq<Msg>, i: nat, n: nat)
    requires i < n && LiveUpTo(msgs, n) && Queueable(msgs) && DistinctMids(msgs)
    ensures var r := Without(msgs, i);
            LiveUpTo(r, n - 1) && Queueable(r) && DistinctMids(r) && |r| == |msgs| - 1
            && forall j :: 0 <= j < |r| ==> r[j] == msgs[if j < i then j else j + 1]
  {
  }

  lemma SameKeeps(a: seq<Msg>, b: seq<Msg>)
    requires SameMessages(a, b)
    ensures Queueable(b) ==> Queueable(a)
    ensures DistinctMids(b) ==> DistinctMids(a)
  {
  }

  /** message__release_to_inflight restores the invariant from any prefix and any quota. */
  lemma ReleaseRestores(s: Session, n: nat)
    requires Queueable(s.msgs) && DistinctMids(s.msgs) && LiveUpTo(s.msgs, n)
    requires s.connected && s.quota + n == s.maximum && s.queueLen == |s.msgs|
    ensures Inv(ReleaseIn(s).0)
  {
    var t := ReleaseIn(s).0;
    ReleaseExtendsPrefix(s.msgs, s.quota, true, n);
    SameKeeps(t.msgs, s.msgs);
    LiveUpToCounts(t.msgs, n + ReleaseCount(n, |s.msgs|, s.quota, true));
  }

  lemma LookupLive(s: Session, mid: uint16, qos: nat)
    requires DistinctMids(s.msgs) && HasLive(s, mid, qos)
    ensures Lookup(s.msgs, mid, qos).At? && s.msgs[Lookup(s.msgs, mid, qos).i].state != Invalid
  {
    var i :| 0 <= i < |s.msgs| && s.msgs[i].mid == mid && s.msgs[i].qos == qos && s.msgs[i].state != Invalid;
    var r := IndexOfMid(s.msgs, mid);
    assert r.Some? && r.value == i;
  }

  lemma PublishKeeps(s: Session, mid: uint16, qos: nat)
    requires Inv(s) && Legal(s, Publish(mid, qos))
    ensures Inv(Step(s, Publish(mid, qos)).0)
  {
    hide Live, Release;
    var m := Msg(mid, qos, Invalid, false);
    var s1 := s.(msgs := s.msgs + [m], queueLen := s.queueLen + 1);
    var n := Live(s.msgs);
    assert LiveUpTo(s1.msgs, n);
    if s.connected {
      ReleaseRestores(s1, n);
    } else {
      var t := ReleaseIn(s1).0;
      ReleaseExtendsPrefix(s1.msgs, s1.quota, false, n);
      SameKeeps(t.msgs, s1.msgs);
      LiveUpToCounts(t.msgs, n + ReleaseCount(n, |s1.msgs|, s1.quota, false));
    }
  }

  lemma AckKeeps(s: Session, mid: uint16, qos: nat)
    requires Inv(s) && Legal(s, Ack(mid, qos))
    ensures Inv(Step(s, Ack(mid, qos)).0)
  {
    LookupLive(s, mid, qos);
    var i := Lookup(s.msgs, mid, qos).i;
    var n := Live(s.msgs);
    RemoveFacts(s.msgs, i, n);
    ReleaseRestores(Dropped(s.(quota := Increment(s.quota, s.maximum)), i), n - 1);
  }

  lemma PubrecKeeps(s: Session, mid: uint16, refused: bool)
    requires Inv(s) && Legal(s, Pubrec(mid, refused))
    ensures Inv(Step(s, Pubrec(mid, refused)).0)
  {
    LookupLive(s, mid, 2);
    var i := Lookup(s.msgs, mid, 2).i;
    var n := Live(s.msgs);
    if refused {
      RemoveFacts(s.msgs, i, n);
      ReleaseRestores(Dropped(s, i).(quota := Increment(s.quota, s.maximum)), n - 1);
    } else {
      var msgs := s.msgs[i := s.msgs[i].(state := WaitForPubcomp)];
      assert LiveUpTo(msgs, n);
      LiveUpToCounts(msgs, n);
    }
  }

  /** A reset recounts: the first `maximum` messages are charged and live, the rest wait. */
  lemma ResetKeeps(s: Session, quotaOnly: bool)
    requires Queueable(s.msgs) && DistinctMids(s.msgs) && LiveUpTo(s.msgs, Live(s.msgs))
    requires Live(s.msgs) >= Min(s.maximum, |s.msgs|)
    ensures var f := Reset(s.msgs, s.maximum, quotaOnly);
            var n := Min(s.maximum, |s.msgs|);
            && Queueable(f.msgs) && DistinctMids(f.msgs) && |f.msgs| == |s.msgs|
            && LiveUpTo(f.msgs, n) && Live(f.msgs) == n && f.quota + n == s.maximum
  {
    var f := Reset(s.msgs, s.maximum, quotaOnly);
    ResetAt(s.msgs, s.maximum, quotaOnly);
    SameKeeps(f.msgs, s.msgs);
    LiveUpToCounts(f.msgs, Min(s.maximum, |s.msgs|));
  }

  lemma ConnackKeeps(s: Session, accepted: bool)
    requires Inv(s) && s.connected
    ensures Inv(Step(s, Connack(accepted)).0)
  {
    hide Reset, Retry, Live;
    ResetKeeps(s, true);
    var f := Reset(s.msgs, s.maximum, true);
    RetryKeepsLive(f.msgs, Min(s.maximum, |s.msgs|));
  }

  /** A retry changes dup flags only. */
  lemma RetryKeepsLive(msgs: seq<Msg>, n: nat)
    requires LiveUpTo(msgs, n) && Queueable(msgs) && DistinctMids(msgs)
    ensures var r := Retry(msgs).msgs;
            LiveUpTo(r, n) && Live(r) == n && Queueable(r) && DistinctMids(r) && |r| == |msgs|
  {
    RetryAt(msgs);
    SameKeeps(Retry(msgs).msgs, msgs);
    LiveUpToCounts(Retry(msgs).msgs, n);
  }

  /** Every legal step keeps the invariant. */
  lemma StepKeeps(s: Session, e: Event)
    requires Inv(s) && Legal(s, e)
    ensures Inv(Step(s, e).0)
  {
    match e
    case Publish(mid, qos) => PublishKeeps(s, mid, qos);
    case Ack(mid, qos) => AckKeeps(s, mid, qos);
    case Pubrec(mid, refused) => PubrecKeeps(s, mid, refused);
    case ConnectionLost =>
    case Reconnect(ok) => ResetKeeps(s, false);
    case Connack(accepted) => ConnackKeeps(s, accepted);
  }

  // ----- runs -----

  ghost predicate LegalRun(s: Session, es: seq<Event>)
    decreases |es|
  {
    es == [] || (Legal(s, es[0]) && LegalRun(Step(s, es[0]).0, es[1..]))
  }

  function Run(s: Session, es: seq<Event>): (Session, seq<Sent>)
    decreases |es|
  {
    if es == [] then (s, [])
    else
      var (t, sent) := Step(s, es[0]);
      var (u, more) := Run(t, es[1..]);
      (u, sent + more)
  }

  lemma {:induction false} RunKeeps(s: Session, es: seq<Event>)
    requires Inv(s) && LegalRun(s, es)
    ensures Inv(Run(s, es).0)
    decreases |es|
  {
    if es != [] {
      StepKeeps(s, es[0]);
      RunKeeps(Step(s, es[0]).0, es[1..]);
    }
  }

  function Fresh(maximum: nat): Session {
    Session([], maximum, maximum, 0, false, false)
  }

  /**
   On every run from a new client: queue_len is the list length, live messages precede waiting
   ones, nothing waits while quota is left, and with a connection quota plus live messages is
   the in-flight maximum.
   */
  lemma QuotaAccounting(maximum: nat, es: seq<Event>)
    requires LegalRun(Fresh(maximum), es)
    ensures var s := Run(Fresh(maximum), es).0;
            && s.queueLen == |s.msgs|
            && (forall i, j :: 0 <= i < j < |s.msgs| && s.msgs[j].state != Invalid ==> s.msgs[i].state != Invalid)
            && (s.quota == 0 || forall i :: 0 <= i < |s.msgs| ==> s.msgs[i].state != Invalid)
            && (s.connected ==> s.quota + Live(s.msgs) == s.maximum == maximum)
  {
    RunKeeps(Fresh(maximum), es);
    MaximumFixed(Fresh(maximum), es);
  }

  lemma {:induction false} MaximumFixed(s: Session, es: seq<Event>)
    ensures Run(s, es).0.maximum == s.maximum
    decreases |es|
  {
    if es != [] {
      StepMaximum(s, es[0]);
      hide Step;
      MaximumFixed(Step(s, es[0]).0, es[1..]);
    }
  }

  lemma StepMaximum(s: Session, e: Event)
    ensures Step(s, e).0.maximum == s.maximum
  {
    hide Release, Reset, Retry, Lookup;
  }

  // ----- where the accounting fails, exactly -----

  ghost predicate Accounted(s: Session) {
    s.quota + Live(s.msgs) == s.maximum
  }

  /** A publish keeps the accounting exactly when it is online or finds no quota to use. */
  lemma PublishAccountedIff(s: Session, mid: uint16, qos: nat)
    requires Inv(s) && Accounted(s) && Legal(s, Publish(mid, qos))
    ensures Accounted(Step(s, Publish(mid, qos)).0) <==> s.connected || s.quota == 0
  {
    var m := Msg(mid, qos, Invalid, false);
    var s1 := s.(msgs := s.msgs + [m], queueLen := s.queueLen + 1);
    var n := Live(s.msgs);
    assert LiveUpTo(s1.msgs, n);
    ReleaseExtendsPrefix(s1.msgs, s1.quota, s.connected, n);
    LiveUpToCounts(ReleaseIn(s1).0.msgs, n + ReleaseCount(n, |s1.msgs|, s1.quota, s.connected));
  }

  /** Every reconnect and every CONNACK makes it exact again, whatever was published offline. */
  lemma ReconnectAccounts(s: Session, ok: bool, accepted: bool)
    requires Inv(s)
    ensures Accounted(Step(s, Reconnect(ok)).0)
    ensures s.connected ==> Accounted(Step(s, Connack(accepted)).0)
  {
    ResetKeeps(s, false);
    if s.connected { ConnackKeeps(s, accepted); }
  }

  lemma RemoveWaiting(msgs: seq<Msg>, i: nat, n: nat)
    requires n <= i < |msgs| && LiveUpTo(msgs, n) && Queueable(msgs)
    ensures LiveUpTo(Without(msgs, i), n) && Queueable(Without(msgs, i))
  {
  }

  /** An acknowledgement keeps it exactly when its message is in flight, or the quota is full anyway. */
  lemma AckAccountedIff(s: Session, mid: uint16, qos: nat)
    requires Inv(s) && s.active
    ensures Accounted(Step(s, Ack(mid, qos)).0) <==> HasLive(s, mid, qos) || s.quota == s.maximum
  {
    if HasLive(s, mid, qos) {
      AckKeeps(s, mid, qos);
    } else {
      var n := Live(s.msgs);
      var t := s.(quota := Increment(s.quota, s.maximum));
      var l := Lookup(s.msgs, mid, qos);
      if l.At? {
        RemoveWaiting(s.msgs, l.i, n);
        t := Dropped(t, l.i);
      }
      if mid != 0 && !l.WrongQos? {
        ReleaseExtendsPrefix(t.msgs, t.quota, true, n);
        LiveUpToCounts(ReleaseIn(t).0.msgs, n + ReleaseCount(n, |t.msgs|, t.quota, true));
      }
    }
  }

  lemma {:induction false} LiveWithin(msgs: seq<Msg>, n: nat, quota: nat)
    requires LiveUpTo(msgs, n)
    ensures Live(Reset(msgs, quota, true).msgs) == Min(n, Min(quota, |msgs|))
  {
    ResetAt(msgs, quota, true);
    LiveUpToCounts(Reset(msgs, quota, true).msgs, Min(n, Min(quota, |msgs|)));
  }

  /**
   A CONNACK that sets a new maximum (the Receive Maximum property of MQTT 5) charges quota by
   position, also for messages still waiting. The books balance exactly when enough messages
   are live already.
   */
  lemma NewMaximumAccountedIff(s: Session, maximum: nat)
    requires Inv(s)
    ensures var f := Reset(s.msgs, maximum, true);
            f.quota + Live(f.msgs) == maximum <==> Live(s.msgs) >= Min(maximum, |s.msgs|)
  {
    ResetAt(s.msgs, maximum, true);
    LiveWithin(s.msgs, Live(s.msgs), maximum);
  }

  /** A publish by a new client that is not connected yet: live, but not charged. */
  lemma OfflinePublishMiscounts(mid: uint16)
    requires mid != 0
    ensures var s := Step(Fresh(1), Publish(mid, 1)).0;
            && Legal(Fresh(1), Publish(mid, 1)) && Accounted(Fresh(1))
            && s.quota == 1 && Live(s.msgs) == 1 && !Accounted(s)
  {
    var m := Msg(mid, 1, Invalid, false);
    assert [] + [m] == [m] && [m][1..] == [];
    assert Release([m], 1, false).msgs == [Released(m)] + [] == [Released(m)];
    assert Live([Released(m)]) == 1 + Live([Released(m)][1..]);
  }

  /** A PUBACK for a packet identifier that is not in flight, with one message in flight: quota too high. */
  lemma UnknownAckMiscounts(m: Msg, mid: uint16)
    requires m.mid != 0 && m.qos == 1 && m.state == WaitForPuback && mid != m.mid
    ensures var s := Session([m], 0, 1, 1, true, true);
            Inv(s) && Accounted(s) && !Accounted(Step(s, Ack(mid, 1)).0)
  {
    var s := Session([m], 0, 1, 1, true, true);
    assert [m][1..] == [];
    assert Live([m]) == 1 + Live([]);
    assert !HasLive(s, mid, 1);
    AckAccountedIff(s, mid, 1);
  }

  /** For instance one in flight and one waiting, and the maximum raised from 1 to 2. */
  lemma RaisedMaximumMiscounts(a: Msg, b: Msg)
    requires a.qos == 2 && a.state == WaitForPubrec && b.qos == 2 && b.state == Invalid
    requires a.mid != b.mid && a.mid != 0 && b.mid != 0
    ensures Inv(Session([a, b], 0, 1, 2, true, true))
    ensures var f := Reset([a, b], 2, true); f.quota + Live(f.msgs) == 1
  {
    LiveUpToCounts([a, b], 1);
    LiveWithin([a, b], 1, 2);
    ResetAt([a, b], 2, true);
  }

  // ----- once PUBREC is in, only PUBREL goes out -----

  ghost predicate ConfirmedAt(s: Session, mid: uint16, i: int) {
    0 <= i < |s.msgs| && i < s.maximum && s.msgs[i].mid == mid && s.msgs[i].qos == 2
    && (s.msgs[i].state == WaitForPubcomp || s.msgs[i].state == ResendPubrel)
  }

  /** The broker has confirmed receipt of this QoS 2 message, and its PUBCOMP is outstanding. */
  ghost predicate Confirmed(s: Session, mid: uint16) {
    exists i :: ConfirmedAt(s, mid, i)
  }

  /** The events that end the exchange for a message: PUBCOMP, or a refusal under MQTT 5. */
  predicate Ends(e: Event, mid: uint16) {
    e == Ack(mid, 2) || e == Pubrec(mid, true)
  }

  ghost predicate OnlyPubrel(sent: seq<Sent>, mid: uint16) {
    forall p | p in sent :: p.mid == mid ==> p.SentPubrel?
  }

  lemma PubrecConfirms(s: Session, mid: uint16)
    requires Inv(s) && Legal(s, Pubrec(mid, false))
    ensures Confirmed(Step(s, Pubrec(mid, false)).0, mid)
    ensures OnlyPubrel(Step(s, Pubrec(mid, false)).1, mid)
  {
    LookupLive(s, mid, 2);
    assert ConfirmedAt(Step(s, Pubrec(mid, false)).0, mid, Lookup(s.msgs, mid, 2).i);
  }

  /** A release leaves a confirmed message alone: it is live already. */
  lemma ReleaseKeepsConfirmed(s: Session, n: nat, mid: uint16, i: nat)
    requires Queueable(s.msgs) && DistinctMids(s.msgs) && LiveUpTo(s.msgs, n) && ConfirmedAt(s, mid, i)
    ensures ConfirmedAt(ReleaseIn(s).0, mid, i) && OnlyPubrel(ReleaseIn(s).1, mid)
  {
    ReleaseExtendsPrefix(s.msgs, s.quota, s.connected, n);
    forall p | p in ReleaseIn(s).1 ensures p.mid != mid {
      ReleaseSendsWaiting(s.msgs, s.quota, s.connected, p);
      var j :| 0 <= j < |s.msgs| && s.msgs[j].mid == p.mid && s.msgs[j].state == Invalid;
      assert s.msgs[i].state != Invalid;
    }
  }

  lemma RemoveKeepsConfirmed(s: Session, k: nat, mid: uint16, i: nat)
    requires ConfirmedAt(s, mid, i) && k < |s.msgs| && k != i
    ensures ConfirmedAt(Dropped(s, k), mid, if k < i then i - 1 else i)
  {
  }

  lemma AckKeepsConfirmed(s: Session, amid: uint16, qos: nat, mid: uint16, i: nat)
    requires Inv(s) && Legal(s, Ack(amid, qos)) && ConfirmedAt(s, mid, i) && !Ends(Ack(amid, qos), mid)
    ensures Confirmed(Step(s, Ack(amid, qos)).0, mid) && OnlyPubrel(Step(s, Ack(amid, qos)).1, mid)
  {
    LookupLive(s, amid, qos);
    var k, n := Lookup(s.msgs, amid, qos).i, Live(s.msgs);
    var t := s.(quota := Increment(s.quota, s.maximum));
    RemoveFacts(s.msgs, k, n);
    RemoveKeepsConfirmed(t, k, mid, i);
    ReleaseKeepsConfirmed(Dropped(t, k), n - 1, mid, if k < i then i - 1 else i);
  }

  lemma PubrecKeepsConfirmed(s: Session, amid: uint16, refused: bool, mid: uint16, i: nat)
    requires Inv(s) && Legal(s, Pubrec(amid, refused)) && ConfirmedAt(s, mid, i) && !Ends(Pubrec(amid, refused), mid)
    ensures Confirmed(Step(s, Pubrec(amid, refused)).0, mid) && OnlyPubrel(Step(s, Pubrec(amid, refused)).1, mid)
  {
    LookupLive(s, amid, 2);
    var k, n := Lookup(s.msgs, amid, 2).i, Live(s.msgs);
    if refused {
      var t := Dropped(s, k).(quota := Increment(s.quota, s.maximum));
      RemoveFacts(s.msgs, k, n);
      RemoveKeepsConfirmed(s, k, mid, i);
      assert ConfirmedAt(t, mid, if k < i then i - 1 else i);
      ReleaseKeepsConfirmed(t, n - 1, mid, if k < i then i - 1 else i);
    } else {
      assert ConfirmedAt(Step(s, Pubrec(amid, refused)).0, mid, i);
    }
  }

  lemma ResetKeepsConfirmed(s: Session, quotaOnly: bool, mid: uint16, i: nat)
    requires ConfirmedAt(s, mid, i)
    ensures ConfirmedAt(s.(msgs := Reset(s.msgs, s.maximum, quotaOnly).msgs), mid, i)
  {
    ResetAt(s.msgs, s.maximum, quotaOnly);
  }

  lemma RetryKeepsConfirmed(s: Session, mid: uint16, i: nat)
    requires DistinctMids(s.msgs) && ConfirmedAt(s, mid, i)
    ensures ConfirmedAt(s.(msgs := Retry(s.msgs).msgs), mid, i) && OnlyPubrel(Retry(s.msgs).sent, mid)
  {
    RetryAt(s.msgs);
    hide Retry;
    forall p | p in Retry(s.msgs).sent && p.mid == mid ensures p.SentPubrel? {
      RetrySends(s.msgs, p);
      var j :| 0 <= j < |s.msgs| && p in Retried(s.msgs[j]).1;
      assert s.msgs[j].mid == mid;
      assert i == j;
    }
  }

  lemma StepKeepsConfirmed(s: Session, e: Event, mid: uint16)
    requires Inv(s) && Legal(s, e) && Confirmed(s, mid) && !Ends(e, mid)
    ensures Confirmed(Step(s, e).0, mid) && OnlyPubrel(Step(s, e).1, mid)
  {
    hide Live, Release, Reset, Retry;
    var i :| ConfirmedAt(s, mid, i);
    match e
    case Publish(pmid, qos) =>
      var s1 := s.(msgs := s.msgs + [Msg(pmid, qos, Invalid, false)], queueLen := s.queueLen + 1);
      assert LiveUpTo(s1.msgs, Live(s.msgs));
      ReleaseKeepsConfirmed(s1, Live(s.msgs), mid, i);
    case Ack(amid, qos) => AckKeepsConfirmed(s, amid, qos, mid, i);
    case Pubrec(amid, refused) => PubrecKeepsConfirmed(s, amid, refused, mid, i);
    case ConnectionLost => assert ConfirmedAt(Step(s, e).0, mid, i);
    case Reconnect(ok) =>
      ResetKeepsConfirmed(s, false, mid, i);
      assert ConfirmedAt(Step(s, e).0, mid, i);
    case Connack(accepted) =>
      ResetKeepsConfirmed(s, true, mid, i);
      ResetKeeps(s, true);
      var t := s.(msgs := Reset(s.msgs, s.maximum, true).msgs);
      RetryKeepsConfirmed(t, mid, i);
      assert ConfirmedAt(Step(s, e).0, mid, i);
  }

  /**
   Section 4.3.3 of MQTT 3.1.1: on any run, with any number of reconnects, a QoS 2 message whose
   PUBREC has been accepted is never published again; until its exchange ends, every packet the
   client sends about it is a PUBREL.
   */
  lemma {:induction false} NeverRepublished(s: Session, es: seq<Event>, mid: uint16)
    requires Inv(s) && LegalRun(s, es) && Confirmed(s, mid)
    requires forall e | e in es :: !Ends(e, mid)
    ensures Confirmed(Run(s, es).0, mid) && OnlyPubrel(Run(s, es).1, mid)
    decreases |es|
  {
    if es != [] {
      StepKeeps(s, es[0]);
      StepKeepsConfirmed(s, es[0], mid);
      NeverRepublished(Step(s, es[0]).0, es[1..], mid);
    }
  }

  /**
   With a fixed maximum. A CONNACK that changes it makes a confirmed message wait again, to be
   published a second time, exactly when the message stands at or behind the new maximum.
   */
  lemma NewMaximumForgetsIff(s: Session, maximum: nat, mid: uint16, i: nat)
    requires ConfirmedAt(s, mid, i)
    ensures var msgs := Reset(s.msgs, maximum, true).msgs;
            && |msgs| == |s.msgs|
            && (ConfirmedAt(s.(msgs := msgs, maximum := maximum), mid, i) <==> i < maximum)
            && (msgs[i] == s.msgs[i].(state := Invalid) <==> maximum <= i)
  {
    ResetAt(s.msgs, maximum, true);
  }

  /** The first message is acknowledged, and its place goes to the second, which waits. */
  lemma FirstAndNext(a: Msg, w: Msg)
    requires a.qos == 1 && a.mid != w.mid && Waiting(w)
    ensures Lookup([a, w], a.mid, 1) == At(0) && Without([a, w], 0) == [w]
    ensures Release([w], 1, true).sent == [SentPublish(w.mid, w.qos, w.dup)]
  {
    assert [w][1..] == [];
    assert Release([w], 1, true).sent == [SentPublish(w.mid, w.qos, w.dup)] + Release([], 0, true).sent;
  }

  /** For instance: two in flight, the second confirmed; the maximum falls to 1; the first is acknowledged. */
  lemma LoweredMaximumRepublishes(a: Msg, b: Msg)
    requires a.qos == 1 && a.state == WaitForPuback && b.qos == 2 && b.state == WaitForPubcomp
    requires a.mid != b.mid && a.mid != 0 && b.mid != 0
    ensures var s := Session([a, b], 0, 2, 2, true, true);
            var f := Reset(s.msgs, 1, true);
            && Inv(s) && ConfirmedAt(s, b.mid, 1)
            && Step(Session(f.msgs, f.quota, 1, 2, true, true), Ack(a.mid, 1)).1 == [SentPublish(b.mid, 2, b.dup)]
  {
    hide Reset, Release, Lookup;
    var s, w := Session([a, b], 0, 2, 2, true, true), b.(state := Invalid);
    assert [a, b][1..] == [b] && [b][1..] == [];
    assert Live([a, b]) == 1 + Live([b]) == 2 + Live([]);
    ResetAt([a, b], 1, true);
    var f := Reset([a, b], 1, true);
    assert f.msgs == [a, w];
    FirstAndNext(a, w);
  }
}
