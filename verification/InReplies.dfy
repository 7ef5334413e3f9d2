/**
 The incoming flow as the broker and the application see it: replies and deliveries, event by
 event and over whole runs.
 */
module InReplies {
  import opened Sequences
  import opened Bytes
  import opened InFlow

  /** Everything a run has shown: messages handed to the application and packets sent back. */
  datatype Shown = Shown(inbox: Inbox, delivered: seq<InMsg>, replies: seq<Reply>)

  function Observe(v: Shown, e: Event): Shown {
    var f := Step(v.inbox, e);
    Shown(f.inbox, v.delivered + f.delivered, v.replies + f.replies)
  }

  function ObserveAll(v: Shown, es: seq<Event>): Shown
    decreases |es|
  {
    if es == [] then v else ObserveAll(Observe(v, es[0]), es[1..])
  }

  /** A PUBLISH that the client takes: QoS 0 always, others with an identifier and, in MQTT 5, with quota. */
  predicate Takes(b: Inbox, e: Event) {
    e.PublishIn? && (e.qos == 0 || (e.qos <= 2 && e.mid != 0 && (b.v5 ==> b.quota > 0)))
  }

  /** A PUBLISH that is not taken is invisible. */
  lemma UntakenIsSilent(b: Inbox, e: Event)
    requires e.PublishIn? && !Takes(b, e)
    ensures var f := Step(b, e); f.inbox == b && f.delivered == [] && f.replies == [] && f.lost == []
    ensures Step(b, e).refused <==> e.qos > 0 && b.v5 && b.quota == 0
  {
  }

  /** Section 4.3 of MQTT 3.1.1: what each quality of service shows for a PUBLISH that is taken. */
  lemma TakenPublishAnswers(b: Inbox, e: Event)
    requires Takes(b, e)
    ensures var f := Step(b, e);
            && !f.refused && f.lost == []
            && |f.replies| == (if e.qos > 0 && e.sendOk then 1 else 0) && |f.delivered| == (if e.qos == 2 then 0 else 1)
            && (e.qos == 1 && e.sendOk ==> Puback(e.mid) in f.replies)
            && (e.qos == 2 && e.sendOk ==> Pubrec(e.mid) in f.replies)
            && (e.qos < 2 ==> f.delivered[0].body == e.body && f.delivered[0].qos == e.qos)
            && (e.qos == 1 ==> f.delivered[0].mid == e.mid)
            && |f.inbox.msgs| == |b.msgs| + (if e.qos == 2 then 1 else 0) && b.msgs <= f.inbox.msgs
            && (e.qos == 2 ==> f.inbox.msgs[|b.msgs|].body == e.body && f.inbox.msgs[|b.msgs|].mid == e.mid)
  {
  }

  // ----- over runs -----

  /** How many events of the run are PUBLISHes taken with this quality of service and identifier. */
  function TakenCount(b: Inbox, es: seq<Event>, qos: nat, mid: uint16): nat
    decreases |es|
  {
    if es == [] then 0
    else
      (if Takes(b, es[0]) && es[0].qos == qos && es[0].mid == mid then 1 else 0)
      + TakenCount(Step(b, es[0]).inbox, es[1..], qos, mid)
  }

  function PubrelCount(es: seq<Event>, mid: uint16): nat
    decreases |es|
  {
    if es == [] then 0
    else (if es[0].Pubrel? && es[0].mid == mid && mid != 0 then 1 else 0) + PubrelCount(es[1..], mid)
  }

  function Times(replies: seq<Reply>, r: Reply): nat {
    multiset(replies)[r]
  }

  predicate AllSent(es: seq<Event>) {
    forall i :: 0 <= i < |es| ==> (es[i].PublishIn? ==> es[i].sendOk) && (es[i].Pubrel? ==> es[i].sendOk)
  }

  lemma TimesConcat(a: seq<Reply>, b: seq<Reply>, r: Reply)
    ensures Times(a + b, r) == Times(a, r) + Times(b, r)
  {
  }

  /** The replies to one event when it can be answered. */
  lemma StepReplies(b: Inbox, e: Event, mid: uint16)
    requires (e.PublishIn? ==> e.sendOk) && (e.Pubrel? ==> e.sendOk)
    ensures var r := Step(b, e).replies;
            && Times(r, Puback(mid)) == (if Takes(b, e) && e.qos == 1 && e.mid == mid then 1 else 0)
            && Times(r, Pubrec(mid)) == (if Takes(b, e) && e.qos == 2 && e.mid == mid then 1 else 0)
            && Times(r, Pubcomp(mid)) == (if e.Pubrel? && e.mid == mid && mid != 0 then 1 else 0)
  {
    hide IndexOfMid;
    if e.PublishIn? && !Takes(b, e) { UntakenIsSilent(b, e); }
  }

  /**
   On every run whose replies can be sent, for every identifier: one PUBACK for each QoS 1
   PUBLISH taken, one PUBREC for each QoS 2 PUBLISH taken, one PUBCOMP for each PUBREL, and
   nothing else.
   */
  lemma {:induction false} EachIsAnsweredOnce(v: Shown, es: seq<Event>, mid: uint16)
    requires AllSent(es)
    ensures var u := ObserveAll(v, es);
            && Times(u.replies, Puback(mid)) == Times(v.replies, Puback(mid)) + TakenCount(v.inbox, es, 1, mid)
            && Times(u.replies, Pubrec(mid)) == Times(v.replies, Pubrec(mid)) + TakenCount(v.inbox, es, 2, mid)
            && Times(u.replies, Pubcomp(mid)) == Times(v.replies, Pubcomp(mid)) + PubrelCount(es, mid)
    decreases |es|
  {
    if es != [] {
      var r := Step(v.inbox, es[0]).replies;
      StepReplies(v.inbox, es[0], mid);
      TimesConcat(v.replies, r, Puback(mid));
      TimesConcat(v.replies, r, Pubrec(mid));
      TimesConcat(v.replies, r, Pubcomp(mid));
      hide Step, Takes, Times;
      EachIsAnsweredOnce(Observe(v, es[0]), es[1..], mid);
    }
  }

  /** The messages of QoS 0 and 1 among those delivered. */
  function Direct(msgs: seq<InMsg>, qos: nat): seq<(uint16, seq<byte>)> {
    if msgs == [] then []
    else (if msgs[0].qos == qos then [(msgs[0].mid, msgs[0].body)] else []) + Direct(msgs[1..], qos)
  }

  /** What the PUBLISHes taken at that quality of service carried, in order; QoS 0 has no identifier. */
  function TakenBodies(b: Inbox, es: seq<Event>, qos: nat): seq<(uint16, seq<byte>)>
    decreases |es|
  {
    if es == [] then []
    else
      var e := es[0];
      (if Takes(b, e) && e.qos == qos then [(if qos == 0 then 0 else e.mid, e.body)] else [])
      + TakenBodies(Step(b, e).inbox, es[1..], qos)
  }

  lemma {:induction false} DirectConcat(a: seq<InMsg>, b: seq<InMsg>, qos: nat)
    ensures Direct(a + b, qos) == Direct(a, qos) + Direct(b, qos)
  {
    if a == [] {
      assert a + b == b;
    } else {
      assert (a + b)[1..] == a[1..] + b;
      DirectConcat(a[1..], b, qos);
      var h := if a[0].qos == qos then [(a[0].mid, a[0].body)] else [];
      assert h + (Direct(a[1..], qos) + Direct(b, qos)) == h + Direct(a[1..], qos) + Direct(b, qos);
    }
  }

  lemma StepDelivers(b: Inbox, e: Event, qos: nat)
    requires AllQos2(b.msgs) && qos < 2
    ensures Direct(Step(b, e).delivered, qos)
         == if Takes(b, e) && e.qos == qos then [(if qos == 0 then 0 else e.mid, e.body)] else []
  {
    hide IndexOfMid;
    var d := Step(b, e).delivered;
    if d != [] { assert |d| == 1 && d[1..] == []; }
    if e.PublishIn? && !Takes(b, e) { UntakenIsSilent(b, e); }
  }

  /**
   On every run the application gets the QoS 0 and QoS 1 messages taken, each once and in order,
   whether the replies could be sent or not.
   */
  lemma {:induction false} DirectDeliveries(v: Shown, es: seq<Event>, qos: nat)
    requires Inv(v.inbox) && qos < 2
    ensures Direct(ObserveAll(v, es).delivered, qos) == Direct(v.delivered, qos) + TakenBodies(v.inbox, es, qos)
    decreases |es|
  {
    if es == [] {
      assert Direct(v.delivered, qos) + [] == Direct(v.delivered, qos);
    } else {
      StepDelivers(v.inbox, es[0], qos);
      StepKeeps(v.inbox, es[0]);
      DirectConcat(v.delivered, Step(v.inbox, es[0]).delivered, qos);
      hide Step, Takes, Direct, Inv;
      DirectDeliveries(Observe(v, es[0]), es[1..], qos);
      var t := TakenBodies(Step(v.inbox, es[0]).inbox, es[1..], qos);
      var e := es[0];
      var d := if Takes(v.inbox, e) && e.qos == qos then [(if qos == 0 then 0 else e.mid, e.body)] else [];
      Regroup(Direct(v.delivered, qos), d, t);
    }
  }

  // ----- the receive quota -----

  /** Section 4.9 of MQTT 5.0: what each event does to the quota and its maximum. */
  lemma QuotaLaw(b: Inbox, e: Event)
    requires Inv(b)
    ensures var c := Step(b, e).inbox;
            && (e.PublishIn? ==> c.maximum == b.maximum && c.quota <= b.maximum)
            && (e.PublishIn? && !(Takes(b, e) && e.qos > 0) ==> c.quota == b.quota)
            && (Takes(b, e) && e.qos == 2 ==> c.quota == (if b.quota > 0 then b.quota - 1 else 0))
            && (Takes(b, e) && e.qos == 1 ==> c.quota == (if b.quota > 0 then b.quota else Min(1, b.maximum)))
            && (e.Pubrel? ==> c.maximum == b.maximum
                              && c.quota == (if e.mid == 0 then b.quota else Min(b.quota + 1, b.maximum)))
            && (e.Reset? ==> c.maximum == b.maximum
                             && c.quota == (if |b.msgs| < b.maximum then b.maximum - |b.msgs| else 0))
            && (e.SendConnect? ==> c.msgs == b.msgs
                                   && if b.v5 then c.quota == c.maximum == e.receiveMaximum else c == b)
  {
    hide IndexOfMid;
    if e.Reset? { ResetQuotaExact(b.msgs, b.maximum); }
  }

  lemma {:induction false} ResetQuotaExact(msgs: seq<InMsg>, quota: nat)
    requires AllQos2(msgs)
    ensures ResetQuota(msgs, quota) == if |msgs| < quota then quota - |msgs| else 0
    decreases |msgs|
  {
    if msgs != [] { ResetQuotaExact(msgs[1..], Dec(quota)); }
  }
}
