/**
 Incoming messages of a libmosquitto client: PUBLISH, PUBREL and reconnect acting on
 msgs_in.inflight and the receive quota, and what every run of them keeps.
 */
module InFlow {
  import opened Sequences
  import opened Bytes

  datatype InState = WaitForPubrel | OtherState

  datatype InMsg = InMsg(mid: uint16, qos: nat, state: InState, body: seq<byte>)

  datatype Reply = Puback(mid: uint16) | Pubrec(mid: uint16) | Pubcomp(mid: uint16)

  /** `v5`: the protocol is MQTT 5. */
  datatype Inbox = Inbox(msgs: seq<InMsg>, quota: nat, maximum: nat, queueLen: int, v5: bool)

  datatype Event =
    | PublishIn(mid: uint16, qos: nat, body: seq<byte>, sendOk: bool)  // sendOk: the PUBACK or PUBREC went out
    | Pubrel(mid: uint16, sendOk: bool)       // sendOk: send__pubcomp succeeded
    | Reset                                    // message__reconnect_reset, either caller
    | SendConnect(receiveMaximum: uint16)      // the Receive Maximum property given to connect

  /** What a step shows: deliveries to the application, messages dropped, replies, refusal. */
  datatype Effect = Effect(inbox: Inbox, delivered: seq<InMsg>, lost: seq<InMsg>, replies: seq<Reply>, refused: bool)

  function Dec(quota: nat): nat { if quota > 0 then quota - 1 else 0 }

  function Inc(quota: nat, maximum: nat): nat { if quota < maximum then quota + 1 else quota }

  function IndexOfMid(msgs: seq<InMsg>, mid: uint16): (r: Option<nat>)
    ensures r.Some? ==> r.value < |msgs| && msgs[r.value].mid == mid
    ensures r.Some? ==> forall i :: 0 <= i < r.value ==> msgs[i].mid != mid
    ensures r.None? ==> forall i :: 0 <= i < |msgs| ==> msgs[i].mid != mid
  {
    FirstIndex(msgs, (m: InMsg) => m.mid == mid)
  }

  function ResetQuota(msgs: seq<InMsg>, quota: nat): nat {
    if msgs == [] then quota else ResetQuota(msgs[1..], if msgs[0].qos == 2 then Dec(quota) else quota)
  }

  function KeepQos2(msgs: seq<InMsg>): seq<InMsg> {
    if msgs == [] then [] else (if msgs[0].qos == 2 then [msgs[0]] else []) + KeepQos2(msgs[1..])
  }

  function Step(b: Inbox, e: Event): Effect {
    match e
    case PublishIn(mid, qos, body, sendOk) =>
      if qos > 0 && b.v5 && b.quota == 0 then Effect(b, [], [], [], true)
      else if qos > 0 && mid == 0 then Effect(b, [], [], [], false)
      else if qos == 0 then Effect(b, [InMsg(0, 0, OtherState, body)], [], [], false)
      else if qos == 1 then
        Effect(b.(quota := Inc(Dec(b.quota), b.maximum)), [InMsg(mid, 1, OtherState, body)], [],
               if sendOk then [Puback(mid)] else [], false)
      else if qos == 2 then
        Effect(b.(msgs := b.msgs + [InMsg(mid, 2, WaitForPubrel, body)],
                  quota := Dec(b.quota), queueLen := b.queueLen + 1),
               [], [], if sendOk then [Pubrec(mid)] else [], false)
      else Effect(b, [], [], [], false)
    case Pubrel(mid, sendOk) =>
      if mid == 0 then Effect(b, [], [], [], false)
      else
        var c := b.(quota := Inc(b.quota, b.maximum));
        var replies := if sendOk then [Pubcomp(mid)] else [];
        (match IndexOfMid(b.msgs, mid)
         case None => Effect(c, [], [], replies, false)
         case Some(i) =>
           if b.msgs[i].qos != 2 then Effect(c, [], [], replies, false)
           else
             var d := c.(msgs := Without(b.msgs, i), queueLen := b.queueLen - 1);
             if sendOk then Effect(d, [b.msgs[i]], [], replies, false) else Effect(d, [], [b.msgs[i]], replies, false))
    case Reset =>
      Effect(b.(msgs := KeepQos2(b.msgs), quota := ResetQuota(b.msgs, b.maximum), queueLen := |b.msgs|),
             [], [], [], false)
    case SendConnect(m) =>
      Effect(if b.v5 then b.(maximum := m, quota := m) else b, [], [], [], false)
  }

  // ----- what every step keeps -----

  ghost predicate AllQos2(msgs: seq<InMsg>) {
    forall i :: 0 <= i < |msgs| ==> msgs[i].qos == 2 && msgs[i].state == WaitForPubrel
  }

  /** Only unreleased QoS 2 messages are held, and the quota accounts for at least the rest. */
  ghost predicate Inv(b: Inbox) {
    && AllQos2(b.msgs) && b.queueLen == |b.msgs|
    && b.maximum - |b.msgs| <= b.quota <= b.maximum
  }

  lemma {:induction false} KeepQos2All(msgs: seq<InMsg>)
    requires AllQos2(msgs)
    ensures KeepQos2(msgs) == msgs
  {
    if msgs != [] {
      KeepQos2All(msgs[1..]);
      assert msgs == [msgs[0]] + msgs[1..];
    }
  }

  lemma {:induction false} ResetQuotaBounds(msgs: seq<InMsg>, quota: nat)
    ensures quota - |msgs| <= ResetQuota(msgs, quota) <= quota
    decreases |msgs|
  {
    if msgs != [] { ResetQuotaBounds(msgs[1..], if msgs[0].qos == 2 then Dec(quota) else quota); }
  }

  lemma StepKeeps(b: Inbox, e: Event)
    requires Inv(b)
    ensures Inv(Step(b, e).inbox)
    ensures e.Reset? ==> Step(b, e).inbox.msgs == b.msgs
    ensures Step(b, e).refused ==> |b.msgs| >= b.maximum
  {
    hide IndexOfMid, KeepQos2, ResetQuota;
    if e.Reset? {
      KeepQos2All(b.msgs);
      ResetQuotaBounds(b.msgs, b.maximum);
    }
  }

  // ----- runs -----

  /** A run with its history: QoS 2 messages accepted, and those taken off the list again. */
  datatype History = History(inbox: Inbox, received: seq<InMsg>, delivered: seq<InMsg>, lost: seq<InMsg>)

  function Accepted(b: Inbox, e: Event): seq<InMsg> {
    if e.PublishIn? && e.qos == 2 && e.mid != 0 && !(b.v5 && b.quota == 0) then [InMsg(e.mid, 2, WaitForPubrel, e.body)]
    else []
  }

  /** Deliveries by PUBREL; those of QoS 0 and 1 do not pass through the list. */
  function Advance(h: History, e: Event): History {
    var f := Step(h.inbox, e);
    History(f.inbox, h.received + Accepted(h.inbox, e),
            h.delivered + (if e.Pubrel? then f.delivered else []), h.lost + f.lost)
  }

  function Run(h: History, es: seq<Event>): History
    decreases |es|
  {
    if es == [] then h else Run(Advance(h, es[0]), es[1..])
  }

  function OfMid(msgs: seq<InMsg>, mid: uint16): seq<InMsg> {
    if msgs == [] then [] else (if msgs[0].mid == mid then [msgs[0]] else []) + OfMid(msgs[1..], mid)
  }

  lemma {:induction false} OfMidConcat(a: seq<InMsg>, b: seq<InMsg>, mid: uint16)
    ensures OfMid(a + b, mid) == OfMid(a, mid) + OfMid(b, mid)
  {
    if a == [] {
      assert a + b == b;
    } else {
      assert (a + b)[0] == a[0] && (a + b)[1..] == a[1..] + b;
      OfMidConcat(a[1..], b, mid);
      var h := if a[0].mid == mid then [a[0]] else [];
      assert h + (OfMid(a[1..], mid) + OfMid(b, mid)) == h + OfMid(a[1..], mid) + OfMid(b, mid);
    }
  }

  lemma OfMidOne(m: InMsg, mid: uint16)
    ensures OfMid([m], mid) == if m.mid == mid then [m] else []
  {
    assert OfMid([m][1..], mid) == [];
  }

  /** Taking out the first message of a mid takes the first of that mid and no other. */
  lemma {:induction false} OfMidRemove(msgs: seq<InMsg>, i: nat, mid: uint16)
    requires i < |msgs| && forall j :: 0 <= j < i ==> msgs[j].mid != msgs[i].mid
    ensures OfMid(msgs, mid) == (if mid == msgs[i].mid then [msgs[i]] else []) + OfMid(Without(msgs, i), mid)
  {
    if i == 0 {
      assert Without(msgs, 0) == msgs[1..];
    } else {
      assert Without(msgs, i) == [msgs[0]] + Without(msgs[1..], i - 1);
      assert Without(msgs, i)[1..] == Without(msgs[1..], i - 1);
      OfMidRemove(msgs[1..], i - 1, mid);
    }
  }

  /** Per packet identifier, first in first out: received = delivered, then still queued. */
  ghost predicate Conserved(h: History, mid: uint16) {
    OfMid(h.received, mid) == OfMid(h.delivered, mid) + OfMid(h.inbox.msgs, mid)
  }

  predicate SendsSucceed(es: seq<Event>) {
    forall e | e in es :: e.Pubrel? ==> e.sendOk
  }

  lemma PublishConserves(h: History, e: Event, mid: uint16)
    requires Inv(h.inbox) && Conserved(h, mid) && e.PublishIn?
    ensures Conserved(Advance(h, e), mid)
  {
    hide OfMid;
    var acc := Accepted(h.inbox, e);
    assert Advance(h, e).inbox.msgs == h.inbox.msgs + acc;
    assert Advance(h, e).delivered == h.delivered;
    OfMidConcat(h.received, acc, mid);
    OfMidConcat(h.inbox.msgs, acc, mid);
  }

  lemma PubrelConserves(h: History, m: uint16, mid: uint16)
    requires Inv(h.inbox) && Conserved(h, mid)
    ensures Conserved(Advance(h, Pubrel(m, true)), mid)
  {
    hide OfMid;
    var b, g := h.inbox, Advance(h, Pubrel(m, true));
    var r := IndexOfMid(b.msgs, m);
    assert g.received == h.received;
    if r.Some? && m != 0 {
      var x := b.msgs[r.value];
      assert g.delivered == h.delivered + [x] && g.inbox.msgs == Without(b.msgs, r.value);
      OfMidRemove(b.msgs, r.value, mid);
      OfMidConcat(h.delivered, [x], mid);
      OfMidOne(x, mid);
    } else {
      assert g.delivered == h.delivered;
    }
  }

  lemma AdvanceConserves(h: History, e: Event, mid: uint16)
    requires Inv(h.inbox) && Conserved(h, mid) && (e.Pubrel? ==> e.sendOk)
    ensures Conserved(Advance(h, e), mid) && Advance(h, e).lost == h.lost
  {
    hide OfMid;
    match e
    case PublishIn(m, qos, body, ok) => PublishConserves(h, e, mid);
    case Pubrel(m, ok) => PubrelConserves(h, m, mid);
    case Reset =>
      KeepQos2All(h.inbox.msgs);
      assert Advance(h, e).delivered == h.delivered && Advance(h, e).received == h.received;
    case SendConnect(_) =>
      assert Advance(h, e).delivered == h.delivered && Advance(h, e).received == h.received;
  }

  /**
   On every run in which PUBCOMP can be sent, for every packet identifier, the QoS 2 messages
   received are those delivered followed by those still held, in order: none is lost, invented
   or reordered, whatever the number of reconnects.
   */
  lemma {:induction false} ExactDelivery(h: History, es: seq<Event>, mid: uint16)
    requires Inv(h.inbox) && Conserved(h, mid) && SendsSucceed(es)
    ensures Inv(Run(h, es).inbox) && Conserved(Run(h, es), mid) && Run(h, es).lost == h.lost
    decreases |es|
  {
    if es != [] {
      assert es[0] in es;
      StepKeeps(h.inbox, es[0]);
      AdvanceConserves(h, es[0], mid);
      ExactDelivery(Advance(h, es[0]), es[1..], mid);
    }
  }

  /** A message is lost exactly when its PUBREL arrives and PUBCOMP cannot be sent. */
  lemma LostIff(b: Inbox, e: Event)
    requires Inv(b)
    ensures Step(b, e).lost != [] <==> e.Pubrel? && !e.sendOk && e.mid != 0 && OfMid(b.msgs, e.mid) != []
  {
    if e.Pubrel? {
      var r := IndexOfMid(b.msgs, e.mid);
      if r.Some? {
        OfMidRemove(b.msgs, r.value, e.mid);
      } else {
        NoneOfMid(b.msgs, e.mid);
      }
    }
  }

  lemma {:induction false} NoneOfMid(msgs: seq<InMsg>, mid: uint16)
    requires forall i :: 0 <= i < |msgs| ==> msgs[i].mid != mid
    ensures OfMid(msgs, mid) == []
  {
    if msgs != [] { NoneOfMid(msgs[1..], mid); }
  }

  /** Section 4.9 of MQTT 5.0: on every run the quota bound holds and refusals are justified. */
  lemma {:induction false} ReceiveQuotaBounds(b: Inbox, es: seq<Event>)
    requires Inv(b)
    ensures var c := Run(History(b, [], [], []), es).inbox;
            && c.maximum - |c.msgs| <= c.quota <= c.maximum
            && forall e :: Step(c, e).refused ==> |c.msgs| >= c.maximum
    decreases |es|
  {
    RunKeeps(History(b, [], [], []), es);
    var c := Run(History(b, [], [], []), es).inbox;
    forall e ensures Step(c, e).refused ==> |c.msgs| >= c.maximum { StepKeeps(c, e); }
  }

  lemma {:induction false} RunKeeps(h: History, es: seq<Event>)
    requires Inv(h.inbox)
    ensures Inv(Run(h, es).inbox)
    decreases |es|
  {
    if es != [] {
      StepKeeps(h.inbox, es[0]);
      RunKeeps(Advance(h, es[0]), es[1..]);
    }
  }

  // ----- repeated PUBREL and reused identifiers -----

  /** PUBREL is always answered with PUBCOMP; it delivers one message of its identifier if one is held. */
  lemma PubrelAnswers(b: Inbox, mid: uint16)
    requires Inv(b) && mid != 0
    ensures var f := Step(b, Pubrel(mid, true));
            && f.replies == [Pubcomp(mid)]
            && f.delivered == (if OfMid(b.msgs, mid) == [] then [] else [OfMid(b.msgs, mid)[0]])
            && OfMid(f.inbox.msgs, mid) == (if OfMid(b.msgs, mid) == [] then [] else OfMid(b.msgs, mid)[1..])
  {
    var r := IndexOfMid(b.msgs, mid);
    if r.Some? {
      OfMidRemove(b.msgs, r.value, mid);
    } else {
      NoneOfMid(b.msgs, mid);
    }
  }

  /**
   handle__publish does not look for the identifier before appending. After a PUBLISH and its
   PUBREL, a repeated PUBREL delivers nothing more exactly when the identifier was not already
   held; so a PUBLISH retransmitted before its PUBREL is delivered again by a second PUBREL.
   */
  lemma RepeatedPubrelIff(b: Inbox, mid: uint16, body: seq<byte>)
    requires Inv(b) && mid != 0 && !(b.v5 && b.quota == 0)
    ensures var c := Step(b, PublishIn(mid, 2, body, true)).inbox;
            var d := Step(c, Pubrel(mid, true)).inbox;
            Step(d, Pubrel(mid, true)).delivered == [] <==> OfMid(b.msgs, mid) == []
  {
    var c := Step(b, PublishIn(mid, 2, body, true)).inbox;
    var d := Step(c, Pubrel(mid, true)).inbox;
    StepKeeps(b, PublishIn(mid, 2, body, true));
    StepKeeps(c, Pubrel(mid, true));
    var m := InMsg(mid, 2, WaitForPubrel, body);
    OfMidConcat(b.msgs, [m], mid);
    OfMidOne(m, mid);
    PubrelAnswers(c, mid);
    PubrelAnswers(d, mid);
    assert OfMid(c.msgs, mid) == OfMid(b.msgs, mid) + [m];
  }

  /** A broker that does not reuse an identifier before it has sent the PUBREL for it. */
  ghost predicate NoReuse(h: History, es: seq<Event>)
    decreases |es|
  {
    es == [] || ((es[0].PublishIn? && es[0].qos == 2 ==> OfMid(h.inbox.msgs, es[0].mid) == [])
                 && NoReuse(Advance(h, es[0]), es[1..]))
  }

  /** Then at most one message of an identifier is ever held. */
  lemma {:induction false} OneHeldPerMid(h: History, es: seq<Event>, mid: uint16)
    requires Inv(h.inbox) && |OfMid(h.inbox.msgs, mid)| <= 1 && NoReuse(h, es)
    ensures |OfMid(Run(h, es).inbox.msgs, mid)| <= 1
    decreases |es|
  {
    if es != [] {
      StepKeeps(h.inbox, es[0]);
      HeldAfter(h, es[0], mid);
      OneHeldPerMid(Advance(h, es[0]), es[1..], mid);
    }
  }

  lemma HeldAfter(h: History, e: Event, mid: uint16)
    requires Inv(h.inbox)
    requires e.PublishIn? && e.qos == 2 ==> OfMid(h.inbox.msgs, e.mid) == []
    ensures var n := |OfMid(h.inbox.msgs, mid)|;
            |OfMid(Advance(h, e).inbox.msgs, mid)| <= if n > 1 then n else 1
  {
    hide OfMid;
    var b := h.inbox;
    match e
    case PublishIn(m, qos, body, ok) =>
      var acc := Accepted(b, e);
      assert Advance(h, e).inbox.msgs == b.msgs + acc;
      OfMidConcat(b.msgs, acc, mid);
      if acc != [] {
        OfMidOne(acc[0], mid);
      } else {
        assert b.msgs + acc == b.msgs;
      }
    case Pubrel(m, ok) =>
      var r := IndexOfMid(b.msgs, m);
      if r.Some? { OfMidRemove(b.msgs, r.value, mid); }
    case Reset => KeepQos2All(b.msgs);
    case SendConnect(_) =>
  }

  // ----- at most one delivery per PUBLISH -----

  predicate Publishes(e: Event, mid: uint16) {
    e.PublishIn? && e.qos == 2 && e.mid == mid
  }

  ghost predicate NonePublishes(es: seq<Event>, mid: uint16) {
    forall i :: 0 <= i < |es| ==> !Publishes(es[i], mid)
  }

  /** A step that is no PUBLISH of mid takes at most its first message, and delivers it or loses it. */
  lemma TakesFirst(h: History, e: Event, mid: uint16)
    requires Inv(h.inbox) && !Publishes(e, mid)
    ensures var held, g := OfMid(h.inbox.msgs, mid), Advance(h, e);
            if OfMid(g.inbox.msgs, mid) == held then OfMid(g.delivered, mid) == OfMid(h.delivered, mid)
            else
              && held != [] && OfMid(g.inbox.msgs, mid) == held[1..]
              && OfMid(g.delivered, mid) in {OfMid(h.delivered, mid), OfMid(h.delivered, mid) + [held[0]]}
  {
    hide OfMid;
    var b, g := h.inbox, Advance(h, e);
    match e
    case PublishIn(m, qos, body, ok) =>
      var acc := Accepted(b, e);
      assert g.inbox.msgs == b.msgs + acc && g.delivered == h.delivered;
      OfMidConcat(b.msgs, acc, mid);
      if acc != [] { OfMidOne(acc[0], mid); } else { assert b.msgs + acc == b.msgs; }
    case Pubrel(m, ok) =>
      var r := IndexOfMid(b.msgs, m);
      if r.Some? && m != 0 {
        var x := b.msgs[r.value];
        assert g.inbox.msgs == Without(b.msgs, r.value);
        OfMidRemove(b.msgs, r.value, mid);
        OfMidConcat(h.delivered, [x], mid);
        OfMidOne(x, mid);
        assert g.delivered == if ok then h.delivered + [x] else h.delivered;
      } else {
        assert g.delivered == h.delivered;
      }
    case Reset =>
      KeepQos2All(b.msgs);
      assert g.delivered == h.delivered;
    case SendConnect(_) =>
      assert g.delivered == h.delivered;
  }

  /** Without a PUBLISH of mid, deliveries can only come out of what is held, whether sends succeed or not. */
  lemma {:induction false} DeliveriesComeFromHeld(h: History, es: seq<Event>, mid: uint16)
    requires Inv(h.inbox) && NonePublishes(es, mid)
    ensures |OfMid(Run(h, es).delivered, mid)| + |OfMid(Run(h, es).inbox.msgs, mid)|
         <= |OfMid(h.delivered, mid)| + |OfMid(h.inbox.msgs, mid)|
    decreases |es|
  {
    if es != [] {
      hide OfMid, Advance;
      StepKeeps(h.inbox, es[0]);
      AdvanceInbox(h, es[0]);
      TakesFirst(h, es[0], mid);
      DeliveriesComeFromHeld(Advance(h, es[0]), es[1..], mid);
    }
  }

  lemma AdvanceInbox(h: History, e: Event)
    ensures Advance(h, e).inbox == Step(h.inbox, e).inbox
  {
  }

  /** m is held and not delivered since d; or it is not held, and delivered at most once since. */
  ghost predicate OnceSince(h: History, mid: uint16, d: seq<InMsg>, m: InMsg) {
    || (OfMid(h.inbox.msgs, mid) == [m] && OfMid(h.delivered, mid) == d)
    || (OfMid(h.inbox.msgs, mid) == [] && OfMid(h.delivered, mid) in {d, d + [m]})
  }

  lemma {:induction false} OnceUntilNextPublish(h: History, es: seq<Event>, mid: uint16, d: seq<InMsg>, m: InMsg)
    requires Inv(h.inbox) && NonePublishes(es, mid) && OnceSince(h, mid, d, m)
    ensures OnceSince(Run(h, es), mid, d, m)
    decreases |es|
  {
    if es != [] {
      hide OfMid, Advance;
      StepKeeps(h.inbox, es[0]);
      AdvanceInbox(h, es[0]);
      TakesFirst(h, es[0], mid);
      OnceUntilNextPublish(Advance(h, es[0]), es[1..], mid, d, m);
    }
  }

  lemma {:induction false} RunConcat(h: History, a: seq<Event>, b: seq<Event>)
    ensures Run(h, a + b) == Run(Run(h, a), b)
    decreases |a|
  {
    if a == [] {
      assert a + b == b;
    } else {
      assert (a + b)[1..] == a[1..] + b;
      RunConcat(Advance(h, a[0]), a[1..], b);
    }
  }

  lemma {:induction false} NoReuseLast(h: History, es: seq<Event>, e: Event, mid: uint16)
    requires NoReuse(h, es + [e]) && Publishes(e, mid)
    ensures OfMid(Run(h, es).inbox.msgs, mid) == []
    decreases |es|
  {
    if es == [] {
      assert es + [e] == [e];
    } else {
      assert (es + [e])[1..] == es[1..] + [e];
      NoReuseLast(Advance(h, es[0]), es[1..], e, mid);
    }
  }

  /**
   If no identifier is reused before its PUBREL, each message is delivered at most once: from
   its PUBLISH to the next one of the same identifier, on any run and whatever sends fail, the
   deliveries of that identifier grow by this message or not at all.
   */
  lemma DeliveredAtMostOnce(h: History, before: seq<Event>, body: seq<byte>, ok: bool, after: seq<Event>, mid: uint16)
    requires Inv(h.inbox) && NoReuse(h, before + [PublishIn(mid, 2, body, ok)]) && NonePublishes(after, mid)
    ensures var d := OfMid(Run(h, before).delivered, mid);
            OfMid(Run(h, before + [PublishIn(mid, 2, body, ok)] + after).delivered, mid)
            in {d, d + [InMsg(mid, 2, WaitForPubrel, body)]}
  {
    hide OfMid;
    var e, m := PublishIn(mid, 2, body, ok), InMsg(mid, 2, WaitForPubrel, body);
    var g := Run(h, before);
    RunKeeps(h, before);
    NoReuseLast(h, before, e, mid);
    RunConcat(h, before, [e]);
    RunConcat(h, before + [e], after);
    RunOne(g, e);
    StepKeeps(g.inbox, e);
    AdvanceInbox(g, e);
    var acc := Accepted(g.inbox, e);
    OfMidConcat(g.inbox.msgs, acc, mid);
    OfMidOne(m, mid);
    assert g.inbox.msgs + [] == g.inbox.msgs;
    assert Advance(g, e).inbox.msgs == g.inbox.msgs + acc && Advance(g, e).delivered == g.delivered;
    OnceUntilNextPublish(Advance(g, e), after, mid, OfMid(g.delivered, mid), m);
  }

  lemma RunOne(h: History, e: Event)
    ensures Run(h, [e]) == Advance(h, e)
  {
    assert [e][1..] == [];
    assert Run(Advance(h, e), []) == Advance(h, e);
  }

  /** The retransmission spelled out: the broker repeats PUBLISH after a reconnect, and PUBREL for each. */
  lemma RetransmissionDeliveredTwice(mid: uint16, body: seq<byte>)
    requires mid != 0
    ensures var h := History(Inbox([], 20, 20, 0, true), [], [], []);
            var m := InMsg(mid, 2, WaitForPubrel, body);
            var p, r := PublishIn(mid, 2, body, true), Pubrel(mid, true);
            Run(h, [p, Reset, p, r, r]).delivered == [m, m]
  {
    var h := History(Inbox([], 20, 20, 0, true), [], [], []);
    var m := InMsg(mid, 2, WaitForPubrel, body);
    var p, r := PublishIn(mid, 2, body, true), Pubrel(mid, true);
    RunFive(h, p, Reset, p, r, r);
    hide Run, IndexOfMid;
    var h1 := Advance(h, p);
    assert h1.inbox.msgs == [m] && h1.inbox.quota == 19;
    var h2 := Advance(h1, Reset);
    assert KeepQos2([m]) == [m] && ResetQuota([m], 20) == 19 by { assert [m][1..] == []; }
    var h3 := Advance(h2, p);
    assert h3.inbox.msgs == [m] + [m];
    hide Advance;
    DeliversFirst(h3, m, [m]);
    DeliversFirst(Advance(h3, r), m, []);
  }

  lemma DeliversFirst(h: History, m: InMsg, rest: seq<InMsg>)
    requires h.inbox.msgs == [m] + rest && m.mid != 0 && m.qos == 2
    ensures var g := Advance(h, Pubrel(m.mid, true)); g.inbox.msgs == rest && g.delivered == h.delivered + [m]
  {
    assert IndexOfMid(h.inbox.msgs, m.mid) == Some(0);
    assert Without(h.inbox.msgs, 0) == rest;
  }

  lemma RunFive(h: History, a: Event, b: Event, c: Event, d: Event, e: Event)
    ensures Run(h, [a, b, c, d, e]) == Advance(Advance(Advance(Advance(Advance(h, a), b), c), d), e)
  {
    hide Advance;
    assert [a, b, c, d, e][1..] == [b, c, d, e] && [b, c, d, e][1..] == [c, d, e] && [c, d, e][1..] == [d, e];
    assert [d, e][1..] == [e] && [e][1..] == [];
    var h3 := Advance(Advance(Advance(h, a), b), c);
    assert Run(h, [a, b, c, d, e]) == Run(Advance(h, a), [b, c, d, e]);
    assert Run(Advance(h, a), [b, c, d, e]) == Run(Advance(Advance(h, a), b), [c, d, e]) == Run(h3, [d, e]);
    assert Run(h3, [d, e]) == Run(Advance(h3, d), [e]) == Run(Advance(Advance(h3, d), e), []);
  }
}
