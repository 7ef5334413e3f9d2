/**
 Outgoing QoS 1 and QoS 2 messages of a libmosquitto client: the list msgs_out.inflight, its
 send quota and the per-message states, as functions of the state before. A send succeeds
 exactly when there is a connection.
 */
module OutFlow {
  import opened Sequences
  import opened Bytes

  datatype MsgState =
    | Invalid | PublishQos1 | WaitForPuback | PublishQos2 | WaitForPubrec
    | ResendPubrel | WaitForPubrel | WaitForPubcomp

  datatype Msg = Msg(mid: uint16, qos: nat, state: MsgState, dup: bool)

  /** Packets handed to packet__queue. */
  datatype Sent = SentPublish(mid: uint16, qos: nat, dup: bool) | SentPubrel(mid: uint16) | SentPubrec(mid: uint16)

  datatype Session = Session(msgs: seq<Msg>, quota: nat, maximum: nat, queueLen: int, connected: bool, active: bool)

  // ----- message__release_to_inflight -----

  function Released(m: Msg): Msg {
    m.(state := if m.qos == 1 then WaitForPuback else if m.qos == 2 then WaitForPubrec else m.state)
  }

  predicate Waiting(m: Msg) {
    m.qos > 0 && m.state == Invalid
  }

  datatype Flow = Flow(msgs: seq<Msg>, quota: nat, sent: seq<Sent>)

  /** The state is set before the send; when the send fails the loop stops without charging quota. */
  function Release(msgs: seq<Msg>, quota: nat, connected: bool): Flow {
    if msgs == [] || quota == 0 then Flow(msgs, quota, [])
    else if !Waiting(msgs[0]) then
      var f := Release(msgs[1..], quota, connected);
      f.(msgs := [msgs[0]] + f.msgs)
    else if !connected then Flow([Released(msgs[0])] + msgs[1..], quota, [])
    else
      var f := Release(msgs[1..], quota - 1, connected);
      Flow([Released(msgs[0])] + f.msgs, f.quota, [SentPublish(msgs[0].mid, msgs[0].qos, msgs[0].dup)] + f.sent)
  }

  // ----- message__reconnect_reset, outgoing half -----

  function ResetState(m: Msg): MsgState {
    if m.qos == 1 then PublishQos1
    else if m.qos == 2 && m.state == WaitForPubrec then PublishQos2
    else if m.qos == 2 && m.state == WaitForPubcomp then ResendPubrel
    else m.state
  }

  function ResetMsg(m: Msg, charged: bool, quotaOnly: bool): Msg {
    m.(state := if !charged then Invalid else if quotaOnly then m.state else ResetState(m))
  }

  function Reset(msgs: seq<Msg>, quota: nat, quotaOnly: bool): Flow {
    if msgs == [] then Flow([], quota, [])
    else
      var f := Reset(msgs[1..], if quota > 0 then quota - 1 else 0, quotaOnly);
      f.(msgs := [ResetMsg(msgs[0], quota > 0, quotaOnly)] + f.msgs)
  }

  // ----- message__remove, message__out_update, message__retry_check -----

  function IndexOfMid(msgs: seq<Msg>, mid: uint16): (r: Option<nat>)
    ensures r.Some? ==> r.value < |msgs| && msgs[r.value].mid == mid
    ensures r.Some? ==> forall i :: 0 <= i < r.value ==> msgs[i].mid != mid
    ensures r.None? ==> forall i :: 0 <= i < |msgs| ==> msgs[i].mid != mid
  {
    FirstIndex(msgs, (m: Msg) => m.mid == mid)
  }

  datatype Found = Missing | WrongQos | At(i: nat)

  function Lookup(msgs: seq<Msg>, mid: uint16, qos: nat): (r: Found)
    ensures r.At? ==> r.i < |msgs| && msgs[r.i].mid == mid && msgs[r.i].qos == qos
  {
    match IndexOfMid(msgs, mid)
    case None => Missing
    case Some(i) => if msgs[i].qos != qos then WrongQos else At(i)
  }

  function Retried(m: Msg): (Msg, seq<Sent>) {
    match m.state
    case PublishQos1 => (m.(dup := true), [SentPublish(m.mid, m.qos, true)])
    case PublishQos2 => (m.(dup := true), [SentPublish(m.mid, m.qos, true)])
    case WaitForPubrel => (m.(dup := true), [SentPubrec(m.mid)])
    case ResendPubrel => (m.(dup := true), [SentPubrel(m.mid)])
    case WaitForPubcomp => (m.(dup := true), [SentPubrel(m.mid)])
    case _ => (m, [])
  }

  function Retry(msgs: seq<Msg>): Flow {
    if msgs == [] then Flow([], 0, [])
    else
      var f := Retry(msgs[1..]);
      Flow([Retried(msgs[0]).0] + f.msgs, 0, Retried(msgs[0]).1 + f.sent)
  }

  // ----- one step of the session -----

  datatype Event =
    | Publish(mid: uint16, qos: nat)
    | Ack(mid: uint16, qos: nat)              // PUBACK (1) or PUBCOMP (2); mid 0: any malformed one
    | Pubrec(mid: uint16, refused: bool)      // refused: reason code >= 0x80 under MQTT 5
    | ConnectionLost
    | Reconnect(socketOk: bool)
    | Connack(accepted: bool)

  function Increment(quota: nat, maximum: nat): nat {
    if quota < maximum then quota + 1 else quota
  }

  function ReleaseIn(s: Session): (Session, seq<Sent>) {
    var f := Release(s.msgs, s.quota, s.connected);
    (s.(msgs := f.msgs, quota := f.quota), f.sent)
  }

  /** Take the message at i out of the list. */
  function Dropped(s: Session, i: nat): Session
    requires i < |s.msgs|
  {
    s.(msgs := Without(s.msgs, i), queueLen := s.queueLen - 1)
  }

  function Step(s: Session, e: Event): (Session, seq<Sent>) {
    match e
    case Publish(mid, qos) =>
      ReleaseIn(s.(msgs := s.msgs + [Msg(mid, qos, Invalid, false)], queueLen := s.queueLen + 1))
    case Ack(mid, qos) =>
      if !s.active then (s, [])
      else
        var t := s.(quota := Increment(s.quota, s.maximum));
        if mid == 0 then (t, []) else
        (match Lookup(s.msgs, mid, qos)
         case WrongQos => (t, [])
         case Missing => ReleaseIn(t)
         case At(i) => ReleaseIn(Dropped(t, i)))
    case Pubrec(mid, refused) =>
      if !s.active || mid == 0 then (s, [])
      else if !refused then
        (match Lookup(s.msgs, mid, 2)
         case WrongQos => (s, [])
         case Missing => (s, [SentPubrel(mid)])
         case At(i) => (s.(msgs := s.msgs[i := s.msgs[i].(state := WaitForPubcomp)]), [SentPubrel(mid)]))
      else
        var l := Lookup(s.msgs, mid, 2);
        var t := if l.At? then Dropped(s, l.i) else s;
        ReleaseIn(t.(quota := Increment(s.quota, s.maximum)))
    case ConnectionLost => (s.(connected := false, active := false), [])
    case Reconnect(ok) =>
      var f := Reset(s.msgs, s.maximum, false);
      (s.(msgs := f.msgs, quota := f.quota, queueLen := |s.msgs|, connected := ok, active := false), [])
    case Connack(accepted) =>
      var f := Reset(s.msgs, s.maximum, true);
      var t := s.(msgs := f.msgs, quota := f.quota, queueLen := |s.msgs|);
      if !accepted then (t, [])
      else
        var r := Retry(t.msgs);
        (t.(msgs := r.msgs, active := true), r.sent)
  }
}
