/**
 The outgoing half of a libmosquitto client as the code runs it: loops over msgs_out.inflight
 that update messages, quota and queue_len in place. Each handler is proved to perform the
 corresponding step of OutFlow.
 */
module OutSession {
  import opened Sequences
  import opened Bytes
  import opened OutFlow

  /** A flow whose first messages and packets are already settled. */
  ghost function After(msgs: seq<Msg>, sent: seq<Sent>, f: Flow): Flow {
    Flow(msgs + f.msgs, f.quota, sent + f.sent)
  }

  class OutQueue {
    var inflight: seq<Msg>
    var inflightQuota: nat
    var inflightMaximum: nat
    var queueLen: int
    var sockValid: bool
    var active: bool
    var sent: seq<Sent>

    ghost function State(): Session
      reads this
    {
      Session(inflight, inflightQuota, inflightMaximum, queueLen, sockValid, active)
    }

    constructor (maximum: nat)
      ensures State() == Session([], maximum, maximum, 0, false, false) && sent == []
    {
      inflight, inflightQuota, inflightMaximum, queueLen := [], maximum, maximum, 0;
      sockValid, active, sent := false, false, [];
    }

    /** send__publish: fails for lack of a socket, otherwise the packet is queued. */
    method SendPublish(m: Msg) returns (ok: bool)
      modifies this`sent
      ensures ok == sockValid
      ensures sent == if ok then old(sent) + [SentPublish(m.mid, m.qos, m.dup)] else old(sent)
    {
      ok := sockValid;
      if ok {
        sent := sent + [SentPublish(m.mid, m.qos, m.dup)];
      }
    }

    /** message__release_to_inflight */
    method ReleaseToInflight() returns (ok: bool)
      modifies this`inflight, this`inflightQuota, this`sent
      ensures var f := Release(old(inflight), old(inflightQuota), sockValid);
              inflight == f.msgs && inflightQuota == f.quota && sent == old(sent) + f.sent
      ensures !ok ==> !sockValid
    {
      hide Release, Released, After;
      ghost var l, sent0 := inflight, sent;
      ghost var goal := Release(inflight, inflightQuota, sockValid);
      ghost var done: seq<Msg>, out: seq<Sent> := [], [];
      ReleaseStart(l, inflightQuota, sockValid);
      var k := 0;
      while k < |inflight|
        invariant k == |done| <= |l| && inflight == done + l[k..] && sent == sent0 + out
        invariant After(done, out, Release(l[k..], inflightQuota, sockValid)) == goal
        decreases |l| - k
      {
        ReleaseOne(l, k, inflightQuota, sockValid, done, out);
        Split(l, k, done);
        if inflightQuota > 0 {
          if Waiting(inflight[k]) {
            inflight := inflight[k := Released(inflight[k])];
            ok := SendPublish(inflight[k]);
            if !ok {
              return;
            }
            done, out := done + [Released(l[k])], out + [SentPublish(l[k].mid, l[k].qos, l[k].dup)];
            inflightQuota := inflightQuota - 1;
          } else {
            done := done + [l[k]];
          }
        } else {
          return true;
        }
        k := k + 1;
      }
      ReleaseNone(l, k, inflightQuota, sockValid, done, out);
      return true;
    }

    /** What message__reconnect_reset does with one outgoing message. */
    method ResetOneMessage(m0: Msg, updateQuotaOnly: bool) returns (m: Msg)
      modifies this`inflightQuota
      ensures m == ResetMsg(m0, old(inflightQuota) > 0, updateQuotaOnly)
      ensures inflightQuota == if old(inflightQuota) > 0 then old(inflightQuota) - 1 else 0
    {
      m := m0;
      if inflightQuota != 0 {
        inflightQuota := inflightQuota - 1;
        if !updateQuotaOnly {
          if m.qos == 1 {
            m := m.(state := PublishQos1);
          } else if m.qos == 2 {
            if m.state == WaitForPubrec {
              m := m.(state := PublishQos2);
            } else if m.state == WaitForPubcomp {
              m := m.(state := ResendPubrel);
            }
          }
        }
      } else {
        m := m.(state := Invalid);
      }
    }

    /** The outgoing half of message__reconnect_reset. */
    method ReconnectReset(updateQuotaOnly: bool)
      modifies this`inflight, this`inflightQuota, this`queueLen
      ensures var f := Reset(old(inflight), inflightMaximum, updateQuotaOnly);
              inflight == f.msgs && inflightQuota == f.quota && queueLen == |old(inflight)|
    {
      hide Reset, After, ResetMsg;
      ghost var l := inflight;
      ghost var goal := Reset(inflight, inflightMaximum, updateQuotaOnly);
      ghost var done: seq<Msg> := [];
      ResetStart(l, inflightMaximum, updateQuotaOnly);
      inflightQuota := inflightMaximum;
      queueLen := 0;
      var k := 0;
      while k < |inflight|
        invariant k == |done| <= |l| && inflight == done + l[k..] && queueLen == k
        invariant After(done, [], Reset(l[k..], inflightQuota, updateQuotaOnly)) == goal
        decreases |l| - k
      {
        ResetOne(l, k, inflightQuota, updateQuotaOnly, done);
        Split(l, k, done);
        queueLen := queueLen + 1;
        var m := ResetOneMessage(inflight[k], updateQuotaOnly);
        inflight := inflight[k := m];
        done := done + [m];
        k := k + 1;
      }
      ResetNone(l, k, inflightQuota, updateQuotaOnly, done);
    }

    /** The search of message__remove and message__out_update. */
    method Search(mid: uint16, qos: nat) returns (r: Found)
      ensures r == Lookup(inflight, mid, qos)
    {
      var k := 0;
      while k < |inflight|
        invariant k <= |inflight| && forall i :: 0 <= i < k ==> inflight[i].mid != mid
      {
        if inflight[k].mid == mid {
          assert IndexOfMid(inflight, mid) == Some(k);
          return if inflight[k].qos != qos then WrongQos else At(k);
        }
        k := k + 1;
      }
      return Missing;
    }

    /** message__delete: search, unlink and free. */
    method MessageDelete(mid: uint16, qos: nat) returns (r: Found)
      modifies this`inflight, this`queueLen
      ensures r == Lookup(old(inflight), mid, qos)
      ensures r.At? ==> inflight == Without(old(inflight), r.i) && queueLen == old(queueLen) - 1
      ensures !r.At? ==> inflight == old(inflight) && queueLen == old(queueLen)
    {
      r := Search(mid, qos);
      if r.At? {
        inflight := inflight[..r.i] + inflight[r.i + 1..];
        queueLen := queueLen - 1;
      }
    }

    /** message__retry_check */
    method RetryCheck()
      modifies this`inflight, this`sent
      ensures inflight == Retry(old(inflight)).msgs && sent == old(sent) + Retry(old(inflight)).sent
    {
      hide Retry, After;
      ghost var l, sent0 := inflight, sent;
      ghost var goal := Retry(inflight);
      ghost var done: seq<Msg>, out: seq<Sent> := [], [];
      RetryStart(l);
      var k := 0;
      while k < |inflight|
        invariant k == |done| <= |l| && inflight == done + l[k..] && sent == sent0 + out
        invariant After(done, out, Retry(l[k..])) == goal
        decreases |l| - k
      {
        RetryOne(l, k, done, out);
        Split(l, k, done);
        var (m, packets) := Retried(inflight[k]);
        inflight := inflight[k := m];
        sent := sent + packets;
        done, out, k := done + [m], out + packets, k + 1;
      }
      RetryNone(l, k, done, out);
    }

    /** mosquitto_publish_v5 from the point where the message is queued (QoS 1 and 2). */
    method Publish(mid: uint16, qos: nat) returns (ok: bool)
      requires qos == 1 || qos == 2
      modifies this
      ensures var (s, p) := Step(old(State()), Event.Publish(mid, qos)); State() == s && sent == old(sent) + p
      ensures !ok ==> !sockValid
    {
      inflight := inflight + [Msg(mid, qos, Invalid, false)];
      queueLen := queueLen + 1;
      ok := ReleaseToInflight();
    }

    /**
     handle__pubackcomp: qos 1 for PUBACK, 2 for PUBCOMP. The quota rises before the packet is
     parsed; mid 0 stands for every packet that is then refused.
     */
    method HandlePubackcomp(mid: uint16, qos: nat)
      modifies this
      ensures var (s, p) := Step(old(State()), Ack(mid, qos)); State() == s && sent == old(sent) + p
    {
      hide Lookup, Release, Reset, Retry;
      if !active { return; }
      if inflightQuota < inflightMaximum {
        inflightQuota := inflightQuota + 1;
      }
      if mid == 0 { return; }
      var r := MessageDelete(mid, qos);
      if r.WrongQos? { return; }
      var ok := ReleaseToInflight();
    }

    /** handle__pubrec */
    method HandlePubrec(mid: uint16, refused: bool)
      modifies this
      ensures var (s, p) := Step(old(State()), Pubrec(mid, refused)); State() == s && sent == old(sent) + p
    {
      hide Lookup, Release, Reset, Retry;
      if !active || mid == 0 { return; }
      if !refused {
        var r := Search(mid, 2);
        if r.WrongQos? { return; }
        if r.At? {
          inflight := inflight[r.i := inflight[r.i].(state := WaitForPubcomp)];
        }
        sent := sent + [SentPubrel(mid)];
      } else {
        var r := MessageDelete(mid, 2);
        if inflightQuota < inflightMaximum {
          inflightQuota := inflightQuota + 1;
        }
        var ok := ReleaseToInflight();
      }
    }

    method LoseConnection()
      modifies this
      ensures State() == Step(old(State()), ConnectionLost).0 && sent == old(sent)
    {
      sockValid, active := false, false;
    }

    /** mosquitto__reconnect: the session is reset before the socket is opened again. */
    method ReconnectSocket(socketOk: bool)
      modifies this
      ensures State() == Step(old(State()), Reconnect(socketOk)).0 && sent == old(sent)
    {
      ReconnectReset(false);
      sockValid, active := socketOk, false;
    }

    /** handle__connack, with the in-flight maximum left as it is. */
    method HandleConnack(accepted: bool)
      modifies this
      ensures var (s, p) := Step(old(State()), Connack(accepted)); State() == s && sent == old(sent) + p
    {
      inflightQuota := inflightMaximum;
      ReconnectReset(true);
      if accepted {
        active := true;
        RetryCheck();
      }
    }
  }

  lemma ResetStart(l: seq<Msg>, quota: nat, only: bool)
    ensures After([], [], Reset(l[0..], quota, only)) == Reset(l, quota, only) && [] + l[0..] == l
  {
    assert l[0..] == l;
    ResetSendsNothing(l, quota, only);
  }

  lemma {:induction false} ResetSendsNothing(l: seq<Msg>, quota: nat, only: bool)
    ensures Reset(l, quota, only).sent == []
    decreases |l|
  {
    if l != [] { ResetSendsNothing(l[1..], if quota > 0 then quota - 1 else 0, only); }
  }

  lemma ResetOne(l: seq<Msg>, k: nat, quota: nat, only: bool, done: seq<Msg>)
    requires k < |l|
    ensures After(done, [], Reset(l[k..], quota, only))
         == After(done + [ResetMsg(l[k], quota > 0, only)], [],
             Reset(l[k + 1..], if quota > 0 then quota - 1 else 0, only))
  {
    assert l[k..][1..] == l[k + 1..];
  }

  lemma ResetNone(l: seq<Msg>, k: nat, quota: nat, only: bool, done: seq<Msg>)
    requires k == |l|
    ensures After(done, [], Reset(l[k..], quota, only)) == Flow(done, quota, []) && done + l[k..] == done
  {
    assert l[k..] == [];
  }

  lemma RetryStart(l: seq<Msg>)
    ensures After([], [], Retry(l[0..])) == Retry(l) && [] + l[0..] == l
  {
    assert l[0..] == l;
  }

  lemma RetryOne(l: seq<Msg>, k: nat, done: seq<Msg>, out: seq<Sent>)
    requires k < |l|
    ensures After(done, out, Retry(l[k..])) == After(done + [Retried(l[k]).0], out + Retried(l[k]).1, Retry(l[k + 1..]))
  {
    assert l[k..][1..] == l[k + 1..];
  }

  lemma RetryNone(l: seq<Msg>, k: nat, done: seq<Msg>, out: seq<Sent>)
    requires k == |l|
    ensures After(done, out, Retry(l[k..])) == Flow(done, 0, out) && done + l[k..] == done
  {
    assert l[k..] == [];
  }

  /** Element k of a list whose first k have been rewritten, and the list with it rewritten. */
  lemma Split(l: seq<Msg>, k: nat, done: seq<Msg>)
    requires k == |done| < |l|
    ensures (done + l[k..])[k] == l[k] && done + l[k..] == done + [l[k]] + l[k + 1..]
    ensures forall m :: (done + l[k..])[k := m] == done + [m] + l[k + 1..]
  {
    assert l[k..] == [l[k]] + l[k + 1..];
  }

  lemma ReleaseStart(l: seq<Msg>, quota: nat, connected: bool)
    ensures After([], [], Release(l[0..], quota, connected)) == Release(l, quota, connected) && [] + l[0..] == l
  {
    assert l[0..] == l;
  }

  lemma ReleaseNone(l: seq<Msg>, k: nat, quota: nat, connected: bool, done: seq<Msg>, out: seq<Sent>)
    requires k == |l|
    ensures After(done, out, Release(l[k..], quota, connected)) == Flow(done, quota, out) && done + l[k..] == done
  {
    assert l[k..] == [];
  }

  lemma ReleaseOne(l: seq<Msg>, k: nat, quota: nat, connected: bool, done: seq<Msg>, out: seq<Sent>)
    requires k < |l|
    ensures Released(l[k]).mid == l[k].mid && Released(l[k]).qos == l[k].qos && Released(l[k]).dup == l[k].dup
    ensures var f := After(done, out, Release(l[k..], quota, connected));
            if quota == 0 then f == Flow(done + l[k..], 0, out)
            else if !Waiting(l[k]) then f == After(done + [l[k]], out, Release(l[k + 1..], quota, connected))
            else if !connected then f == Flow(done + [Released(l[k])] + l[k + 1..], quota, out)
            else f == After(done + [Released(l[k])], out + [SentPublish(l[k].mid, l[k].qos, l[k].dup)],
                            Release(l[k + 1..], quota - 1, connected))
  {
    assert l[k..][1..] == l[k + 1..];
  }
}
