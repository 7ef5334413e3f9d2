/**
 The incoming half of a libmosquitto client as the code runs it. Each handler is proved to
 perform the corresponding step of InFlow.
 */
module InSession {
  import opened Sequences
  import opened Bytes
  import opened InFlow

  class InQueue {
    var inflight: seq<InMsg>
    var inflightQuota: nat
    var inflightMaximum: nat
    var queueLen: int
    const mqtt5: bool
    var onMessage: seq<InMsg>
    var replies: seq<Reply>

    ghost function State(): Inbox
      reads this
    {
      Inbox(inflight, inflightQuota, inflightMaximum, queueLen, mqtt5)
    }

    constructor (maximum: nat, mqtt5: bool)
      ensures State() == Inbox([], maximum, maximum, 0, mqtt5) && onMessage == [] && replies == []
    {
      inflight, inflightQuota, inflightMaximum, queueLen := [], maximum, maximum, 0;
      this.mqtt5 := mqtt5;
      onMessage, replies := [], [];
    }

    method DecrementReceiveQuota()
      modifies this`inflightQuota
      ensures inflightQuota == Dec(old(inflightQuota))
    {
      if inflightQuota > 0 { inflightQuota := inflightQuota - 1; }
    }

    method IncrementReceiveQuota()
      modifies this`inflightQuota
      ensures inflightQuota == Inc(old(inflightQuota), inflightMaximum)
    {
      if inflightQuota < inflightMaximum { inflightQuota := inflightQuota + 1; }
    }

    /** handle__publish, after topic, properties and payload have been read. */
    method HandlePublish(mid: uint16, qos: nat, body: seq<byte>, sendOk: bool) returns (rc: Result<()>)
      modifies this
      ensures var f := Step(old(State()), PublishIn(mid, qos, body, sendOk));
              var taken := f.delivered != [] || |f.inbox.msgs| > |old(inflight)|;
              && State() == f.inbox && onMessage == old(onMessage) + f.delivered && replies == old(replies) + f.replies
              && rc == if !taken then Err(ErrProtocol) else if qos == 0 || sendOk then Ok(()) else Err(ErrNoConn)
    {
      if qos > 0 {
        if mqtt5 && inflightQuota == 0 {
          return Err(ErrProtocol);
        }
        if mid == 0 {
          return Err(ErrProtocol);
        }
      }
      if qos == 0 {
        onMessage := onMessage + [InMsg(0, 0, OtherState, body)];
        return Ok(());
      } else if qos == 1 {
        DecrementReceiveQuota();
        IncrementReceiveQuota();   // inside send__puback
        if sendOk { replies := replies + [Puback(mid)]; }
        onMessage := onMessage + [InMsg(mid, 1, OtherState, body)];
        return if sendOk then Ok(()) else Err(ErrNoConn);
      } else if qos == 2 {
        DecrementReceiveQuota();
        if sendOk { replies := replies + [Pubrec(mid)]; }
        inflight := inflight + [InMsg(mid, 2, WaitForPubrel, body)];
        queueLen := queueLen + 1;
        return if sendOk then Ok(()) else Err(ErrNoConn);
      } else {
        return Err(ErrProtocol);
      }
    }

    /** The incoming branch of message__remove. */
    method MessageRemove(mid: uint16) returns (removed: Option<InMsg>)
      modifies this`inflight, this`queueLen
      ensures var r := IndexOfMid(old(inflight), mid);
              if r.Some? && old(inflight)[r.value].qos == 2 then
                && removed == Some(old(inflight)[r.value]) && inflight == Without(old(inflight), r.value)
                && queueLen == old(queueLen) - 1
              else removed == None && inflight == old(inflight) && queueLen == old(queueLen)
    {
      var k := 0;
      while k < |inflight|
        invariant k <= |inflight| && inflight == old(inflight) && queueLen == old(queueLen)
        invariant forall i :: 0 <= i < k ==> inflight[i].mid != mid
      {
        if inflight[k].mid == mid {
          assert IndexOfMid(inflight, mid) == Some(k);
          if inflight[k].qos != 2 {
            return None;
          }
          removed := Some(inflight[k]);
          inflight := inflight[..k] + inflight[k + 1..];
          queueLen := queueLen - 1;
          return;
        }
        k := k + 1;
      }
      return None;
    }

    /** handle__pubrel: send__pubcomp raises the quota first; a failed send drops the message. */
    method HandlePubrel(mid: uint16, sendOk: bool)
      modifies this
      ensures var f := Step(old(State()), Pubrel(mid, sendOk));
              State() == f.inbox && onMessage == old(onMessage) + f.delivered && replies == old(replies) + f.replies
    {
      if mid == 0 { return; }
      IncrementReceiveQuota();
      if sendOk {
        replies := replies + [Pubcomp(mid)];
      }
      var removed := MessageRemove(mid);
      if sendOk && removed.Some? {
        onMessage := onMessage + [removed.value];
      }
    }

    /** The incoming half of message__reconnect_reset: anything but QoS 2 is deleted on the way. */
    method ReconnectReset()
      modifies this`inflight, this`inflightQuota, this`queueLen
      ensures State() == Step(old(State()), Reset).inbox
    {
      hide KeepQos2, ResetQuota;
      ghost var l := inflight;
      ghost var kept, quota := KeepQos2(l), ResetQuota(l, inflightMaximum);
      inflightQuota := inflightMaximum;
      queueLen := 0;
      var k := 0;
      ghost var i := 0;
      ghost var done: seq<InMsg> := [];
      assert l[0..] == l && [] + l == l && done + kept == kept;
      while k < |inflight|
        invariant k == |done| && i <= |l| && queueLen == i && inflight == done + l[i..]
        invariant done + KeepQos2(l[i..]) == kept && ResetQuota(l[i..], inflightQuota) == quota
        decreases |l| - i
      {
        ResetOne(l, i, done, inflightQuota);
        queueLen := queueLen + 1;
        if inflight[k].qos != 2 {
          inflight := inflight[..k] + inflight[k + 1..];
        } else {
          DecrementReceiveQuota();
          done := done + [l[i]];
          k := k + 1;
        }
        i := i + 1;
      }
      ResetNone(l, i, done, inflightQuota);
    }

    /** The Receive Maximum branch of send__connect. */
    method TakeReceiveMaximum(receiveMaximum: uint16)
      modifies this`inflightMaximum, this`inflightQuota
      ensures State() == Step(old(State()), SendConnect(receiveMaximum)).inbox
    {
      if mqtt5 {
        inflightMaximum, inflightQuota := receiveMaximum, receiveMaximum;
      }
    }
  }

  lemma ResetOne(l: seq<InMsg>, i: nat, done: seq<InMsg>, quota: nat)
    requires i < |l|
    ensures var s, k := done + l[i..], |done|;
            && s[k] == l[i] && s == done + [l[i]] + l[i + 1..] && s[..k] + s[k + 1..] == done + l[i + 1..]
    ensures done + KeepQos2(l[i..]) == (if l[i].qos == 2 then done + [l[i]] else done) + KeepQos2(l[i + 1..])
    ensures ResetQuota(l[i..], quota) == ResetQuota(l[i + 1..], if l[i].qos == 2 then Dec(quota) else quota)
  {
    assert l[i..][1..] == l[i + 1..];
    assert l[i..] == [l[i]] + l[i + 1..];
  }

  lemma ResetNone(l: seq<InMsg>, i: nat, done: seq<InMsg>, quota: nat)
    requires i <= |l| && |done + l[i..]| == |done|
    ensures i == |l| && done + l[i..] == done && KeepQos2(l[i..]) == [] && ResetQuota(l[i..], quota) == quota
  {
    assert l[i..] == [];
  }
}
