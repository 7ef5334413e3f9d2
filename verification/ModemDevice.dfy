/**
 The buffers and routines behind ModemInput as they stand in memory: Buffer<2048> over its
 array, the interrupt routine, and InData::Update cut into the steps between which an
 interrupt may strike. Each is proved to be the corresponding step of the protocol.
 */
module ModemDevice {
  import opened Bytes
  import opened ModemInput

  class Buffer {
    const data: array<byte>
    var size: nat

    ghost predicate Valid()
      reads this
    {
      data.Length == CAPACITY && size <= CAPACITY
    }

    ghost function Contents(): seq<byte>
      requires Valid()
      reads this, data
    {
      data[..size]
    }

    constructor ()
      ensures Valid() && fresh(data) && Contents() == []
    {
      data := new byte[CAPACITY];
      size := 0;
    }

    method Clear()
      requires Valid()
      modifies this`size
      ensures Valid() && Contents() == []
    {
      size := 0;
    }

    method Append(bytes: seq<byte>) returns (ok: bool)
      requires Valid()
      modifies this`size, data
      ensures Valid() && ok == (|old(Contents())| + |bytes| <= CAPACITY)
      ensures Contents() == old(Contents()) + if ok then bytes else []
    {
      if size + |bytes| > CAPACITY {
        return false;
      }
      forall i | 0 <= i < |bytes| {
        data[size + i] := bytes[i];
      }
      size := size + |bytes|;
      return true;
    }

    /** Append, and Clear if it fails: what every caller does. */
    method AppendOrReset(bytes: seq<byte>)
      requires Valid()
      modifies this`size, data
      ensures Valid() && Contents() == AppendOrClear(old(Contents()), bytes)
    {
      var ok := Append(bytes);
      if !ok {
        Clear();
      }
    }

    /** memmove of what follows the first n bytes to the front. */
    method RemoveFirst(n: nat)
      requires Valid() && n <= size
      modifies this`size, data
      ensures Valid() && Contents() == old(Contents())[n..]
    {
      ghost var was := Contents();
      size := size - n;
      forall i | 0 <= i < size {
        data[i] := data[i + n];
      }
      assert Contents() == was[n..];
    }
  }

  class InData {
    const main: Buffer
    const addit: Buffer
    const buffer: Buffer
    var busy: bool
    /** What SIM868::Update has been given. */
    var answers: seq<seq<byte>>
    ghost var pc: Pc
    ghost var received: seq<byte>
    ghost var consumed: seq<byte>

    ghost predicate Valid()
      reads this, main, addit, buffer
    {
      && main != addit && main != buffer && addit != buffer
      && main.data != addit.data && main.data != buffer.data && addit.data != buffer.data
      && main.Valid() && addit.Valid() && buffer.Valid()
    }

    ghost function Abs(): System
      requires Valid()
      reads this, main, addit, buffer, main.data, addit.data, buffer.data
    {
      System(main.Contents(), addit.Contents(), buffer.Contents(), busy, pc, received, consumed, answers)
    }

    constructor ()
      ensures Valid() && Abs() == START
    {
      main := new Buffer();
      addit := new Buffer();
      buffer := new Buffer();
      busy, answers, pc, received, consumed := false, [], Outside, [], [];
    }

    /** Modem::CallbackOnReceive, the interrupt routine. */
    method CallbackOnReceive(b: byte)
      requires Valid()
      modifies this`received, main, addit, main.data, addit.data
      ensures Valid() && Abs() == Step(old(Abs()), Receive(b))
    {
      received := received + [b];
      if !busy {
        if addit.size > 0 {
          main.AppendOrReset(addit.data[..addit.size]);
          addit.Clear();
        }
        main.AppendOrReset([b]);
      } else {
        addit.AppendOrReset([b]);
      }
    }

    /** main.mutex.Try() */
    method Try()
      requires Valid() && pc == Outside
      modifies this`busy, this`pc
      ensures Valid() && Abs() == Step(old(Abs()), Foreground)
    {
      busy := true;
      pc := Tried;
    }

    /** The test of main.Size() and the copy to the parse buffer. */
    method CopyMain()
      requires Valid() && pc == Tried
      modifies this`pc, buffer, buffer.data
      ensures Valid() && Abs() == Step(old(Abs()), Foreground)
    {
      if main.size > 0 {
        buffer.AppendOrReset(main.data[..main.size]);
        pc := Copied;
      } else {
        pc := Cleared;
      }
    }

    method ClearMain()
      requires Valid() && pc == Copied
      modifies this`pc, main
      ensures Valid() && Abs() == Step(old(Abs()), Foreground)
    {
      main.Clear();
      pc := Cleared;
    }

    /** main.mutex.Release() */
    method Release()
      requires Valid() && pc == Cleared
      modifies this`busy, this`pc
      ensures Valid() && Abs() == Step(old(Abs()), Foreground)
    {
      busy := false;
      pc := Parsing;
    }

    /** The inner loop of InData::Update: an answer, and how many bytes of the buffer it takes. */
    method FindAnswer() returns (r: Option<(seq<byte>, nat)>)
      requires Valid()
      ensures r == Scan([], buffer.Contents())
    {
      hide Scan;
      ghost var s := buffer.Contents();
      var answer: seq<byte> := [];
      assert s[0..] == s;
      ShiftNothing(Scan([], s));
      for i := 0 to buffer.size
        invariant Scan([], s) == Shift(Scan(answer, s[i..]), i)
      {
        var symbol := buffer.data[i];
        ScanStep(answer, s[i..]);
        assert s[i..][0] == symbol && s[i..][1..] == s[i + 1..];
        if symbol == LF {
          continue;
        } else if symbol == CR {
          if answer == [] {
            continue;
          }
          return Some((answer, i + 1));
        } else if symbol == PROMPT {
          return Some((answer + [PROMPT], i + 1));
        } else {
          answer := answer + [symbol];
          if IpdHeader(answer) {
            return None;
          }
        }
      }
      assert s[buffer.size..] == [];
      ScanEmpty(answer);
      return None;
    }

    /** One turn of the outer loop. */
    method ParseOne()
      requires Valid() && pc == Parsing
      modifies this`pc, this`answers, this`consumed, buffer, buffer.data
      ensures Valid() && Abs() == Step(old(Abs()), Foreground)
    {
      var r := FindAnswer();
      if r.Some? {
        consumed := consumed + buffer.Contents()[..r.value.1];
        answers := answers + [r.value.0];
        buffer.RemoveFirst(r.value.1);
      } else {
        pc := Outside;
      }
    }
  }

  /** A scan that began i bytes further on. */
  function Shift(r: Option<(seq<byte>, nat)>, i: nat): Option<(seq<byte>, nat)> {
    if r.None? then None else Some((r.value.0, r.value.1 + i))
  }

  lemma ShiftNothing(r: Option<(seq<byte>, nat)>)
    ensures Shift(r, 0) == r
  {
  }

  lemma ScanEmpty(a: seq<byte>)
    ensures Scan(a, []) == None
  {
  }

  lemma ScanStep(a: seq<byte>, s: seq<byte>)
    requires s != []
    ensures s[0] == PROMPT ==> Scan(a, s) == Some((a + [PROMPT], 1))
    ensures s[0] == CR && a != [] ==> Scan(a, s) == Some((a, 1))
    ensures s[0] == LF || (s[0] == CR && a == []) ==> Scan(a, s) == Shift(Scan(a, s[1..]), 1)
    ensures s[0] !in {LF, CR, PROMPT} ==>
      Scan(a, s) == if IpdHeader(a + [s[0]]) then None else Shift(Scan(a + [s[0]], s[1..]), 1)
  {
  }
}
