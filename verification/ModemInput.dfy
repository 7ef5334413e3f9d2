/**
 Bytes from the modem on their way to the command parser (Modem::CallbackOnReceive and
 InData::Update): a receive interrupt fills `main`, or `addit` while the foreground holds the
 mutex; the foreground copies `main` to the parse buffer and takes answers out of it. The
 interrupt may strike between any two steps of the foreground. A buffer that would overflow is
 cleared. The binary path after a +IPD header is not modelled: the parser stops in front of it.
 */
module ModemInput {
  import opened Bytes

  const CAPACITY: nat := 2048

  const LF: byte := 0x0A
  const CR: byte := 0x0D
  const PROMPT: byte := 0x3E

  // ----- answers -----

  /** "+IPD" ... ":", where the binary path begins. */
  predicate IpdHeader(a: seq<byte>) {
    |a| > 5 && a[..4] == [0x2B, 0x49, 0x50, 0x44] && a[|a| - 1] == 0x3A
  }

  /** The first complete answer in s, when `a` has been collected so far, and the bytes it takes. */
  function Scan(a: seq<byte>, s: seq<byte>): (r: Option<(seq<byte>, nat)>)
    ensures r.Some? ==> 0 < r.value.1 <= |s|
    decreases |s|
  {
    if s == [] then None
    else if s[0] == PROMPT then Some((a + [PROMPT], 1))
    else if s[0] == CR && a != [] then Some((a, 1))
    else
      var b := if s[0] == LF || s[0] == CR then a else a + [s[0]];
      if s[0] != LF && s[0] != CR && IpdHeader(b) then None
      else
        match Scan(b, s[1..])
        case None => None
        case Some((ans, n)) => Some((ans, n + 1))
  }

  /** The bytes of s that are neither CR nor LF. */
  function Text(s: seq<byte>): seq<byte> {
    if s == [] then []
    else
      var x := s[|s| - 1];
      Text(s[..|s| - 1]) + if x == CR || x == LF then [] else [x]
  }

  /** A prompt, or the end of a line that is not empty. */
  predicate Ends(s: seq<byte>, i: nat)
    requires i < |s|
  {
    s[i] == PROMPT || (s[i] == CR && Text(s[..i]) != [])
  }

  /** The first n bytes of s are up to its first end, and no +IPD header comes before that. */
  ghost predicate IsAnswer(s: seq<byte>, n: nat) {
    && 0 < n <= |s| && Ends(s, n - 1) && forall i :: 0 <= i < n - 1 ==> Plain(s, i)
  }

  predicate Plain(s: seq<byte>, i: nat)
    requires i < |s|
  {
    !Ends(s, i) && !IpdHeader(Text(s[..i + 1]))
  }

  /** An answer is the text of its line, and a prompt is part of it. */
  function AnswerText(s: seq<byte>, n: nat): seq<byte>
    requires 0 < n <= |s|
  {
    Text(s[..n - 1]) + if s[n - 1] == PROMPT then [PROMPT] else []
  }

  /** An answer is found exactly where there is one, and its text is what is found. */
  lemma ScanIff(s: seq<byte>)
    ensures Scan([], s).Some? <==> exists n: nat :: IsAnswer(s, n)
    ensures forall n: nat :: IsAnswer(s, n) ==> Scan([], s) == Some((AnswerText(s, n), n))
  {
    ScanFrom([], s);
    assert [] + s == s;
  }

  lemma {:induction false} ScanFrom(p: seq<byte>, s: seq<byte>)
    requires forall i :: 0 <= i < |p| ==> Plain(p + s, i)
    ensures match Scan(Text(p), s)
            case None => forall n: nat :: !IsAnswer(p + s, n)
            case Some((a, k)) =>
              IsAnswer(p + s, |p| + k) && a == AnswerText(p + s, |p| + k)
              && forall n: nat :: IsAnswer(p + s, n) ==> n == |p| + k
    decreases |s|
  {
    var all := p + s;
    hide IpdHeader, Scan, Text, Plain, Ends, AnswerText, IsAnswer;
    HeaderNotYet(p, all);
    if s == [] {
      ScanNothing(p, all);
    } else {
      var q := p + [s[0]];
      assert all == q + s[1..] && all[|p|] == s[0] && all[..|p|] == p && all[..|p| + 1] == q;
      ScanTurn(p, s, all);
      if Ends(all, |p|) {
        Answered(all, |p|);
        OnlyAnswer(all, |p| + 1);
      } else if IpdHeader(Text(q)) {
        NoAnswer(all, |p|);
      } else {
        GoesOn(all, |p|);
        ScanFrom(q, s[1..]);
      }
    }
  }

  /** One turn of the loop, on the text collected from p. */
  lemma ScanTurn(p: seq<byte>, s: seq<byte>, all: seq<byte>)
    requires s != [] && all == p + s && !IpdHeader(Text(p))
    ensures var q := p + [s[0]];
            if Ends(all, |p|) then Scan(Text(p), s) == Some((AnswerText(all, |p| + 1), 1))
            else if IpdHeader(Text(q)) then Scan(Text(p), s).None?
            else
              match Scan(Text(q), s[1..])
              case None => Scan(Text(p), s).None?
              case Some((a, k)) => Scan(Text(p), s) == Some((a, k + 1))
  {
    hide IpdHeader;
    var q := p + [s[0]];
    assert q[..|p|] == p && all[..|p|] == p && all[|p|] == s[0];
    assert AnswerText(all, |p| + 1) == Text(p) + if s[0] == PROMPT then [PROMPT] else [];
    assert Text(q) == Text(p) + if s[0] == CR || s[0] == LF then [] else [s[0]];
    hide Text, AnswerText;
    assert Text(p) + [] == Text(p);
  }

  lemma ScanNothing(p: seq<byte>, all: seq<byte>)
    requires all == p + [] && forall i :: 0 <= i < |p| ==> Plain(all, i)
    ensures Scan(Text(p), []).None? && forall n: nat :: !IsAnswer(all, n)
  {
    hide IpdHeader;
    forall n: nat ensures !IsAnswer(all, n) {
      if IsAnswer(all, n) { NotPlain(all, n, n - 1); }
    }
  }

  lemma HeaderNotYet(p: seq<byte>, all: seq<byte>)
    requires p <= all && forall i :: 0 <= i < |p| ==> Plain(all, i)
    ensures !IpdHeader(Text(p))
  {
    if p != [] {
      assert Plain(all, |p| - 1) && all[..|p|] == p;
    }
  }

  lemma GoesOn(s: seq<byte>, i: nat)
    requires i < |s| && !Ends(s, i) && !IpdHeader(Text(s[..i + 1]))
    ensures Plain(s, i)
  {
  }

  lemma Answered(s: seq<byte>, n: nat)
    requires n < |s| && Ends(s, n) && forall i :: 0 <= i < n ==> Plain(s, i)
    ensures IsAnswer(s, n + 1)
  {
  }

  lemma NotPlain(s: seq<byte>, n: nat, i: nat)
    requires IsAnswer(s, n) && i < |s|
    ensures i < n - 1 ==> Plain(s, i)
    ensures i == n - 1 ==> Ends(s, i) && !Plain(s, i)
  {
  }

  lemma NoAnswer(s: seq<byte>, i: nat)
    requires i < |s| && !Ends(s, i) && IpdHeader(Text(s[..i + 1])) && forall j :: 0 <= j < i ==> Plain(s, j)
    ensures forall n: nat :: !IsAnswer(s, n)
  {
    hide IpdHeader;
    forall n: nat ensures !IsAnswer(s, n) {
      if IsAnswer(s, n) {
        NotPlain(s, n, n - 1);
        NotPlain(s, n, i);
      }
    }
  }

  lemma OnlyAnswer(s: seq<byte>, n: nat)
    requires IsAnswer(s, n)
    ensures forall m: nat :: IsAnswer(s, m) ==> m == n
  {
    forall m: nat | IsAnswer(s, m) ensures m == n {
      NotPlain(s, n, m - 1);
      NotPlain(s, m, n - 1);
      NotPlain(s, m, m - 1);
      NotPlain(s, n, n - 1);
    }
  }

  datatype Drained = Drained(answers: seq<seq<byte>>, rest: seq<byte>)

  /** All the answers in s, one after the other. */
  function Drain(s: seq<byte>): Drained
    decreases |s|
  {
    var r := Scan([], s);
    if r.None? then Drained([], s)
    else
      var d := Drain(s[r.value.1..]);
      d.(answers := [r.value.0] + d.answers)
  }

  lemma {:induction false} ScanExtends(a: seq<byte>, s: seq<byte>, t: seq<byte>)
    requires Scan(a, s).Some?
    ensures Scan(a, s + t) == Scan(a, s)
    decreases |s|
  {
    if s[0] != PROMPT && !(s[0] == CR && a != []) {
      var b := if s[0] == LF || s[0] == CR then a else a + [s[0]];
      assert (s + t)[1..] == s[1..] + t;
      ScanExtends(b, s[1..], t);
    }
  }

  lemma DrainOne(s: seq<byte>)
    ensures var r := Scan([], s);
            if r.None? then Drain(s) == Drained([], s)
            else var d := Drain(s[r.value.1..]); Drain(s) == Drained([r.value.0] + d.answers, d.rest)
  {
  }

  /** The answers do not depend on where the stream is cut. */
  lemma {:induction false} DrainAppend(s: seq<byte>, t: seq<byte>)
    ensures var d := Drain(s);
            var e := Drain(d.rest + t);
            Drain(s + t) == Drained(d.answers + e.answers, e.rest)
    decreases |s|
  {
    hide Drain, Scan;
    DrainOne(s);
    var r := Scan([], s);
    if r.Some? {
      var a, n := r.value.0, r.value.1;
      ScanExtends([], s, t);
      DrainOne(s + t);
      assert (s + t)[n..] == s[n..] + t;
      DrainAppend(s[n..], t);
      var d := Drain(s[n..]);
      var more := Drain(d.rest + t).answers;
      assert [a] + (d.answers + more) == [a] + d.answers + more;
    } else {
      assert [] + Drain(s + t).answers == Drain(s + t).answers;
    }
  }

  // ----- the protocol -----

  /** Where the foreground is in InData::Update. */
  datatype Pc = Outside | Tried | Copied | Cleared | Parsing

  /** The buffers, the mutex and the foreground; then what has happened so far. */
  datatype System = System(main: seq<byte>, addit: seq<byte>, buffer: seq<byte>, busy: bool, pc: Pc,
                           received: seq<byte>, consumed: seq<byte>, answers: seq<seq<byte>>)

  const START: System := System([], [], [], false, Outside, [], [], [])

  /** Buffer::Append, and the Clear with which every caller answers a failure. */
  function AppendOrClear(s: seq<byte>, t: seq<byte>): seq<byte> {
    if |s| + |t| <= CAPACITY then s + t else []
  }

  datatype Event = Receive(b: byte) | Foreground

  /** CallbackOnReceive */
  function OnReceive(s: System, b: byte): System {
    var s := s.(received := s.received + [b]);
    if s.busy then s.(addit := AppendOrClear(s.addit, [b]))
    else
      var m := if s.addit != [] then AppendOrClear(s.main, s.addit) else s.main;
      s.(main := AppendOrClear(m, [b]), addit := [])
  }

  /** The next step of InData::Update. */
  function Advance(s: System): System {
    match s.pc
    case Outside => s.(busy := true, pc := Tried)
    case Tried =>
      if s.main == [] then s.(pc := Cleared)
      else s.(buffer := AppendOrClear(s.buffer, s.main), pc := Copied)
    case Copied => s.(main := [], pc := Cleared)
    case Cleared => s.(busy := false, pc := Parsing)
    case Parsing =>
      var r := Scan([], s.buffer);
      if r.None? then s.(pc := Outside)
      else
        var n := r.value.1;
        s.(buffer := s.buffer[n..], consumed := s.consumed + s.buffer[..n], answers := s.answers + [r.value.0])
  }

  function Step(s: System, e: Event): System {
    match e
    case Receive(b) => OnReceive(s, b)
    case Foreground => Advance(s)
  }

  /** Some Append fails in this step. */
  predicate Overflows(s: System, e: Event) {
    match e
    case Receive(b) =>
      if s.busy then |s.addit| + 1 > CAPACITY
      else |s.main| + |s.addit| + 1 > CAPACITY
    case Foreground => s.pc == Tried && s.main != [] && |s.buffer| + |s.main| > CAPACITY
  }

  function Run(s: System, events: seq<Event>): System {
    if events == [] then s else Step(Run(s, events[..|events| - 1]), events[|events| - 1])
  }

  predicate Overflowed(s: System, events: seq<Event>) {
    events != []
        && (Overflowed(s, events[..|events| - 1]) || Overflows(Run(s, events[..|events| - 1]), events[|events| - 1]))
  }

  /** Everything on its way or already taken, in order; once copied, main is in the parse buffer. */
  function Pipeline(s: System): seq<byte> {
    s.consumed + s.buffer + (if s.pc == Copied then [] else s.main) + s.addit
  }

  predicate Inv(s: System) {
    s.busy <==> s.pc in {Tried, Copied, Cleared}
  }

  /** A step without overflow keeps the pipeline, plus the byte it receives. */
  lemma StepConserves(s: System, e: Event)
    requires Inv(s) && !Overflows(s, e)
    ensures Pipeline(Step(s, e)) == Pipeline(s) + if e.Receive? then [e.b] else []
  {
    if e.Foreground? && s.pc == Parsing {
      var r := Scan([], s.buffer);
      if r.Some? { assert s.buffer == s.buffer[..r.value.1] + s.buffer[r.value.1..]; }
    }
  }

  /** a is b with some bytes left out. */
  predicate Sub(a: seq<byte>, b: seq<byte>) {
    if a == [] then true
    else if b == [] then false
    else (a[|a| - 1] == b[|b| - 1] && Sub(a[..|a| - 1], b[..|b| - 1])) || Sub(a, b[..|b| - 1])
  }

  lemma {:induction false} SubLength(a: seq<byte>, b: seq<byte>)
    requires Sub(a, b)
    ensures |a| <= |b| && (|a| == |b| ==> a == b)
    decreases |b|
  {
    if a != [] {
      if a[|a| - 1] == b[|b| - 1] && Sub(a[..|a| - 1], b[..|b| - 1]) {
        SubLength(a[..|a| - 1], b[..|b| - 1]);
        assert a == a[..|a| - 1] + [a[|a| - 1]] && b == b[..|b| - 1] + [b[|b| - 1]];
      } else {
        SubLength(a, b[..|b| - 1]);
      }
    }
  }

  lemma {:induction false} SubTransitive(a: seq<byte>, b: seq<byte>, c: seq<byte>)
    requires Sub(a, b) && Sub(b, c)
    ensures Sub(a, c)
    decreases |b| + |c|
  {
    if a != [] {
      var b', c' := b[..|b| - 1], c[..|c| - 1];
      if Sub(b, c') {
        SubTransitive(a, b, c');
      } else if Sub(a, b') {
        SubSkip(b', c', c[|c| - 1]);
        assert c == c' + [c[|c| - 1]];
        SubTransitive(a, b', c);
      } else {
        SubTransitive(a[..|a| - 1], b', c');
      }
    }
  }

  lemma SubSkip(a: seq<byte>, b: seq<byte>, x: byte)
    requires Sub(a, b)
    ensures Sub(a, b + [x])
  {
    assert (b + [x])[..|b|] == b;
  }

  lemma SubBoth(a: seq<byte>, b: seq<byte>, x: byte)
    requires Sub(a, b)
    ensures Sub(a + [x], b + [x])
  {
    assert (a + [x])[..|a|] == a && (b + [x])[..|b|] == b;
  }

  lemma {:induction false} SubSelf(p: seq<byte>)
    ensures Sub(p, p)
  {
    if p != [] { SubSelf(p[..|p| - 1]); }
  }

  /** Leaving out a stretch in the middle. */
  lemma {:induction false} SubDrop(p: seq<byte>, m: seq<byte>, q: seq<byte>)
    ensures Sub(p + q, p + m + q)
    decreases |m| + |q|
  {
    hide Sub;
    if q != [] {
      var q', x := q[..|q| - 1], q[|q| - 1];
      SubDrop(p, m, q');
      SubBoth(p + q', p + m + q', x);
      assert p + q == p + q' + [x] && p + m + q == p + m + q' + [x];
    } else if m != [] {
      var m', x := m[..|m| - 1], m[|m| - 1];
      SubDrop(p, m', q);
      SubSkip(p + q, p + m' + q, x);
      assert p + m + q == p + m' + q + [x];
    } else {
      SubSelf(p);
      assert p + q == p && p + m + q == p;
    }
  }

  /** The parse buffer overflows: it is cleared, and so is main. */
  lemma CopyLosesBytes(s: System)
    requires Overflows(s, Foreground)
    ensures Sub(Pipeline(Advance(s)), Pipeline(s)) && |Pipeline(Advance(s))| < |Pipeline(s)|
    ensures Pipeline(Advance(s)) == s.consumed + s.addit
  {
    hide Sub, Scan;
    SubDrop(s.consumed, s.buffer + s.main, s.addit);
    assert Pipeline(s) == s.consumed + (s.buffer + s.main) + s.addit;
    assert Pipeline(Advance(s)) == s.consumed + s.addit;
  }

  /** addit overflows while the mutex is held. */
  lemma BusyLosesBytes(s: System, b: byte)
    requires s.busy && Overflows(s, Receive(b))
    ensures var all := Pipeline(s) + [b];
            Sub(Pipeline(OnReceive(s, b)), all) && |Pipeline(OnReceive(s, b))| < |all|
    ensures Pipeline(OnReceive(s, b)) == s.consumed + s.buffer + if s.pc == Copied then [] else s.main
  {
    hide Sub;
    var p := s.consumed + s.buffer + if s.pc == Copied then [] else s.main;
    SubDrop(p, s.addit + [b], []);
    assert Pipeline(s) + [b] == p + (s.addit + [b]) + [];
    assert Pipeline(OnReceive(s, b)) == p + [];
  }

  /** b is kept when it was addit that did not fit. */
  function AfterClear(s: System, b: byte): seq<byte> {
    if s.addit != [] && |s.main| + |s.addit| > CAPACITY then [b] else []
  }

  /** main overflows: addit goes with it, and the byte too unless addit was the cause. */
  lemma FreeLosesBytes(s: System, b: byte)
    requires Inv(s) && !s.busy && Overflows(s, Receive(b))
    ensures var all := Pipeline(s) + [b];
            Sub(Pipeline(OnReceive(s, b)), all) && |Pipeline(OnReceive(s, b))| < |all|
    ensures Pipeline(OnReceive(s, b)) == s.consumed + s.buffer + AfterClear(s, b)
  {
    hide Sub;
    var p, kept := s.consumed + s.buffer, OnReceive(s, b).main;
    var held := s.main + s.addit;
    assert Pipeline(s) + [b] == p + held + [b] == p + (held + [b]) + [];
    assert kept == [] || kept == [b];
    assert Pipeline(OnReceive(s, b)) == p + kept;
    if kept == [b] {
      SubDrop(p, held, [b]);
    } else {
      SubDrop(p, held + [b], []);
    }
  }

  /**
   A step with overflow leaves out a stretch: nothing is duplicated or reordered. What is lost is
   the parse buffer and main when the foreground copies; addit and the byte while the mutex is
   held; otherwise main and addit, and the byte unless addit alone did not fit behind main.
   */
  lemma OverflowLosesBytes(s: System, e: Event)
    requires Inv(s) && Overflows(s, e)
    ensures var all := Pipeline(s) + if e.Receive? then [e.b] else [];
            Sub(Pipeline(Step(s, e)), all) && |Pipeline(Step(s, e))| < |all|
    ensures Pipeline(Step(s, e))
         == if e.Foreground? then s.consumed + s.addit
            else if s.busy then s.consumed + s.buffer + (if s.pc == Copied then [] else s.main)
            else s.consumed + s.buffer + AfterClear(s, e.b)
  {
    hide Sub, Pipeline, OnReceive, Advance, Overflows, AfterClear;
    if e.Foreground? {
      CopyLosesBytes(s);
      assert Pipeline(s) + [] == Pipeline(s);
    } else if s.busy {
      BusyLosesBytes(s, e.b);
    } else {
      FreeLosesBytes(s, e.b);
    }
  }

  lemma StepKeepsInv(s: System, e: Event)
    requires Inv(s)
    ensures Inv(Step(s, e))
    ensures Step(s, e).received == s.received + if e.Receive? then [e.b] else []
  {
  }

  /**
   On every interleaving: what is in the buffers or already taken is the received stream with
   some bytes left out, and it is the whole stream exactly when no Append has failed.
   */
  lemma {:induction false} NothingLostIffNoOverflow(events: seq<Event>)
    ensures var s := Run(START, events);
            && Inv(s) && Sub(Pipeline(s), s.received)
            && (Pipeline(s) == s.received <==> !Overflowed(START, events))
  {
    if events != [] {
      var past, e := events[..|events| - 1], events[|events| - 1];
      NothingLostIffNoOverflow(past);
      StepFollows(Run(START, past), e);
    } else {
      assert Pipeline(START) == [];
    }
  }

  lemma StepFollows(s: System, e: Event)
    requires Inv(s) && Sub(Pipeline(s), s.received)
    ensures var s' := Step(s, e);
            && Inv(s') && Sub(Pipeline(s'), s'.received)
            && (Pipeline(s') == s'.received <==> Pipeline(s) == s.received && !Overflows(s, e))
  {
    hide Sub, Pipeline, Step, Overflows;
    StepKeepsInv(s, e);
    var got := if e.Receive? then [e.b] else [];
    var all := Pipeline(s) + got;
    if e.Receive? {
      SubBoth(Pipeline(s), s.received, e.b);
    } else {
      assert all == Pipeline(s) && s.received + got == s.received;
    }
    SubLength(Pipeline(s), s.received);
    if Overflows(s, e) {
      OverflowLosesBytes(s, e);
      SubTransitive(Pipeline(Step(s, e)), all, s.received + got);
    } else {
      StepConserves(s, e);
      assert |Pipeline(s)| == |s.received| <==> |all| == |s.received + got|;
      SubLength(all, s.received + got);
    }
  }

  /** No overflow as long as at most CAPACITY bytes have been received and not yet taken. */
  lemma OverflowNeedsBacklog(s: System, e: Event)
    requires Inv(s) && Pipeline(s) == s.received && Overflows(s, e)
    ensures |Step(s, e).received| - |s.consumed| > CAPACITY
  {
  }

  /** The foreground alone never empties addit: what it holds waits for the next interrupt. */
  lemma {:induction false} AdditWaitsForInterrupt(s: System, events: seq<Event>)
    requires forall i :: 0 <= i < |events| ==> events[i].Foreground?
    ensures Run(s, events).addit == s.addit
  {
    if events != [] {
      AdditWaitsForInterrupt(s, events[..|events| - 1]);
      assert events[|events| - 1].Foreground?;
    }
  }

  // ----- the answers, end to end -----

  /** The answers given so far and those still in the parse buffer are those of the bytes moved to it. */
  predicate AnswersFollow(s: System) {
    Drain(s.consumed + s.buffer) == Drained(s.answers + Drain(s.buffer).answers, Drain(s.buffer).rest)
  }

  /** More bytes reach the parse buffer. */
  lemma CopyKeepsAnswers(s: System)
    requires AnswersFollow(s)
    ensures AnswersFollow(s.(buffer := s.buffer + s.main))
  {
    hide Drain;
    var moved, d := s.consumed + s.buffer, Drain(s.buffer);
    DrainAppend(moved, s.main);
    DrainAppend(s.buffer, s.main);
    assert s.consumed + (s.buffer + s.main) == moved + s.main;
    var more := Drain(d.rest + s.main).answers;
    assert s.answers + d.answers + more == s.answers + (d.answers + more);
  }

  /** An answer is taken out of it. */
  lemma AnswerKeepsAnswers(s: System)
    requires AnswersFollow(s) && s.pc == Parsing
    ensures AnswersFollow(Advance(s))
  {
    DrainOne(s.buffer);
    var r := Scan([], s.buffer);
    if r.Some? {
      hide Drain, Scan;
      var (a, n) := r.value;
      assert s.consumed + s.buffer[..n] + s.buffer[n..] == s.consumed + s.buffer;
      var later := Drain(s.buffer[n..]).answers;
      assert s.answers + ([a] + later) == s.answers + [a] + later;
    }
  }

  lemma StepKeepsAnswers(s: System, e: Event)
    requires AnswersFollow(s) && !Overflows(s, e)
    ensures AnswersFollow(Step(s, e))
  {
    hide Drain, Scan;
    if e.Foreground? && s.pc == Tried && s.main != [] {
      CopyKeepsAnswers(s);
    } else if e.Foreground? && s.pc == Parsing {
      AnswerKeepsAnswers(s);
    }
  }

  lemma {:induction false} RunKeepsAnswers(events: seq<Event>)
    requires !Overflowed(START, events)
    ensures AnswersFollow(Run(START, events))
  {
    if events != [] {
      var past := events[..|events| - 1];
      RunKeepsAnswers(past);
      StepKeepsAnswers(Run(START, past), events[|events| - 1]);
    } else {
      assert START.consumed + START.buffer == [];
    }
  }

  /**
   On every interleaving without overflow, SIM868 is given a prefix of the answers in the
   received stream, and all of them when the parser is done and nothing waits in main or addit.
   */
  lemma AnswersArePrefix(events: seq<Event>)
    requires !Overflowed(START, events)
    ensures var s := Run(START, events);
            && s.answers <= Drain(s.received).answers
            && (s.pc == Outside && s.main == [] && s.addit == [] && Scan([], s.buffer).None? ==>
                s.answers == Drain(s.received).answers)
  {
    hide Drain, Run, Overflowed, Sub, Scan;
    var s := Run(START, events);
    NothingLostIffNoOverflow(events);
    RunKeepsAnswers(events);
    MovedAnswers(s, (if s.pc == Copied then [] else s.main) + s.addit);
  }

  lemma MovedAnswers(s: System, coming: seq<byte>)
    requires AnswersFollow(s) && s.received == s.consumed + s.buffer + coming
    ensures s.answers <= Drain(s.received).answers
    ensures coming == [] && Scan([], s.buffer).None? ==> s.answers == Drain(s.received).answers
  {
    hide Drain, Scan;
    var moved, d := s.consumed + s.buffer, Drain(s.buffer);
    DrainAppend(moved, coming);
    DrainOne(s.buffer);
    var later := Drain(d.rest + coming).answers;
    assert s.answers + d.answers + later == s.answers + (d.answers + later);
    assert coming == [] ==> moved + coming == moved;
  }
}
