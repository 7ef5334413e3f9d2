/**
 The power-up sequence of the device's GSM modem (Modem::Update) over the free-running 32-bit
 millisecond counter. Time is unbounded here and the counter is its value modulo 2^32; it may
 advance between any two readings inside one call. What is driven on the pins, and when, is
 kept as a list of acts.
 */
module ModemPower {
  import opened Bytes

  /** timer_counter at a moment. */
  function Counter(time: nat): uint32 {
    time % TWO_32
  }

  /** TimeMeterMS::ElapsedTime: unsigned subtraction of 32-bit words. */
  function Elapsed(counter: uint32, timeReset: uint32): uint32 {
    (counter - timeReset) % TWO_32
  }

  /** Wrap-around of the counter is harmless: the meter shows the true time modulo 2^32. */
  lemma ElapsedModulo(reset: nat, now: nat)
    requires reset <= now
    ensures Elapsed(Counter(now), Counter(reset)) == (now - reset) % TWO_32
    ensures Elapsed(Counter(now), Counter(reset)) <= now - reset
    ensures Elapsed(Counter(now), Counter(reset)) == now - reset <==> now - reset < TWO_32
  {
    var d := now - reset;
    var q := now / TWO_32 - reset / TWO_32 - d / TWO_32;
    assert Counter(now) - Counter(reset) == d % TWO_32 - q * TWO_32;
    assert 0 - TWO_32 < Counter(now) - Counter(reset) < TWO_32;
    assert q == 0 || q == 1;
  }

  datatype State = Idle | WaitDischargeCaps | WaitHiGsmPg | Wait500 | Wait1250 | Wait5000 | HardwareIsOk

  /** GSM_PWR is active low: high cuts the modem's power. */
  datatype Drive = PwrHigh | PwrLow | KeyHigh | KeyLow | PgOutLow | PgPullDown

  datatype Act = Act(drive: Drive, time: nat)

  /**
   The machine with its history: resetAt is the moment of the last TimeMeterMS::Reset and
   timeReset the counter value stored then; cycle is what has been driven since the last call
   in IDLE began, earlier what was driven before.
   */
  datatype Modem = Modem(state: State, timeReset: uint32, resetAt: nat, earlier: seq<Act>, cycle: seq<Act>) {
    function Drive1(d: Drive, time: nat): Modem {
      this.(cycle := cycle + [Act(d, time)])
    }

    function Enter(s: State, time: nat): Modem {
      this.(state := s, timeReset := Counter(time), resetAt := time)
    }

    predicate Over(limit: nat, time: nat) {
      Elapsed(Counter(time), timeReset) > limit
    }
  }

  /** One call of Modem::Update: three moments inside it, and the inputs GSM_PG and GSM_STATUS. */
  datatype Event =
    | Update(t1: nat, t2: nat, t3: nat, pg: bool, status: bool)
    | Reset(t: nat)

  /** The readings inside a call are in order and not before now. */
  predicate InOrder(e: Event, now: nat) {
    if e.Update? then now <= e.t1 <= e.t2 <= e.t3 else now <= e.t
  }

  function End(e: Event): nat {
    if e.Update? then e.t3 else e.t
  }

  /** Modem::Init drives PWRKEY low, although the description above the code asks for 1. */
  function Init(time: nat): Modem {
    Modem(Idle, 0, 0, [Act(PwrHigh, time), Act(KeyLow, time)], [])
  }

  function Step(m: Modem, e: Event): Modem {
    match e
    case Reset(_) => m.(state := Idle)
    case Update(t1, t2, t3, pg, status) =>
      match m.state
      case Idle =>
        var anew := m.(earlier := m.earlier + m.cycle, cycle := []);
        anew.Drive1(PwrHigh, t1).Drive1(PgOutLow, t2).Enter(WaitDischargeCaps, t3)
      case WaitDischargeCaps =>
        if m.Over(3000, t1) then m.Drive1(PgPullDown, t2).Drive1(PwrLow, t2).Enter(WaitHiGsmPg, t3) else m
      case WaitHiGsmPg =>
        var w := if pg then m.Enter(Wait500, t1) else m;
        if w.Over(100, t2) then w.(state := Idle) else w
      case Wait500 =>
        if m.Over(500, t1) then m.Drive1(KeyLow, t2).Enter(Wait1250, t3) else m
      case Wait1250 =>
        if m.Over(1250, t1) then m.Drive1(KeyHigh, t2).Enter(Wait5000, t3) else m
      case Wait5000 =>
        var w := if status then m.Enter(HardwareIsOk, t1) else m;
        if w.Over(5000, t2) then w.(state := Idle) else w
      case HardwareIsOk => m
  }

  // ----- what every run keeps -----

  /** The first n acts of a cycle are the right ones, in order and with the waits between them. */
  predicate Sequence(c: seq<Act>, n: nat) {
    && |c| == n <= 6
    && (n > 0 ==> c[0].drive == PwrHigh)
    && (n > 1 ==> c[1].drive == PgOutLow)
    && (n > 2 ==> c[2].drive == PgPullDown)
    && (n > 3 ==> c[3].drive == PwrLow && c[3].time - c[0].time > 3000)
    && (n > 4 ==> c[4].drive == KeyLow && c[4].time - c[3].time > 500)
    && (n > 5 ==> c[5].drive == KeyHigh && c[5].time - c[4].time > 1250)
  }

  function Length(s: State): nat
    requires s != Idle
  {
    match s
    case WaitDischargeCaps => 2
    case WaitHiGsmPg => 4
    case Wait500 => 4
    case Wait1250 => 5
    case Wait5000 => 6
    case HardwareIsOk => 6
  }

  predicate Inv(m: Modem) {
    && m.timeReset == Counter(m.resetAt)
    && (m.state != Idle ==> Sequence(m.cycle, Length(m.state)))
    && (m.state != Idle ==> m.cycle[0].time <= m.resetAt && m.cycle[|m.cycle| - 1].time <= m.resetAt)
  }

  lemma StepKeeps(m: Modem, e: Event, now: nat)
    requires Inv(m) && m.resetAt <= now && InOrder(e, now)
    ensures Inv(Step(m, e)) && Step(m, e).resetAt <= End(e)
  {
    if e.Update? {
      hide Elapsed, Counter;
      ElapsedModulo(m.resetAt, e.t1);
    }
  }

  /** A run: the events are in the order of time. */
  ghost predicate Timely(events: seq<Event>, now: nat)
    decreases |events|
  {
    events == [] || (InOrder(events[0], now) && Timely(events[1..], End(events[0])))
  }

  function Run(m: Modem, events: seq<Event>): Modem
    decreases |events|
  {
    if events == [] then m else Run(Step(m, events[0]), events[1..])
  }

  lemma {:induction false} RunKeeps(m: Modem, events: seq<Event>, now: nat)
    requires Inv(m) && m.resetAt <= now && Timely(events, now)
    ensures Inv(Run(m, events))
    decreases |events|
  {
    if events != [] {
      StepKeeps(m, events[0], now);
      RunKeeps(Step(m, events[0]), events[1..], End(events[0]));
    }
  }

  /** What a run leaves is fit for the next event. */
  lemma {:induction false} RunThen(m: Modem, events: seq<Event>, e: Event, now: nat)
    requires Inv(m) && m.resetAt <= now && Timely(events + [e], now)
    ensures var r := Run(m, events); Inv(r) && InOrder(e, r.resetAt)
    decreases |events|
  {
    if events != [] {
      assert (events + [e])[1..] == events[1..] + [e];
      StepKeeps(m, events[0], now);
      RunThen(Step(m, events[0]), events[1..], e, End(events[0]));
    }
  }

  // ----- how long each state waits -----

  /** Milliseconds since the meter was reset. */
  function Since(m: Modem, time: nat): int {
    time - m.resetAt
  }

  /**
   After any run, while less than 2^32 ms have passed since the meter was reset: what the next
   Update does is decided by the true time at its readings and by the two inputs.
   */
  lemma NextState(t0: nat, events: seq<Event>, e: Event)
    requires e.Update? && Timely(events + [e], t0)
    requires e.t3 < Run(Init(t0), events).resetAt + TWO_32
    ensures var m, n := Run(Init(t0), events), Run(Init(t0), events + [e]);
            && (m.state == Idle ==> n.state == WaitDischargeCaps)
            && (m.state == WaitDischargeCaps ==> n.state == if Since(m, e.t1) > 3000 then WaitHiGsmPg else m.state)
            && (m.state == WaitHiGsmPg && !e.pg ==> n.state == if Since(m, e.t2) > 100 then Idle else m.state)
            && (m.state == WaitHiGsmPg && e.pg ==> n.state == if e.t2 - e.t1 > 100 then Idle else Wait500)
            && (m.state == Wait500 ==> n.state == if Since(m, e.t1) > 500 then Wait1250 else m.state)
            && (m.state == Wait1250 ==> n.state == if Since(m, e.t1) > 1250 then Wait5000 else m.state)
            && (m.state == Wait5000 && !e.status ==> n.state == if Since(m, e.t2) > 5000 then Idle else m.state)
            && (m.state == Wait5000 && e.status ==> n.state == if e.t2 - e.t1 > 5000 then Idle else HardwareIsOk)
            && (m.state == HardwareIsOk ==> n == m)
  {
    RunThen(Init(t0), events, e, t0);
    RunSnoc(Init(t0), events, e);
    hide Run, Timely;
    Readings(Run(Init(t0), events), e);
  }

  /**
   Whatever the clock: the meter is reset on entry to every state but IDLE, at the last reading or,
   where an input decides, at the first; giving up and Modem::Reset drive no pin; and the acts of a
   call are those of the wait that ended, or of a new start.
   */
  lemma MeterAndActs(t0: nat, events: seq<Event>, e: Event)
    requires Timely(events + [e], t0)
    ensures var m, n := Run(Init(t0), events), Run(Init(t0), events + [e]);
            && (e.Reset? ==> n.state == Idle)
            && (n.state == m.state && m.state != Idle ==> n == m)
            && (n.state != m.state && n.state != Idle ==>
                  n.resetAt == if m.state in {WaitHiGsmPg, Wait5000} then e.t1 else e.t3)
            && n.earlier + n.cycle == m.earlier + m.cycle + Driven(m.state, n.state, e)
  {
    RunThen(Init(t0), events, e, t0);
    RunSnoc(Init(t0), events, e);
    hide Run, Timely, Elapsed, Counter;
  }

  /** The acts of the way from one state to another. */
  function Driven(from: State, to: State, e: Event): seq<Act> {
    if e.Reset? || from == to then []
    else if to == WaitDischargeCaps then [Act(PwrHigh, e.t1), Act(PgOutLow, e.t2)]
    else if to == WaitHiGsmPg then [Act(PgPullDown, e.t2), Act(PwrLow, e.t2)]
    else if to == Wait1250 then [Act(KeyLow, e.t2)]
    else if to == Wait5000 then [Act(KeyHigh, e.t2)]
    else []
  }

  lemma {:induction false} RunSnoc(m: Modem, events: seq<Event>, e: Event)
    ensures Run(m, events + [e]) == Step(Run(m, events), e)
    decreases |events|
  {
    if events == [] {
      assert [e][1..] == [];
      assert [] + [e] == [e];
    } else {
      assert (events + [e])[1..] == events[1..] + [e];
      RunSnoc(Step(m, events[0]), events[1..], e);
    }
  }

  /** Within 2^32 ms the three comparisons an Update may make are those of true time. */
  lemma Readings(m: Modem, e: Event)
    requires Inv(m) && e.Update? && InOrder(e, m.resetAt) && e.t3 < m.resetAt + TWO_32
    ensures Elapsed(Counter(e.t1), m.timeReset) == Since(m, e.t1)
    ensures Elapsed(Counter(e.t2), m.timeReset) == Since(m, e.t2)
    ensures Elapsed(Counter(e.t2), Counter(e.t1)) == e.t2 - e.t1
  {
    ElapsedModulo(m.resetAt, e.t1);
    ElapsedModulo(m.resetAt, e.t2);
    ElapsedModulo(e.t1, e.t2);
  }

  /**
   A state is left for good by the first Update that finds its time over, and not before; while
   it lasts nothing is driven and the meter runs on. In WAIT_HI_GSM_PG and WAIT_5000_MS this
   is about inputs that stay low.
   */
  lemma WaitsUntil(m: Modem, events: seq<Event>, now: nat)
    requires Inv(m) && m.resetAt <= now && Timely(events, now)
    requires forall i :: 0 <= i < |events| ==> events[i].Update? && events[i].t3 < m.resetAt + TWO_32
    ensures m.state == WaitDischargeCaps ==>
              (Run(m, events) == m <==> forall i :: 0 <= i < |events| ==> Since(m, events[i].t1) <= 3000)
    ensures m.state == Wait500 ==>
              (Run(m, events) == m <==> forall i :: 0 <= i < |events| ==> Since(m, events[i].t1) <= 500)
    ensures m.state == Wait1250 ==>
              (Run(m, events) == m <==> forall i :: 0 <= i < |events| ==> Since(m, events[i].t1) <= 1250)
    ensures m.state == WaitHiGsmPg && (forall i :: 0 <= i < |events| ==> !events[i].pg) ==>
              (Run(m, events) == m <==> forall i :: 0 <= i < |events| ==> Since(m, events[i].t2) <= 100)
    ensures m.state == Wait5000 && (forall i :: 0 <= i < |events| ==> !events[i].status) ==>
              (Run(m, events) == m <==> forall i :: 0 <= i < |events| ==> Since(m, events[i].t2) <= 5000)
  {
    StaysIff(m, events);
    hide Run, Stays, Since, Inv;
    forall i | 0 <= i < |events|
      ensures InOrder(events[i], m.resetAt) && (InOrder(events[i], m.resetAt) ==> StaysInTime(m, events[i]))
    {
      TimelyAt(events, now, i);
      if InOrder(events[i], m.resetAt) { StaysWhile(m, events[i]); }
    }
    hide Timely;
  }

  predicate Stays(m: Modem, e: Event) {
    Step(m, e) == m
  }

  predicate StaysInTime(m: Modem, e: Event)
    requires e.Update?
  {
    && (m.state == WaitDischargeCaps ==> (Stays(m, e) <==> Since(m, e.t1) <= 3000))
    && (m.state == Wait500 ==> (Stays(m, e) <==> Since(m, e.t1) <= 500))
    && (m.state == Wait1250 ==> (Stays(m, e) <==> Since(m, e.t1) <= 1250))
    && (m.state == WaitHiGsmPg && !e.pg ==> (Stays(m, e) <==> Since(m, e.t2) <= 100))
    && (m.state == Wait5000 && !e.status ==> (Stays(m, e) <==> Since(m, e.t2) <= 5000))
  }

  lemma StaysWhile(m: Modem, e: Event)
    requires Inv(m) && e.Update? && InOrder(e, m.resetAt) && e.t3 < m.resetAt + TWO_32
    ensures StaysInTime(m, e)
  {
    Readings(m, e);
    hide Elapsed, Counter, Inv;
  }

  lemma {:induction false} TimelyAt(events: seq<Event>, now: nat, i: nat)
    requires Timely(events, now) && i < |events|
    ensures InOrder(events[i], now)
    decreases |events|
  {
    if i > 0 { TimelyAt(events[1..], End(events[0]), i - 1); }
  }

  /** Grows with every call that changes anything. */
  function Progress(m: Modem): nat {
    3 * (|m.earlier| + |m.cycle|)
    + if m.state == Idle then 2 else if m.state in {WaitHiGsmPg, Wait5000} then 0 else 1
  }

  lemma Progresses(m: Modem, e: Event)
    ensures Step(m, e) == m || Progress(Step(m, e)) > Progress(m)
  {
    hide Elapsed, Counter;
  }

  lemma {:induction false} RunProgresses(m: Modem, events: seq<Event>)
    ensures Progress(Run(m, events)) >= Progress(m)
    decreases |events|
  {
    if events != [] {
      hide Step, Progress;
      Progresses(m, events[0]);
      RunProgresses(Step(m, events[0]), events[1..]);
    }
  }

  /** No run comes back to where it was: it ends as it began exactly when no event changes anything. */
  lemma {:induction false} StaysIff(m: Modem, events: seq<Event>)
    ensures Run(m, events) == m <==> forall i :: 0 <= i < |events| ==> Stays(m, events[i])
    decreases |events|
  {
    if events != [] {
      hide Step, Progress;
      var e := events[0];
      assert Stays(m, e) <==> Step(m, e) == m;
      Progresses(m, e);
      if Stays(m, e) {
        StaysIff(m, events[1..]);
      } else {
        RunProgresses(Step(m, e), events[1..]);
      }
    }
  }

  // ----- the pins -----

  /** The level on GSM_PWR after the acts, given the level before. */
  function PwrAfter(high: bool, acts: seq<Act>): bool {
    if acts == [] then high
    else
      var d := acts[|acts| - 1].drive;
      if d == PwrHigh then true else if d == PwrLow then false else PwrAfter(high, acts[..|acts| - 1])
  }

  /** The level on PWRKEY after the acts, given the level before. */
  function KeyAfter(high: bool, acts: seq<Act>): bool {
    if acts == [] then high
    else
      var d := acts[|acts| - 1].drive;
      if d == KeyHigh then true else if d == KeyLow then false else KeyAfter(high, acts[..|acts| - 1])
  }

  /**
   Whatever the clock, the inputs and the resets: in HARDWARE_IS_OK what has been driven since
   the last call in IDLE is exactly this: power cut; on again more than 3000 ms later; PWRKEY
   low more than 500 ms after that; high again more than 1250 ms later. So GSM_PWR is low and
   PWRKEY high.
   */
  lemma HardwareOkMeansPoweredUp(t0: nat, events: seq<Event>)
    requires Timely(events, t0)
    ensures var m := Run(Init(t0), events);
            m.state == HardwareIsOk ==>
              && |m.cycle| == 6
              && m.cycle[0].drive == PwrHigh && m.cycle[3].drive == PwrLow
              && m.cycle[3].time - m.cycle[0].time > 3000
              && m.cycle[4].drive == KeyLow && m.cycle[4].time - m.cycle[3].time > 500
              && m.cycle[5].drive == KeyHigh && m.cycle[5].time - m.cycle[4].time > 1250
              && !PwrAfter(true, m.earlier + m.cycle) && KeyAfter(true, m.earlier + m.cycle)
  {
    RunKeeps(Init(t0), events, t0);
    var m := Run(Init(t0), events);
    if m.state == HardwareIsOk { Levels(m.earlier, m.cycle); }
  }

  function LevelAfter(high: bool, d: Drive, up: Drive, down: Drive): bool {
    if d == up then true else if d == down then false else high
  }

  lemma After(high: bool, s: seq<Act>, a: Act)
    ensures PwrAfter(high, s + [a]) == LevelAfter(PwrAfter(high, s), a.drive, PwrHigh, PwrLow)
    ensures KeyAfter(high, s + [a]) == LevelAfter(KeyAfter(high, s), a.drive, KeyHigh, KeyLow)
  {
    assert (s + [a])[..|s|] == s;
  }

  /** The pins in the course of a cycle. */
  lemma Levels(earlier: seq<Act>, c: seq<Act>)
    requires Sequence(c, 6)
    ensures !PwrAfter(true, earlier + c) && KeyAfter(true, earlier + c)
    ensures KeyAfter(true, earlier + c[..4]) == KeyAfter(true, earlier) && !KeyAfter(true, earlier + c[..5])
  {
    hide KeyAfter, PwrAfter;
    CycleAct(earlier, c, 0);
    CycleAct(earlier, c, 1);
    CycleAct(earlier, c, 2);
    CycleAct(earlier, c, 3);
    CycleAct(earlier, c, 4);
    CycleAct(earlier, c, 5);
    assert earlier + c[..0] == earlier && c[..6] == c;
  }

  lemma CycleAct(earlier: seq<Act>, c: seq<Act>, i: nat)
    requires i < |c|
    ensures PwrAfter(true, earlier + c[..i + 1])
      == LevelAfter(PwrAfter(true, earlier + c[..i]), c[i].drive, PwrHigh, PwrLow)
    ensures KeyAfter(true, earlier + c[..i + 1])
      == LevelAfter(KeyAfter(true, earlier + c[..i]), c[i].drive, KeyHigh, KeyLow)
  {
    assert earlier + c[..i + 1] == earlier + c[..i] + [c[i]];
    After(true, earlier + c[..i], c[i]);
  }

  /**
   The act that drives PWRKEY low is a falling edge exactly when the pin was high as the
   sequence began: nothing in the sequence raises it first. On the first power-up it was not,
   for Init left it low.
   */
  lemma FallingEdgeIff(t0: nat, events: seq<Event>)
    requires Timely(events, t0) && Run(Init(t0), events).state == HardwareIsOk
    ensures var m := Run(Init(t0), events);
            && |m.cycle| == 6
            && ((KeyAfter(true, m.earlier + m.cycle[..4]) && !KeyAfter(true, m.earlier + m.cycle[..5]))
                <==> KeyAfter(true, m.earlier))
            && (m.earlier == Init(t0).earlier ==> !KeyAfter(true, m.earlier))
  {
    RunKeeps(Init(t0), events, t0);
    var m := Run(Init(t0), events);
    Levels(m.earlier, m.cycle);
  }

  /** Six calls of Update suffice: HARDWARE_IS_OK is reached, on the first power-up and without the edge. */
  lemma FirstPowerUp()
    ensures var es := [Update(0, 0, 0, false, false), Update(3001, 3001, 3001, false, false),
                       Update(3002, 3002, 3002, true, false), Update(3503, 3503, 3503, true, false),
                       Update(4754, 4754, 4754, true, false), Update(4755, 4755, 4755, true, true)];
            && Timely(es, 0) && Run(Init(0), es).state == HardwareIsOk
            && Run(Init(0), es).earlier == Init(0).earlier && !KeyAfter(true, Run(Init(0), es).earlier)
  {
    var a, b := Update(0, 0, 0, false, false), Update(3001, 3001, 3001, false, false);
    var c, d := Update(3002, 3002, 3002, true, false), Update(3503, 3503, 3503, true, false);
    var e, f := Update(4754, 4754, 4754, true, false), Update(4755, 4755, 4755, true, true);
    RunSix(Init(0), a, b, c, d, e, f);
    hide Run;
    var m := Step(Step(Step(Init(0), a), b), c);
    assert m.state == Wait500 && m.timeReset == 3002;
    var n := Step(Step(Step(m, d), e), f);
    assert n.state == HardwareIsOk && n.earlier == Init(0).earlier + [];
  }

  lemma RunSix(m: Modem, a: Event, b: Event, c: Event, d: Event, e: Event, f: Event)
    ensures Run(m, [a, b, c, d, e, f]) == Step(Step(Step(Step(Step(Step(m, a), b), c), d), e), f)
    ensures Timely([a, b, c, d, e, f], 0) <==>
      && InOrder(a, 0) && InOrder(b, End(a)) && InOrder(c, End(b))
      && InOrder(d, End(c)) && InOrder(e, End(d)) && InOrder(f, End(e))
  {
    hide Step, InOrder, End;
    assert [a, b, c, d, e, f][1..] == [b, c, d, e, f] && [b, c, d, e, f][1..] == [c, d, e, f];
    assert [c, d, e, f][1..] == [d, e, f] && [d, e, f][1..] == [e, f] && [e, f][1..] == [f] && [f][1..] == [];
    var n := Step(Step(Step(m, a), b), c);
    assert Run(m, [a, b, c, d, e, f]) == Run(Step(m, a), [b, c, d, e, f]);
    assert Run(Step(m, a), [b, c, d, e, f]) == Run(Step(Step(m, a), b), [c, d, e, f]) == Run(n, [d, e, f]);
    assert Run(n, [d, e, f]) == Run(Step(n, d), [e, f]) == Run(Step(Step(n, d), e), [f]);
    assert Run(Step(Step(n, d), e), [f]) == Run(Step(Step(Step(n, d), e), f), []);
    assert Timely([d, e, f], End(c)) <==> InOrder(d, End(c)) && Timely([e, f], End(d));
    assert Timely([e, f], End(d)) <==> InOrder(e, End(d)) && Timely([f], End(e));
    assert Timely([f], End(e)) <==> InOrder(f, End(e)) && Timely([], End(f));
    assert Timely([b, c, d, e, f], End(a)) <==> InOrder(b, End(a)) && Timely([c, d, e, f], End(b));
    assert Timely([c, d, e, f], End(b)) <==> InOrder(c, End(b)) && Timely([d, e, f], End(c));
  }

  // ----- the driver -----

  /** The static variables of Modem::Update and the levels it drives; the ghost fields are their history. */
  class Driver {
    var state: State
    var timeReset: uint32
    var pwrHigh: bool
    var keyHigh: bool
    ghost var resetAt: nat
    ghost var earlier: seq<Act>
    ghost var cycle: seq<Act>

    ghost function Abs(): Modem
      reads this
    {
      Modem(state, timeReset, resetAt, earlier, cycle)
    }

    /** The history ends with the levels now on the pins. */
    ghost predicate Valid()
      reads this
    {
      pwrHigh == PwrAfter(true, earlier + cycle) && keyHigh == KeyAfter(true, earlier + cycle)
    }

    /** Modem::Init */
    constructor (time: nat)
      ensures Valid() && Abs() == Init(time) && pwrHigh && !keyHigh
    {
      state, timeReset, pwrHigh, keyHigh := Idle, 0, true, false;
      resetAt, cycle := 0, [];
      earlier := [Act(PwrHigh, time), Act(KeyLow, time)];
      new;
      assert earlier + cycle == [] + [Act(PwrHigh, time)] + [Act(KeyLow, time)];
      After(true, [], Act(PwrHigh, time));
      After(true, [] + [Act(PwrHigh, time)], Act(KeyLow, time));
    }

    method Drive(d: Drive, time: nat)
      requires Valid()
      modifies this`pwrHigh, this`keyHigh, this`cycle
      ensures Valid() && cycle == old(cycle) + [Act(d, time)]
    {
      hide PwrAfter, KeyAfter;
      After(true, earlier + cycle, Act(d, time));
      assert earlier + (cycle + [Act(d, time)]) == earlier + cycle + [Act(d, time)];
      cycle := cycle + [Act(d, time)];
      pwrHigh := if d == PwrHigh then true else if d == PwrLow then false else pwrHigh;
      keyHigh := if d == KeyHigh then true else if d == KeyLow then false else keyHigh;
    }

    /** TimeMeterMS::Reset */
    method MeterReset(time: nat)
      modifies this`timeReset, this`resetAt
      ensures timeReset == Counter(time) && resetAt == time
    {
      timeReset, resetAt := Counter(time), time;
    }

    /** Modem::Reset */
    method ResetState(t: nat)
      requires Valid()
      modifies this`state
      ensures Valid() && Abs() == Step(old(Abs()), Reset(t))
    {
      state := Idle;
    }

    /** Modem::Update */
    method UpdateOnce(t1: nat, t2: nat, t3: nat, pg: bool, status: bool)
      requires Valid()
      modifies this
      ensures Valid() && Abs() == Step(old(Abs()), Update(t1, t2, t3, pg, status))
    {
      hide PwrAfter, KeyAfter, Counter, Elapsed;
      match state
      case Idle =>
        assert earlier + cycle == earlier + cycle + [];
        earlier, cycle := earlier + cycle, [];
        Drive(PwrHigh, t1);
        Drive(PgOutLow, t2);
        state := WaitDischargeCaps;
        MeterReset(t3);
      case WaitDischargeCaps =>
        if Elapsed(Counter(t1), timeReset) > 3000 {
          Drive(PgPullDown, t2);
          Drive(PwrLow, t2);
          state := WaitHiGsmPg;
          MeterReset(t3);
        }
      case WaitHiGsmPg =>
        if pg {
          MeterReset(t1);
          state := Wait500;
        }
        if Elapsed(Counter(t2), timeReset) > 100 {
          state := Idle;
        }
      case Wait500 =>
        if Elapsed(Counter(t1), timeReset) > 500 {
          Drive(KeyLow, t2);
          MeterReset(t3);
          state := Wait1250;
        }
      case Wait1250 =>
        if Elapsed(Counter(t1), timeReset) > 1250 {
          Drive(KeyHigh, t2);
          MeterReset(t3);
          state := Wait5000;
        }
      case Wait5000 =>
        if status {
          state := HardwareIsOk;
          MeterReset(t1);
        }
        if Elapsed(Counter(t2), timeReset) > 5000 {
          state := Idle;
        }
      case HardwareIsOk =>
    }
  }
}
