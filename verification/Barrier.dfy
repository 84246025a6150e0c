/**
 The reusable cyclic barrier (src/lib/lib_threading.c) as a state machine.

 A step is what one thread does between taking the mutex and giving it up again, be it by
 returning or by waiting on the condition variable.  A sleeping thread may be woken by a
 broadcast or spuriously; an awake thread may take the mutex at any time.  The log records
 who registered and who returned; it is what the properties speak about.
 */
module Barriers {
  import opened Options

  const FLAG := 0x8000_0000
  const WORD := 0x1_0000_0000

  type Thread = int

  /** Where a thread is inside its call: waiting for the last round to leave, or registered
      in a round and waiting for the gate to open. */
  datatype Place = Entry(asleep: bool) | Gate(asleep: bool, round: nat)

  datatype Event = Registered(thread: Thread, round: nat) | Returned(thread: Thread, round: nat, serial: bool)

  datatype State = State(gatenum: int, current: int, calls: map<Thread, Place>, round: nat, log: seq<Event>)

  datatype Step = Call(thread: Thread) | Lock(thread: Thread) | Spurious(thread: Thread)

  function Init(gatenum: int): State {
    State(gatenum, 0, map[], 0, [])
  }

  function Awake(p: Place): Place {
    p.(asleep := false)
  }

  /** Broadcast: nobody sleeps any more. */
  function WakeAll(calls: map<Thread, Place>): map<Thread, Place> {
    map t | t in calls :: Awake(calls[t])
  }

  /** A thread returns and the counter has become `c`; once nobody is left to leave, the
      next round begins. */
  function Leave(s: State, t: Thread, c: int, serial: bool, wake: bool): State
    requires t in s.calls && s.calls[t].Gate?
  {
    var rest := s.calls - {t};
    s.(current := c,
       calls := if wake then WakeAll(rest) else rest,
       round := if c == FLAG then s.round + 1 else s.round,
       log := s.log + [Returned(t, s.calls[t].round, serial)])
  }

  /** From the gate loop's test on. */
  function AtGate(s: State, t: Thread): State
    requires t in s.calls && s.calls[t].Gate?
  {
    if s.current < FLAG then s.(calls := s.calls[t := s.calls[t].(asleep := true)])
    else
      var c := (s.current - 1) % WORD;
      Leave(s, t, c, false, c == FLAG)
  }

  /** From the entry loop's test on. */
  function AtEntry(s: State, t: Thread): State
    requires t in s.calls && s.calls[t].Entry?
  {
    if s.current > FLAG then s.(calls := s.calls[t := Entry(true)])
    else
      var c := ((if s.current == FLAG then 0 else s.current) + 1) % WORD;
      var s1 := s.(current := c, calls := s.calls[t := Gate(false, s.round)], log := s.log + [Registered(t, s.round)]);
      if c == s.gatenum then Leave(s1, t, (c + FLAG - 1) % WORD, true, true)
      else AtGate(s1, t)
  }

  /** A step that is not possible leaves the state alone. */
  function Next(s: State, step: Step): State {
    var t := step.thread;
    match step
    case Call(_) => if t in s.calls then s else s.(calls := s.calls[t := Entry(false)])
    case Spurious(_) => if t in s.calls then s.(calls := s.calls[t := Awake(s.calls[t])]) else s
    case Lock(_) =>
      if t !in s.calls || s.calls[t].asleep then s
      else if s.calls[t].Entry? then AtEntry(s, t)
      else AtGate(s, t)
  }

  /** The state after a run: every sequence of steps is a run. */
  function Run(gatenum: int, steps: seq<Step>): State {
    if steps == [] then Init(gatenum)
    else Next(Run(gatenum, steps[..|steps| - 1]), steps[|steps| - 1])
  }

  // ---------------------------------------------------------------- what the log says

  predicate Registers(e: Event, r: nat) { e.Registered? && e.round == r }
  predicate Returns(e: Event, r: nat) { e.Returned? && e.round == r }
  predicate ReturnsSerial(e: Event, r: nat) { e.Returned? && e.round == r && e.serial }

  function Registrations(log: seq<Event>, r: nat): nat {
    if log == [] then 0 else Registrations(log[..|log| - 1], r) + if Registers(log[|log| - 1], r) then 1 else 0
  }

  function ReturnsIn(log: seq<Event>, r: nat): nat {
    if log == [] then 0 else ReturnsIn(log[..|log| - 1], r) + if Returns(log[|log| - 1], r) then 1 else 0
  }

  function Serials(log: seq<Event>, r: nat): nat {
    if log == [] then 0 else Serials(log[..|log| - 1], r) + if ReturnsSerial(log[|log| - 1], r) then 1 else 0
  }

  /** No call returns from a round before `gatenum` calls have registered in it, and none
      registers in a round before all `gatenum` have returned from every earlier one. */
  ghost predicate LogSafe(log: seq<Event>, gatenum: int) {
    forall i :: 0 <= i < |log| ==>
      && (log[i].Returned? ==> Registrations(log[..i], log[i].round) == gatenum)
      && (log[i].Registered? ==> forall r: nat :: r < log[i].round ==> ReturnsIn(log[..i], r) == gatenum)
  }

  ghost predicate RoundCounts(log: seq<Event>, r: nat, registered: int, returned: int, serials: int) {
    Registrations(log, r) == registered && ReturnsIn(log, r) == returned && Serials(log, r) == serials
  }

  lemma CountsExtend(log: seq<Event>, e: Event, r: nat)
    ensures Registrations(log + [e], r) == Registrations(log, r) + (if Registers(e, r) then 1 else 0)
    ensures ReturnsIn(log + [e], r) == ReturnsIn(log, r) + (if Returns(e, r) then 1 else 0)
    ensures Serials(log + [e], r) == Serials(log, r) + (if ReturnsSerial(e, r) then 1 else 0)
  {
    assert (log + [e])[..|log|] == log;
  }

  lemma LogSafeExtend(log: seq<Event>, e: Event, gatenum: int)
    requires LogSafe(log, gatenum)
    requires e.Returned? ==> Registrations(log, e.round) == gatenum
    requires e.Registered? ==> forall r: nat :: r < e.round ==> ReturnsIn(log, r) == gatenum
    ensures LogSafe(log + [e], gatenum)
  {
    var l := log + [e];
    forall i | 0 <= i < |l|
      ensures l[i].Returned? ==> Registrations(l[..i], l[i].round) == gatenum
      ensures l[i].Registered? ==> forall r: nat :: r < l[i].round ==> ReturnsIn(l[..i], r) == gatenum
    {
      if i < |log| { assert l[..i] == log[..i]; } else { assert l[..i] == log; }
    }
  }

  // ---------------------------------------------------------------- the invariant

  ghost function AtGateSet(calls: map<Thread, Place>): set<Thread> {
    set t | t in calls && calls[t].Gate?
  }

  /** How many registered calls have not returned: the counter without its flag. */
  function Inside(s: State): int {
    if s.current < FLAG then s.current else s.current - FLAG
  }

  /** The rounds' counts: earlier rounds are complete, later ones untouched, and the present
      one is filling (flag clear, or nobody left) or draining. */
  ghost predicate Counts(s: State) {
    && (forall r: nat :: r < s.round ==> RoundCounts(s.log, r, s.gatenum, s.gatenum, 1))
    && (forall r: nat :: r > s.round ==> RoundCounts(s.log, r, 0, 0, 0))
    && (if s.current <= FLAG then RoundCounts(s.log, s.round, Inside(s), 0, 0)
        else RoundCounts(s.log, s.round, s.gatenum, s.gatenum - Inside(s), 1))
  }

  ghost predicate Inv(s: State) {
    && 1 <= s.gatenum <= FLAG
    && 0 <= Inside(s) < s.gatenum
    && |AtGateSet(s.calls)| == Inside(s)
    && (forall t :: t in s.calls && s.calls[t].Gate? ==> s.calls[t].round == s.round)
    // a sleeper's guard is still true
    && (forall t :: t in s.calls && s.calls[t].asleep ==>
          if s.calls[t].Entry? then s.current > FLAG else s.current < FLAG)
    && Counts(s)
    && LogSafe(s.log, s.gatenum)
  }

  lemma GateLess(calls: map<Thread, Place>, t: Thread)
    ensures AtGateSet(calls - {t}) == AtGateSet(calls) - {t}
  {
  }

  lemma GateWoken(calls: map<Thread, Place>)
    ensures AtGateSet(WakeAll(calls)) == AtGateSet(calls)
  {
    forall t ensures t in AtGateSet(WakeAll(calls)) <==> t in AtGateSet(calls) {
      if t in calls { assert WakeAll(calls)[t] == Awake(calls[t]); }
    }
  }

  lemma GateUpdate(calls: map<Thread, Place>, t: Thread, p: Place)
    ensures AtGateSet(calls[t := p]) == if p.Gate? then AtGateSet(calls) + {t} else AtGateSet(calls) - {t}
  {
  }

  lemma InvInit(gatenum: int)
    requires 1 <= gatenum <= FLAG
    ensures Inv(Init(gatenum))
  {
    assert AtGateSet(map[]) == {};
  }

  lemma {:induction false} InvLeave(s: State, t: Thread, c: int, serial: bool, wake: bool)
    requires t in s.calls && s.calls[t] == Gate(false, s.round)
    requires 1 <= s.gatenum <= FLAG && FLAG <= c < FLAG + s.gatenum && |AtGateSet(s.calls)| == c - FLAG + 1
    requires forall u :: u in s.calls && s.calls[u].Gate? ==> s.calls[u].round == s.round
    requires forall u :: u in s.calls && s.calls[u].asleep ==> wake || (s.calls[u].Entry? && c > FLAG)
    requires forall r: nat :: r < s.round ==> RoundCounts(s.log, r, s.gatenum, s.gatenum, 1)
    requires forall r: nat :: r > s.round ==> RoundCounts(s.log, r, 0, 0, 0)
    requires RoundCounts(s.log, s.round, s.gatenum, s.gatenum - (c - FLAG) - 1, if serial then 0 else 1)
    requires LogSafe(s.log, s.gatenum)
    ensures Inv(Leave(s, t, c, serial, wake))
  {
    hide Registrations, ReturnsIn, Serials, LogSafe, AtGateSet, WakeAll;
    LogSafeExtend(s.log, Returned(t, s.round, serial), s.gatenum);
    LeaveCounts(s, t, c, serial);
    InGateSet(s.calls, t);
    GateLess(s.calls, t);
    GateWoken(s.calls - {t});
    AllWoken(s.calls - {t});
    if c == FLAG {
      NobodyAtGate(s.calls - {t});
    }
  }

  lemma NobodyAtGate(calls: map<Thread, Place>)
    requires |AtGateSet(calls)| == 0
    ensures forall t :: t in calls ==> calls[t].Entry?
  {
    forall t | t in calls ensures calls[t].Entry? {
      assert t !in AtGateSet(calls);
    }
  }

  lemma InGateSet(calls: map<Thread, Place>, t: Thread)
    requires t in calls && calls[t].Gate?
    ensures t in AtGateSet(calls)
  {
  }

  lemma AllWoken(calls: map<Thread, Place>)
    ensures WakeAll(calls).Keys == calls.Keys
    ensures forall t :: t in calls ==> WakeAll(calls)[t] == Awake(calls[t])
  {
  }

  /** The return completes the round or leaves one call less in it. */
  lemma {:induction false} LeaveCounts(s: State, t: Thread, c: int, serial: bool)
    requires RoundCounts(s.log, s.round, s.gatenum, s.gatenum - (c - FLAG) - 1, if serial then 0 else 1)
    requires forall r: nat :: r < s.round ==> RoundCounts(s.log, r, s.gatenum, s.gatenum, 1)
    requires forall r: nat :: r > s.round ==> RoundCounts(s.log, r, 0, 0, 0)
    ensures var log := s.log + [Returned(t, s.round, serial)];
            && RoundCounts(log, s.round, s.gatenum, s.gatenum - (c - FLAG), 1)
            && (forall r: nat :: r < s.round ==> RoundCounts(log, r, s.gatenum, s.gatenum, 1))
            && (forall r: nat :: r > s.round ==> RoundCounts(log, r, 0, 0, 0))
  {
    hide Registrations, ReturnsIn, Serials;
    var e := Returned(t, s.round, serial);
    var log := s.log + [e];
    CountsExtend(s.log, e, s.round);
    forall r: nat | r < s.round ensures RoundCounts(log, r, s.gatenum, s.gatenum, 1) {
      assert RoundCounts(s.log, r, s.gatenum, s.gatenum, 1);
      CountsExtend(s.log, e, r);
    }
    forall r: nat | r > s.round ensures RoundCounts(log, r, 0, 0, 0) {
      assert RoundCounts(s.log, r, 0, 0, 0);
      CountsExtend(s.log, e, r);
    }
  }

  /** Registering a call in a round that is filling. */
  lemma {:induction false} RegisterCounts(s: State, t: Thread)
    requires Inv(s) && s.current <= FLAG
    ensures var log := s.log + [Registered(t, s.round)];
            && LogSafe(log, s.gatenum)
            && RoundCounts(log, s.round, Inside(s) + 1, 0, 0)
            && (forall r: nat :: r < s.round ==> RoundCounts(log, r, s.gatenum, s.gatenum, 1))
            && (forall r: nat :: r > s.round ==> RoundCounts(log, r, 0, 0, 0))
  {
    var e := Registered(t, s.round);
    forall r: nat | r < s.round ensures ReturnsIn(s.log, r) == s.gatenum {
      assert RoundCounts(s.log, r, s.gatenum, s.gatenum, 1);
    }
    LogSafeExtend(s.log, e, s.gatenum);
    CountsExtend(s.log, e, s.round);
    forall r: nat | r < s.round ensures RoundCounts(s.log + [e], r, s.gatenum, s.gatenum, 1) {
      assert RoundCounts(s.log, r, s.gatenum, s.gatenum, 1);
      CountsExtend(s.log, e, r);
    }
    forall r: nat | r > s.round ensures RoundCounts(s.log + [e], r, 0, 0, 0) {
      assert RoundCounts(s.log, r, 0, 0, 0);
      CountsExtend(s.log, e, r);
    }
  }

  lemma {:induction false} InvAtEntry(s: State, t: Thread)
    requires Inv(s) && t in s.calls && s.calls[t] == Entry(false)
    ensures Inv(AtEntry(s, t))
  {
    hide Registrations, ReturnsIn, Serials, LogSafe, AtGateSet, RoundCounts, Leave;
    GateUpdate(s.calls, t, Entry(true));
    GateUpdate(s.calls, t, Gate(false, s.round));
    GateUpdate(s.calls, t, Gate(true, s.round));
    NotAtGate(s.calls, t);
    if s.current <= FLAG {
      RegisterCounts(s, t);
      var c := Inside(s) + 1;
      if c == s.gatenum {
        var s1 := s.(current := c, calls := s.calls[t := Gate(false, s.round)], log := s.log + [Registered(t, s.round)]);
        InvLeave(s1, t, c + FLAG - 1, true, true);
      } else {
        assert s.calls[t := Gate(false, s.round)][t := Gate(true, s.round)] == s.calls[t := Gate(true, s.round)];
      }
    }
  }

  lemma NotAtGate(calls: map<Thread, Place>, t: Thread)
    requires t in calls && calls[t].Entry?
    ensures t !in AtGateSet(calls)
  {
  }

  lemma {:induction false} InvAtGate(s: State, t: Thread)
    requires Inv(s) && t in s.calls && s.calls[t].Gate? && !s.calls[t].asleep
    ensures Inv(AtGate(s, t))
  {
    if s.current < FLAG {
      assert AtGateSet(s.calls[t := s.calls[t].(asleep := true)]) == AtGateSet(s.calls);
    } else {
      assert t in AtGateSet(s.calls);
      InvLeave(s, t, s.current - 1, false, s.current - 1 == FLAG);
    }
  }

  lemma {:induction false} InvNext(s: State, step: Step)
    requires Inv(s)
    ensures Inv(Next(s, step))
  {
    var t := step.thread;
    match step
    case Call(_) =>
      if t !in s.calls {
        assert AtGateSet(s.calls[t := Entry(false)]) == AtGateSet(s.calls);
      }
    case Spurious(_) =>
      if t in s.calls {
        assert AtGateSet(s.calls[t := Awake(s.calls[t])]) == AtGateSet(s.calls);
      }
    case Lock(_) =>
      if t in s.calls && !s.calls[t].asleep {
        if s.calls[t].Entry? { InvAtEntry(s, t); } else { InvAtGate(s, t); }
      }
  }

  lemma {:induction false} InvRun(gatenum: int, steps: seq<Step>)
    requires 1 <= gatenum <= FLAG
    ensures Inv(Run(gatenum, steps)) && Run(gatenum, steps).gatenum == gatenum
    decreases |steps|
  {
    if steps == [] {
      InvInit(gatenum);
    } else {
      InvRun(gatenum, steps[..|steps| - 1]);
      InvNext(Run(gatenum, steps[..|steps| - 1]), steps[|steps| - 1]);
    }
  }

  // ---------------------------------------------------------------- what one thread does

  /** The events of one thread, in order. */
  function Own(log: seq<Event>, t: Thread): seq<Event> {
    if log == [] then []
    else Own(log[..|log| - 1], t) + if log[|log| - 1].thread == t then [log[|log| - 1]] else []
  }

  lemma {:induction false} OwnExtend(log: seq<Event>, e: Event, t: Thread)
    ensures Own(log + [e], t) == Own(log, t) + if e.thread == t then [e] else []
  {
    assert (log + [e])[..|log|] == log;
  }

  /** Where a thread is, awake or not: nowhere, at the entry, or at the gate. */
  function PlaceOf(s: State, t: Thread): Option<Place> {
    if t in s.calls then Some(Awake(s.calls[t])) else None
  }

  /** What a thread may have done between two places: a call begins at the entry; it reaches
      the gate by registering in the present round, and leaves from there by returning from
      the round it registered in; the last to register leaves at once, as the serial one. */
  ghost predicate Did(before: Option<Place>, after: Option<Place>, t: Thread, round: nat, events: seq<Event>) {
    match (before, after)
    case (None, None) => events == []
    case (None, Some(Entry(_))) => events == []
    case (Some(Entry(_)), Some(Entry(_))) => events == []
    case (Some(Entry(_)), Some(Gate(_, r))) => r == round && events == [Registered(t, round)]
    case (Some(Entry(_)), None) => events == [Registered(t, round), Returned(t, round, true)]
    case (Some(Gate(_, q)), Some(Gate(_, r))) => r == q && events == []
    case (Some(Gate(_, q)), None) => events == [Returned(t, q, false)]
    case _ => false
  }

  /** A step moves its own thread only, by what that thread may do, and wakes others at most. */
  lemma {:induction false} StepMeans(s: State, step: Step)
    requires Inv(s)
    ensures var u := Next(s, step);
            && s.log <= u.log
            && Did(PlaceOf(s, step.thread), PlaceOf(u, step.thread), step.thread, s.round, u.log[|s.log|..])
            && forall x :: x != step.thread ==>
                 PlaceOf(u, x) == PlaceOf(s, x) && (x in u.calls && u.calls[x].asleep ==> s.calls[x].asleep)
  {
    hide Counts, LogSafe, AtGateSet;
    var u := Next(s, step);
    if step.Lock? && step.thread in s.calls && !s.calls[step.thread].asleep && s.calls[step.thread].Entry? {
      var registered := s.log + [Registered(step.thread, s.round)];
      assert u.log == s.log || u.log == registered || u.log == registered + [Returned(step.thread, s.round, true)];
    }
  }

  /** Registrations and returns alternate, each return from the round registered in. */
  ghost predicate Paired(own: seq<Event>) {
    forall i :: 0 <= i < |own| ==> PairedAt(own, i)
  }

  predicate PairedAt(own: seq<Event>, i: int)
    requires 0 <= i < |own|
  {
    if i % 2 == 0 then own[i].Registered? else own[i].Returned? && own[i].round == own[i - 1].round
  }

  /** A thread is at the gate exactly between registering and returning. */
  ghost predicate Ledger(s: State, t: Thread) {
    var own := Own(s.log, t);
    && Paired(own)
    && (|own| % 2 == 1 <==> t in s.calls && s.calls[t].Gate?)
    && (|own| % 2 == 1 ==> own[|own| - 1].round == s.calls[t].round)
  }

  /** How many calls of the thread have begun. */
  function Begun(gatenum: int, steps: seq<Step>, t: Thread): nat {
    if steps == [] then 0
    else
      var (init, last) := (steps[..|steps| - 1], steps[|steps| - 1]);
      Begun(gatenum, init, t) + if last == Call(t) && t !in Run(gatenum, init).calls then 1 else 0
  }

  lemma {:induction false} PairedExtend(own: seq<Event>, e: Event)
    requires Paired(own)
    requires if |own| % 2 == 0 then e.Registered? else e.Returned? && e.round == own[|own| - 1].round
    ensures Paired(own + [e])
  {
    var all := own + [e];
    forall i | 0 <= i < |all| ensures PairedAt(all, i) {
      if i < |own| { assert PairedAt(own, i); }
    }
  }

  /** The step's new events join the ledgers. */
  lemma {:induction false} LedgerNext(s: State, step: Step, t: Thread)
    requires Inv(s) && Ledger(s, t)
    ensures var u := Next(s, step);
            && Ledger(u, t)
            && |Own(u.log, t)| / 2 + (if t in u.calls then 1 else 0)
               == |Own(s.log, t)| / 2 + (if t in s.calls then 1 else 0) + (if step == Call(t) && t !in s.calls then 1 else 0)
  {
    hide Inv, Next, Own, Paired;
    StepMeans(s, step);
    var u := Next(s, step);
    var events := u.log[|s.log|..];
    assert u.log == s.log + events;
    CallBegins(s, step);
    if events == [] {
      assert u.log == s.log;
    } else {
      OwnExtend(s.log, events[0], t);
      if |events| == 1 {
        assert events == [events[0]];
      } else {
        assert u.log == s.log + [events[0]] + [events[1]];
        OwnExtend(s.log + [events[0]], events[1], t);
      }
      if t == step.thread {
        PairedExtend(Own(s.log, t), events[0]);
        if |events| == 2 { PairedExtend(Own(s.log, t) + [events[0]], events[1]); }
      } else {
        assert Own(u.log, t) == Own(s.log, t);
      }
    }
  }

  /** A call begins exactly when an idle thread makes one. */
  lemma CallBegins(s: State, step: Step)
    ensures step.thread !in s.calls ==> (step.thread in Next(s, step).calls <==> step.Call?)
  {
  }

  /** The calls that a thread began are those that it returned from, and one that is inside. */
  ghost predicate Accounted(gatenum: int, steps: seq<Step>, t: Thread) {
    var s := Run(gatenum, steps);
    Ledger(s, t) && Begun(gatenum, steps, t) == |Own(s.log, t)| / 2 + if t in s.calls then 1 else 0
  }

  /** In every run, with any number of rounds, each thread's registrations and returns
      alternate in pairs of one round, it is at the gate exactly in between, and every call it
      began has returned once, or is still inside. */
  lemma {:induction false} EveryCallAccounted(gatenum: int, steps: seq<Step>, t: Thread)
    requires 1 <= gatenum <= FLAG
    ensures Accounted(gatenum, steps, t)
    decreases |steps|
  {
    if steps != [] {
      var init := steps[..|steps| - 1];
      EveryCallAccounted(gatenum, init, t);
      InvRun(gatenum, init);
      LedgerNext(Run(gatenum, init), steps[|steps| - 1], t);
    }
  }

  // ---------------------------------------------------------------- safety over every run

  /** In every run: the counter stays a 32-bit word, returns and registrations respect the
      rounds, a round that is over had `gatenum` calls of which one was the serial one, and
      no call of any thread goes uncounted. */
  lemma {:induction false} RoundsAreSafe(gatenum: int, steps: seq<Step>)
    requires 1 <= gatenum <= FLAG
    ensures var s := Run(gatenum, steps);
            && 0 <= s.current < WORD
            && LogSafe(s.log, gatenum)
            && (forall r: nat :: r < s.round ==> RoundCounts(s.log, r, gatenum, gatenum, 1))
            && (forall r: nat :: Registrations(s.log, r) <= gatenum && ReturnsIn(s.log, r) <= gatenum && Serials(s.log, r) <= 1)
            && (forall r: nat :: ReturnsIn(s.log, r) > 0 ==> Serials(s.log, r) == 1)
            && (forall t :: Accounted(gatenum, steps, t))
  {
    hide Accounted;
    forall t ensures Accounted(gatenum, steps, t) {
      EveryCallAccounted(gatenum, steps, t);
    }
    InvRun(gatenum, steps);
    var s := Run(gatenum, steps);
    forall r: nat
      ensures Registrations(s.log, r) <= gatenum && ReturnsIn(s.log, r) <= gatenum && Serials(s.log, r) <= 1
      ensures ReturnsIn(s.log, r) > 0 ==> Serials(s.log, r) == 1
    {
      if r < s.round {
        assert RoundCounts(s.log, r, gatenum, gatenum, 1);
      } else if r > s.round {
        assert RoundCounts(s.log, r, 0, 0, 0);
      }
    }
  }

  ghost predicate AllAsleep(s: State) {
    forall t :: t in s.calls ==> s.calls[t].asleep
  }

  /** No wakeup is lost: when everybody inside sleeps, fewer than `gatenum` calls are inside,
      all registered in the present round, waiting for more to come. */
  lemma {:induction false} NoLostWakeup(gatenum: int, steps: seq<Step>)
    requires 1 <= gatenum <= FLAG && AllAsleep(Run(gatenum, steps))
    ensures var s := Run(gatenum, steps);
            && |s.calls| < gatenum
            && forall t :: t in s.calls ==> s.calls[t] == Gate(true, s.round)
  {
    InvRun(gatenum, steps);
    var s := Run(gatenum, steps);
    AsleepMeansFew(s);
  }

  lemma SomeMember(a: set<Thread>) returns (u: Thread)
    requires |a| > 0
    ensures u in a
  {
    if forall x :: x !in a {
      assert false;
    }
    u :| u in a;
  }

  lemma {:induction false} AsleepMeansFew(s: State)
    requires Inv(s) && AllAsleep(s)
    ensures |s.calls| < s.gatenum
    ensures forall t :: t in s.calls ==> s.calls[t] == Gate(true, s.round)
  {
    if s.current > FLAG {
      var u := SomeMember(AtGateSet(s.calls));
      assert false;
    }
    forall t ensures t in s.calls.Keys <==> t in AtGateSet(s.calls) {}
    assert s.calls.Keys == AtGateSet(s.calls);
  }

  // ---------------------------------------------------------------- progress

  ghost function EntrySet(calls: map<Thread, Place>): set<Thread> {
    set t | t in calls && calls[t].Entry?
  }

  ghost function AwakeSet(calls: map<Thread, Place>): set<Thread> {
    set t | t in calls && !calls[t].asleep
  }

  /** Fewer calls inside, or as many but fewer at the entry, or fewer awake. */
  ghost predicate Closer(u: State, s: State) {
    || |u.calls| < |s.calls|
    || (|u.calls| == |s.calls| && |EntrySet(u.calls)| < |EntrySet(s.calls)|)
    || (|u.calls| == |s.calls| && |EntrySet(u.calls)| == |EntrySet(s.calls)| && |AwakeSet(u.calls)| < |AwakeSet(s.calls)|)
  }

  lemma SleepCloser(calls: map<Thread, Place>, t: Thread, p: Place)
    requires t in calls && !calls[t].asleep && p.asleep && (calls[t].Gate? ==> p.Gate?)
    ensures |calls[t := p]| == |calls|
    ensures if p.Entry? || calls[t].Gate?
            then |EntrySet(calls[t := p])| == |EntrySet(calls)| && |AwakeSet(calls[t := p])| < |AwakeSet(calls)|
            else |EntrySet(calls[t := p])| < |EntrySet(calls)|
  {
    assert calls[t := p].Keys == calls.Keys;
    assert AwakeSet(calls[t := p]) == AwakeSet(calls) - {t};
    assert EntrySet(calls[t := p]) == if p.Entry? then EntrySet(calls) else EntrySet(calls) - {t};
    assert t in AwakeSet(calls);
    if calls[t].Entry? { assert t in EntrySet(calls); } else { assert EntrySet(calls) - {t} == EntrySet(calls); }
  }

  lemma LeaveCloser(calls: map<Thread, Place>, t: Thread)
    requires t in calls
    ensures |calls - {t}| < |calls| && |WakeAll(calls - {t})| < |calls|
  {
    assert (calls - {t}).Keys == calls.Keys - {t};
    assert WakeAll(calls - {t}).Keys == calls.Keys - {t};
  }

  /** Whatever thread the scheduler lets run, the barrier comes closer to quiescence. */
  lemma {:induction false} LockCloser(s: State, t: Thread)
    requires Inv(s) && t in s.calls && !s.calls[t].asleep
    ensures Closer(Next(s, Lock(t)), s)
  {
    hide Counts, LogSafe, AtGateSet, EntrySet, AwakeSet, WakeAll;
    SleepCloser(s.calls, t, Gate(true, s.round));
    LeaveCloser(s.calls, t);
    if s.calls[t].Entry? {
      SleepCloser(s.calls, t, Entry(true));
      var in1 := s.calls[t := Gate(false, s.round)];
      assert in1 - {t} == s.calls - {t};
      assert in1[t := Gate(true, s.round)] == s.calls[t := Gate(true, s.round)];
    }
  }

  function RunFrom(s: State, steps: seq<Step>): State
    decreases |steps|
  {
    if steps == [] then s else RunFrom(Next(s, steps[0]), steps[1..])
  }

  /** Left alone, with no new calls and no spurious wakeups, the barrier lets calls go until
      fewer than `gatenum` are left, all asleep. */
  lemma {:induction false} Quiesces(s: State) returns (steps: seq<Step>)
    requires Inv(s)
    ensures forall i :: 0 <= i < |steps| ==> steps[i].Lock?
    ensures Inv(RunFrom(s, steps)) && AllAsleep(RunFrom(s, steps)) && |RunFrom(s, steps).calls| < s.gatenum
    decreases |s.calls|, |EntrySet(s.calls)|, |AwakeSet(s.calls)|
  {
    if AllAsleep(s) {
      AsleepMeansFew(s);
      return [];
    }
    var t :| t in s.calls && !s.calls[t].asleep;
    InvNext(s, Lock(t));
    LockCloser(s, t);
    var rest := Quiesces(Next(s, Lock(t)));
    steps := [Lock(t)] + rest;
    assert steps[1..] == rest;
  }

  // ---------------------------------------------------------------- the limit of the encoding

  /** A run in which `k` calls register and fall asleep at the gate. */
  lemma {:induction false} Fill(gatenum: int, k: nat) returns (steps: seq<Step>)
    requires FLAG < gatenum < WORD && k < FLAG
    ensures var s := Run(gatenum, steps);
            && s.gatenum == gatenum && s.current == k && s.round == 0
            && Registrations(s.log, 0) == k && (forall t :: t in s.calls ==> 0 <= t < k)
    decreases k
  {
    hide Next, Registrations;
    if k == 0 {
      StartsEmpty(gatenum);
      return [];
    }
    var before := Fill(gatenum, k - 1);
    var t := k - 1;
    RunExtend(gatenum, before, Call(t));
    RunExtend(gatenum, before + [Call(t)], Lock(t));
    OneMoreAsleep(Run(gatenum, before), t);
    steps := before + [Call(t)] + [Lock(t)];
  }

  lemma StartsEmpty(gatenum: int)
    ensures Run(gatenum, []) == Init(gatenum) && Registrations([], 0) == 0
  {
  }

  /** A call that does not complete the round registers and falls asleep at the gate. */
  lemma {:induction false} OneMoreAsleep(s: State, t: Thread)
    requires FLAG < s.gatenum && 0 <= t == s.current < FLAG - 1 && s.round == 0
    requires forall u :: u in s.calls ==> 0 <= u < t
    ensures var u := Next(Next(s, Call(t)), Lock(t));
            && u.gatenum == s.gatenum && u.current == t + 1 && u.round == 0
            && Registrations(u.log, 0) == Registrations(s.log, 0) + 1 && forall v :: v in u.calls ==> 0 <= v < t + 1
  {
    hide Registrations;
    CountsExtend(s.log, Registered(t, 0), 0);
    assert t !in s.calls;
  }

  lemma RunExtend(gatenum: int, steps: seq<Step>, step: Step)
    ensures Run(gatenum, steps + [step]) == Next(Run(gatenum, steps), step)
  {
    assert (steps + [step])[..|steps|] == steps;
  }

  /** A larger `gatenum` collides with the flag: the call that makes the counter reach the
      flag walks through the closed gate. */
  lemma {:induction false} FlagCollision(gatenum: int) returns (steps: seq<Step>)
    requires FLAG < gatenum < WORD
    ensures !LogSafe(Run(gatenum, steps).log, gatenum)
  {
    var before := Fill(gatenum, FLAG - 1);
    var t := FLAG;
    var s0 := Run(gatenum, before);
    RunExtend(gatenum, before, Call(t));
    RunExtend(gatenum, before + [Call(t)], Lock(t));
    CountsExtend(s0.log, Registered(t, 0), 0);
    steps := before + [Call(t)] + [Lock(t)];
    var log := Run(gatenum, steps).log;
    var mid := s0.log + [Registered(t, 0)];
    assert log == mid + [Returned(t, 0, false)];
    assert log[..|mid|] == mid && log[|mid|].Returned?;
  }

  /** Rounds are kept apart, and every call of every thread is counted. */
  ghost predicate Keeps(gatenum: int, steps: seq<Step>) {
    LogSafe(Run(gatenum, steps).log, gatenum) && forall t :: Accounted(gatenum, steps, t)
  }

  /** The barrier does so in every run exactly up to 2^31 participants. */
  lemma {:induction false} SafeUpToTheFlag(gatenum: int)
    requires 1 <= gatenum < WORD
    ensures (forall steps :: Keeps(gatenum, steps)) <==> gatenum <= 0x8000_0000
  {
    hide Accounted, LogSafe;
    if gatenum <= FLAG {
      forall steps ensures Keeps(gatenum, steps) {
        RoundsAreSafe(gatenum, steps);
      }
    } else {
      var steps := FlagCollision(gatenum);
      assert !Keeps(gatenum, steps);
    }
  }
}
