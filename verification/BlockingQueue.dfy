/**
 The blocking queue macros of src/cmp/cmp_predefs.h as a state machine: producers and
 consumers share one ring buffer, one mutex and one condition variable.

 A step is what one thread does between taking the mutex and giving it up.  The ring is
 represented by the sequence that `Puffers.Puffer` refines, and `fault` records that a
 write met a full ring or a read an empty one, which that class forbids its callers.
 */
module BlockingQueues {

  /** One thread; a producer waits with the item it could not write. */
  datatype Party = Producer(id: nat) | Consumer(id: nat)

  datatype Wait = Wait(asleep: bool, item: int)

  datatype State = State(
    capacity: nat,
    contents: seq<int>,
    waiting: map<Party, Wait>,
    sent: seq<int>,
    received: seq<int>,
    fault: bool)

  /** `target` is the sleeper that a signal wakes, if one is sent. */
  datatype Step =
    | Send(id: nat, item: int, target: Party)
    | Receive(id: nat, target: Party)
    | Resume(party: Party, target: Party)
    | Spurious(party: Party)

  function Init(capacity: nat): State {
    State(capacity, [], map[], [], [], false)
  }

  predicate Sleeping(s: State, p: Party) {
    p in s.waiting && s.waiting[p].asleep
  }

  predicate SomeoneSleeps(s: State) {
    exists p :: p in s.waiting && s.waiting[p].asleep
  }

  /** A signal wakes one sleeper, if there is any. */
  predicate CanSignal(s: State, target: Party) {
    SomeoneSleeps(s) ==> Sleeping(s, target)
  }

  function Wake(s: State, p: Party): State {
    if Sleeping(s, p) then s.(waiting := s.waiting[p := s.waiting[p].(asleep := false)]) else s
  }

  /** The rest of a send, from the write on: signal when the ring was empty. */
  function Write(s: State, item: int, target: Party): State {
    if |s.contents| >= s.capacity then s.(fault := true)
    else if s.contents == [] && !CanSignal(s, target) then s
    else
      var s1 := s.(contents := s.contents + [item], sent := s.sent + [item]);
      if s.contents == [] then Wake(s1, target) else s1
  }

  /** The rest of a receive, from the read on: signal when the ring was full. */
  function Read(s: State, target: Party): State {
    if s.contents == [] then s.(fault := true)
    else if |s.contents| == s.capacity && !CanSignal(s, target) then s
    else
      var s1 := s.(contents := s.contents[1..], received := s.received + [s.contents[0]]);
      if |s.contents| == s.capacity then Wake(s1, target) else s1
  }

  /** A step that is not possible, and every step after a fault, leaves the state alone.
      A woken thread does not look at the ring again before it goes on. */
  function Next(s: State, step: Step): State {
    if s.fault then s else
    match step
    case Send(id, item, target) =>
      var p := Producer(id);
      if p in s.waiting then s
      else if |s.contents| == s.capacity then s.(waiting := s.waiting[p := Wait(true, item)])
      else Write(s, item, target)
    case Receive(id, target) =>
      var p := Consumer(id);
      if p in s.waiting then s
      else if s.contents == [] then s.(waiting := s.waiting[p := Wait(true, 0)])
      else Read(s, target)
    case Resume(p, target) =>
      if p !in s.waiting || s.waiting[p].asleep then s
      else
        var s1 := s.(waiting := s.waiting - {p});
        var s2 := if p.Producer? then Write(s1, s.waiting[p].item, target) else Read(s1, target);
        if s2 == s1 then s else s2
    case Spurious(p) => Wake(s, p)
  }

  function Run(capacity: nat, steps: seq<Step>): State {
    if steps == [] then Init(capacity)
    else Next(Run(capacity, steps[..|steps| - 1]), steps[|steps| - 1])
  }

  /** A step of the given numbers of producers and consumers, woken by signals only. */
  predicate Allowed(step: Step, producers: nat, consumers: nat) {
    match step
    case Send(id, _, _) => id < producers
    case Receive(id, _) => id < consumers
    case Resume(_, _) => true
    case Spurious(_) => false
  }

  ghost predicate AllowedRun(steps: seq<Step>, producers: nat, consumers: nat) {
    forall i :: 0 <= i < |steps| ==> Allowed(steps[i], producers, consumers)
  }

  /** Nothing was overwritten or read from an empty slot, and what was received followed by
      what is stored is what was sent, in order. */
  ghost predicate Sound(s: State) {
    !s.fault && |s.contents| <= s.capacity && s.sent == s.received + s.contents
  }

  /** With one thread on each side: a sleeping producer means a full ring and a sleeping
      consumer an empty one; a woken thread finds what it waited for. */
  ghost predicate Inv(s: State) {
    && Sound(s) && s.capacity > 0
    && (forall p :: p in s.waiting ==> p == Producer(0) || p == Consumer(0))
    && (Producer(0) in s.waiting ==> (s.waiting[Producer(0)].asleep <==> |s.contents| == s.capacity))
    && (Consumer(0) in s.waiting ==> (s.waiting[Consumer(0)].asleep <==> s.contents == []))
  }

  lemma {:induction false} InvWrite(s: State, item: int, target: Party)
    requires Inv(s) && Producer(0) !in s.waiting && |s.contents| < s.capacity
    ensures Inv(Write(s, item, target))
  {
    assert s.received + s.contents + [item] == s.received + (s.contents + [item]);
    assert Consumer(0) in s.waiting && s.contents == [] ==> Sleeping(s, Consumer(0)) && SomeoneSleeps(s);
  }

  lemma {:induction false} InvRead(s: State, target: Party)
    requires Inv(s) && Consumer(0) !in s.waiting && s.contents != []
    ensures Inv(Read(s, target))
  {
    assert s.received + [s.contents[0]] + s.contents[1..] == s.received + s.contents;
    assert Producer(0) in s.waiting && |s.contents| == s.capacity ==> Sleeping(s, Producer(0)) && SomeoneSleeps(s);
  }

  lemma {:induction false} InvNext(s: State, step: Step)
    requires Inv(s) && Allowed(step, 1, 1)
    ensures Inv(Next(s, step))
  {
    match step
    case Send(_, item, target) =>
      if Producer(0) !in s.waiting && |s.contents| < s.capacity { InvWrite(s, item, target); }
    case Receive(_, target) =>
      if Consumer(0) !in s.waiting && s.contents != [] { InvRead(s, target); }
    case Resume(p, target) =>
      if p in s.waiting && !s.waiting[p].asleep {
        var s1 := s.(waiting := s.waiting - {p});
        if p.Producer? { InvWrite(s1, s.waiting[p].item, target); } else { InvRead(s1, target); }
      }
  }

  lemma {:induction false} InvRun(capacity: nat, steps: seq<Step>)
    requires capacity > 0 && AllowedRun(steps, 1, 1)
    ensures Inv(Run(capacity, steps))
    decreases |steps|
  {
    if steps != [] {
      InvRun(capacity, steps[..|steps| - 1]);
      InvNext(Run(capacity, steps[..|steps| - 1]), steps[|steps| - 1]);
    }
  }

  // ---------------------------------------------------------------- what the callers see

  /** A caller that is not waiting begins to send. */
  predicate BeginsSend(s: State, step: Step) {
    step.Send? && Producer(step.id) !in s.waiting && (s.contents == [] ==> CanSignal(s, step.target))
  }

  predicate BeginsReceive(s: State, step: Step) {
    step.Receive? && Consumer(step.id) !in s.waiting && (|s.contents| == s.capacity ==> CanSignal(s, step.target))
  }

  /** The items that the callers gave to send, in the order of their calls. */
  function Given(capacity: nat, steps: seq<Step>): seq<int> {
    if steps == [] then []
    else
      var (init, last) := (steps[..|steps| - 1], steps[|steps| - 1]);
      Given(capacity, init) + if BeginsSend(Run(capacity, init), last) then [last.item] else []
  }

  /** How many receives were begun. */
  function Asked(capacity: nat, steps: seq<Step>): nat {
    if steps == [] then 0
    else
      var (init, last) := (steps[..|steps| - 1], steps[|steps| - 1]);
      Asked(capacity, init) + if BeginsReceive(Run(capacity, init), last) then 1 else 0
  }

  /** The item of the producer that waits, if it does. */
  function Held(s: State): seq<int> {
    if Producer(0) in s.waiting then [s.waiting[Producer(0)].item] else []
  }

  /** One step: a send begun adds its item to what was sent or is held, and nothing else adds
      or removes any; a receive begun has its item or waits for it. */
  lemma {:induction false} StepAccounts(s: State, step: Step)
    requires Inv(s) && Allowed(step, 1, 1)
    ensures var u := Next(s, step);
            && u.sent + Held(u) == s.sent + Held(s) + (if BeginsSend(s, step) then [step.item] else [])
            && |u.received| + (if Consumer(0) in u.waiting then 1 else 0)
               == |s.received| + (if Consumer(0) in s.waiting then 1 else 0) + (if BeginsReceive(s, step) then 1 else 0)
  {
  }

  /** Somebody can always be named. */
  lemma SignalPossible(s: State) returns (target: Party)
    ensures CanSignal(s, target)
  {
    if p :| p in s.waiting && s.waiting[p].asleep {
      target := p;
    } else {
      target := Producer(0);
    }
  }

  /** A caller that was woken finishes its call when it takes the mutex. */
  lemma {:induction false} ResumeFinishes(s: State, p: Party, target: Party)
    requires Inv(s) && p in s.waiting && !s.waiting[p].asleep && CanSignal(s, target)
    ensures p !in Next(s, Resume(p, target)).waiting
  {
  }

  lemma {:induction false} RunAccounts(capacity: nat, steps: seq<Step>)
    requires capacity > 0 && AllowedRun(steps, 1, 1)
    ensures var s := Run(capacity, steps);
            && Given(capacity, steps) == s.sent + Held(s)
            && Asked(capacity, steps) == |s.received| + if Consumer(0) in s.waiting then 1 else 0
    decreases |steps|
  {
    if steps != [] {
      var init := steps[..|steps| - 1];
      RunAccounts(capacity, init);
      InvRun(capacity, init);
      StepAccounts(Run(capacity, init), steps[|steps| - 1]);
    }
  }

  /** One thread on each side: in every run the items received, those stored and the one of a
      producer that waits are the items given to send, in order; every receive begun has its
      item or waits; and the two never sleep both. */
  lemma {:induction false} OneToOne(capacity: nat, steps: seq<Step>)
    requires capacity > 0 && AllowedRun(steps, 1, 1)
    ensures var s := Run(capacity, steps);
            && Sound(s)
            && Given(capacity, steps) == s.received + s.contents + Held(s)
            && Asked(capacity, steps) == |s.received| + (if Consumer(0) in s.waiting then 1 else 0)
            && !(Sleeping(s, Producer(0)) && Sleeping(s, Consumer(0)))
            && (Sleeping(s, Producer(0)) ==> |s.contents| == capacity)
            && (Sleeping(s, Consumer(0)) ==> s.contents == [])
  {
    InvRun(capacity, steps);
    RunCapacity(capacity, steps);
    RunAccounts(capacity, steps);
  }

  lemma {:induction false} RunCapacity(capacity: nat, steps: seq<Step>)
    ensures Run(capacity, steps).capacity == capacity
    decreases |steps|
  {
    if steps != [] {
      RunCapacity(capacity, steps[..|steps| - 1]);
    }
  }

  // ---------------------------------------------------------------- where the guard is too weak

  lemma RunExtend(capacity: nat, steps: seq<Step>, step: Step)
    ensures Run(capacity, steps + [step]) == Next(Run(capacity, steps), step)
  {
    assert (steps + [step])[..|steps|] == steps;
  }

  /** Producer 0 fills the ring. */
  lemma {:induction false} Fill(capacity: nat, k: nat) returns (steps: seq<Step>)
    requires k <= capacity
    ensures AllowedRun(steps, 1, 0)
    ensures var s := Run(capacity, steps);
            && !s.fault && s.capacity == capacity && |s.contents| == k && s.waiting == map[]
    decreases k
  {
    if k == 0 { return []; }
    var before := Fill(capacity, k - 1);
    var step := Send(0, 0, Consumer(0));
    RunExtend(capacity, before, step);
    steps := before + [step];
  }

  /** A second producer takes the slot that the first was woken for. */
  lemma {:induction false} TwoProducersFault(capacity: nat) returns (steps: seq<Step>)
    requires capacity > 0
    ensures AllowedRun(steps, 2, 1) && !Sound(Run(capacity, steps))
  {
    var full := Fill(capacity, capacity);
    var p0, p1, c0 := Producer(0), Producer(1), Consumer(0);
    var s0 := Run(capacity, full);
    var s1 := Next(s0, Send(0, 0, c0));
    assert Sleeping(s1, p0);
    var s2 := Next(s1, Receive(0, p0));
    assert p0 in s2.waiting && !s2.waiting[p0].asleep && |s2.contents| == capacity - 1;
    assert !SomeoneSleeps(s2);
    var s3 := Next(s2, Send(1, 0, c0));
    assert |s3.contents| == capacity;
    RunExtend(capacity, full, Send(0, 0, c0));
    RunExtend(capacity, full + [Send(0, 0, c0)], Receive(0, p0));
    RunExtend(capacity, full + [Send(0, 0, c0)] + [Receive(0, p0)], Send(1, 0, c0));
    RunExtend(capacity, full + [Send(0, 0, c0)] + [Receive(0, p0)] + [Send(1, 0, c0)], Resume(p0, c0));
    steps := full + [Send(0, 0, c0)] + [Receive(0, p0)] + [Send(1, 0, c0)] + [Resume(p0, c0)];
  }

  /** A second consumer takes the item that the first was woken for. */
  lemma {:induction false} TwoConsumersFault(capacity: nat) returns (steps: seq<Step>)
    requires capacity > 0
    ensures AllowedRun(steps, 1, 2) && !Sound(Run(capacity, steps))
  {
    var p0, c0 := Producer(0), Consumer(0);
    var s1 := Next(Init(capacity), Receive(0, p0));
    assert Sleeping(s1, c0);
    var s2 := Next(s1, Send(0, 0, c0));
    assert c0 in s2.waiting && !s2.waiting[c0].asleep && |s2.contents| == 1;
    assert !SomeoneSleeps(s2);
    var s3 := Next(s2, Receive(1, p0));
    assert s3.contents == [];
    RunExtend(capacity, [], Receive(0, p0));
    RunExtend(capacity, [] + [Receive(0, p0)], Send(0, 0, c0));
    RunExtend(capacity, [] + [Receive(0, p0)] + [Send(0, 0, c0)], Receive(1, p0));
    RunExtend(capacity, [] + [Receive(0, p0)] + [Send(0, 0, c0)] + [Receive(1, p0)], Resume(c0, p0));
    steps := [] + [Receive(0, p0)] + [Send(0, 0, c0)] + [Receive(1, p0)] + [Resume(c0, p0)];
  }

  /** A spurious wakeup alone breaks the queue, even between one producer and one consumer. */
  lemma {:induction false} SpuriousFault(capacity: nat) returns (steps: seq<Step>)
    requires capacity > 0
    ensures forall i :: 0 <= i < |steps| ==> Allowed(steps[i], 1, 1) || steps[i].Spurious?
    ensures !Sound(Run(capacity, steps))
  {
    var p0, c0 := Producer(0), Consumer(0);
    RunExtend(capacity, [], Receive(0, p0));
    RunExtend(capacity, [] + [Receive(0, p0)], Spurious(c0));
    RunExtend(capacity, [] + [Receive(0, p0)] + [Spurious(c0)], Resume(c0, p0));
    steps := [] + [Receive(0, p0)] + [Spurious(c0)] + [Resume(c0, p0)];
  }

  /** Nothing is overwritten or read empty, and what was received and is stored are the items
      given first, in order. */
  ghost predicate Delivers(capacity: nat, steps: seq<Step>) {
    var s := Run(capacity, steps);
    Sound(s) && s.received + s.contents <= Given(capacity, steps)
  }

  /** Without spurious wakeups the queue delivers in every run exactly for one producer and
      one consumer. */
  lemma {:induction false} SoundExactlyOneToOne(capacity: nat, producers: nat, consumers: nat)
    requires capacity > 0 && producers > 0 && consumers > 0
    ensures (forall steps :: AllowedRun(steps, producers, consumers) ==> Delivers(capacity, steps))
            <==> producers == 1 && consumers == 1
  {
    if producers == 1 && consumers == 1 {
      forall steps | AllowedRun(steps, 1, 1) ensures Delivers(capacity, steps) {
        OneToOne(capacity, steps);
      }
    } else if producers > 1 {
      var steps := TwoProducersFault(capacity);
      assert AllowedRun(steps, producers, consumers) && !Delivers(capacity, steps);
    } else {
      var steps := TwoConsumersFault(capacity);
      assert AllowedRun(steps, producers, consumers) && !Delivers(capacity, steps);
    }
  }
}
