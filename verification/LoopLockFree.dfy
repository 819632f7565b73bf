/** The same protocol in the build with boost::lockfree::queue: the drain lowers the flag and then
    pops and runs one functor at a time until a pop finds the queue empty. */
module LoopLockFree {
  import opened LoopProtocol
  import opened LoopWakeups
  import LoopFunctors

  /** `running` holds one entry for each call of DoPendingFunctors in progress, innermost last:
      the functor it is running, if any. */
  datatype FreeState = FreeState(
    queue: seq<Ticket>,
    pipe: nat,
    notified: bool,
    count: int,
    producers: Threads,
    received: bool,
    running: seq<seq<Ticket>>,
    started: seq<Ticket>,
    done: seq<Ticket>,
    next: Ticket)

  datatype Step =
    | Push(p: Producer)
    | Count(p: Producer)
    | Load(p: Producer)
    | Store(p: Producer)
    | Send(p: Producer)
    | Recv(n: nat)
    | Clear        // notified_.store(false) of a drain called for the pipe
    | ClearNested  // the same, called by a running functor
    | Pop
    | End
    | Return       // a pop that finds nothing

  const START: FreeState := FreeState([], 0, false, 0, map[], false, [], [], [], 0)

  predicate Running(s: FreeState) {
    s.running != [] && s.running[|s.running| - 1] != []
  }

  predicate Popping(s: FreeState) {
    s.running != [] && s.running[|s.running| - 1] == []
  }

  predicate Able(s: FreeState, a: Step) {
    match a
    case Push(p) => p !in s.producers
    case Count(p) => At(s.producers, p, Pushed)
    case Load(p) => At(s.producers, p, Counted)
    case Store(p) => At(s.producers, p, Cleared)
    case Send(p) => At(s.producers, p, Stored)
    case Recv(n) => !s.received && s.running == [] && 1 <= n <= s.pipe && n <= RECV_MAX
    case Clear => s.received
    case ClearNested => Running(s)
    case Pop => Popping(s) && s.queue != []
    case End => Running(s)
    case Return => Popping(s) && s.queue == []
  }

  function Take(full: nat, s: FreeState, a: Step): FreeState
    requires Able(s, a)
  {
    var n := |s.running| - 1;
    match a
    case Push(p) => s.(producers := s.producers[p := Pushed], queue := s.queue + [s.next], next := s.next + 1)
    case Count(p) => s.(producers := s.producers[p := Counted], count := s.count + 1)
    case Load(p) => s.(producers := if s.notified then s.producers - {p} else s.producers[p := Cleared])
    case Store(p) => s.(producers := s.producers[p := Stored], notified := true)
    case Send(p) => s.(producers := s.producers - {p}, pipe := if s.pipe < full then s.pipe + 1 else s.pipe)
    case Recv(k) => s.(pipe := s.pipe - k, received := true)
    case Clear => s.(notified := false, received := false, running := s.running + [[]])
    case ClearNested => s.(notified := false, received := false, running := s.running + [[]])
    case Pop =>
      var f := s.queue[0];
      s.(running := s.running[..n] + [[f]], started := s.started + [f], queue := s.queue[1..])
    case End => s.(running := s.running[..n] + [[]], count := s.count - 1, done := s.done + s.running[n])
    case Return => s.(running := s.running[..n])
  }

  predicate AbleAll(full: nat, s: FreeState, run: seq<Step>)
    decreases |run|
  {
    run == [] || (Able(s, run[0]) && AbleAll(full, Take(full, s, run[0]), run[1..]))
  }

  function TakeAll(full: nat, s: FreeState, run: seq<Step>): FreeState
    requires AbleAll(full, s, run)
    decreases |run|
  {
    if run == [] then s else TakeAll(full, Take(full, s, run[0]), run[1..])
  }

  // ---------- no wake-up is lost ----------

  ghost predicate Wakes(s: FreeState) {
    && (s.notified ==> s.pipe > 0 || s.received || SomeAt(s.producers, {Stored}))
    && (s.queue != [] ==> s.pipe > 0 || s.received || s.running != [] || Notifying(s.producers))
  }

  lemma WakesKept(full: nat, s: FreeState, a: Step)
    requires full > 0 && Wakes(s) && Able(s, a)
    ensures Wakes(Take(full, s, a))
  {
    var t := Take(full, s, a);
    match a
    case Push(p) => OthersStay(s.producers, t.producers, p); assert t.producers[p] == Pushed;
    case Count(p) => OthersStay(s.producers, t.producers, p); assert t.producers[p] == Counted;
    case Load(p) => OthersStay(s.producers, t.producers, p); assert !s.notified ==> t.producers[p] == Cleared;
    case Store(p) => OthersStay(s.producers, t.producers, p); assert t.producers[p] == Stored;
    case Send(p) => OthersStay(s.producers, t.producers, p); assert t.pipe > 0;
    case _ =>
  }

  // ---------- functors ----------

  function Held(running: seq<seq<Ticket>>): seq<Ticket> {
    if running == [] then [] else Held(running[..|running| - 1]) + running[|running| - 1]
  }

  lemma HeldTop(rs: seq<seq<Ticket>>, r: seq<Ticket>)
    ensures Held(rs + [r]) == Held(rs) + r
  {
    assert (rs + [r])[..|rs|] == rs;
  }

  lemma HeldSplit(s: FreeState)
    requires s.running != []
    ensures Held(s.running) == Held(s.running[..|s.running| - 1]) + s.running[|s.running| - 1]
  {
  }

  /** Functors are started in push order whatever the nesting; each started one is finished or
      still running; the counter is exact. */
  predicate Accounted(s: FreeState) {
    && s.started + s.queue == LoopFunctors.Tickets(s.next)
    && multiset(s.started) == multiset(s.done) + multiset(Held(s.running))
    && s.count == |s.queue| + |Held(s.running)| - |LoopFunctors.Uncounted(s.producers)|
    && forall i :: 0 <= i < |s.running| ==> |s.running[i]| <= 1
  }

  lemma ProducerAccounted(full: nat, s: FreeState, a: Step)
    requires Accounted(s) && Able(s, a) && (a.Push? || a.Count? || a.Load? || a.Store? || a.Send?)
    ensures Accounted(Take(full, s, a))
  {
    hide Held, LoopFunctors.Uncounted;
    var t := Take(full, s, a);
    LoopFunctors.UncountedMoves(s.producers, t.producers, a.p);
    if a.Push? {
      assert LoopFunctors.Tickets(t.next) == LoopFunctors.Tickets(s.next) + [s.next];
    }
  }

  lemma LoopAccounted(full: nat, s: FreeState, a: Step)
    requires Accounted(s) && Able(s, a) && (a.Recv? || a.Clear? || a.ClearNested? || a.Pop? || a.End? || a.Return?)
    ensures Accounted(Take(full, s, a))
  {
    hide Held, LoopFunctors.Uncounted, LoopFunctors.Tickets;
    match a
    case Recv(_) =>
    case Clear => HeldTop(s.running, []);
    case ClearNested => HeldTop(s.running, []);
    case Pop => HeldSplit(s); PopAccounted(full, s);
    case End => HeldSplit(s); HeldTop(s.running[..|s.running| - 1], []);
    case Return => HeldSplit(s);
  }

  lemma PopAccounted(full: nat, s: FreeState)
    requires Accounted(s) && Able(s, Pop)
    ensures Accounted(Take(full, s, Pop))
  {
    hide Held, LoopFunctors.Uncounted, LoopFunctors.Tickets;
    HeldSplit(s);
    var below, f := s.running[..|s.running| - 1], s.queue[0];
    HeldTop(below, [f]);
    PopMoves(s.started, s.queue, s.done, Held(below));
    assert Held(s.running) == Held(below) + [];
  }

  lemma PopMoves(started: seq<Ticket>, queue: seq<Ticket>, done: seq<Ticket>, held: seq<Ticket>)
    requires queue != [] && multiset(started) == multiset(done) + multiset(held)
    ensures started + queue == started + [queue[0]] + queue[1..]
    ensures multiset(started + [queue[0]]) == multiset(done) + multiset(held + [queue[0]])
  {
  }

  lemma AccountedKept(full: nat, s: FreeState, a: Step)
    requires Accounted(s) && Able(s, a)
    ensures Accounted(Take(full, s, a))
  {
    hide Accounted, Able, Take;
    if a.Push? || a.Count? || a.Load? || a.Store? || a.Send? {
      ProducerAccounted(full, s, a);
    } else {
      LoopAccounted(full, s, a);
    }
  }

  /** Over every run from the start, nested drains included. */
  lemma {:induction false} LockFreeSafe(full: nat, s: FreeState, run: seq<Step>)
    requires full > 0 && Wakes(s) && Accounted(s) && AbleAll(full, s, run)
    ensures Wakes(TakeAll(full, s, run)) && Accounted(TakeAll(full, s, run))
    decreases |run|
  {
    hide Wakes, Accounted, Able, Take;
    if run != [] {
      WakesKept(full, s, run[0]);
      AccountedKept(full, s, run[0]);
      LockFreeSafe(full, Take(full, s, run[0]), run[1..]);
    }
  }

  lemma StartOk()
    ensures Wakes(START) && Accounted(START)
  {
    assert LoopFunctors.Uncounted(map[]) == {};
  }

  /** An idle loop with idle producers and pending work has a readable pipe, and what has been
      started is a prefix of what was pushed. */
  lemma LockFreeWakes(full: nat, run: seq<Step>)
    requires full > 0 && AbleAll(full, START, run)
    ensures var s := TakeAll(full, START, run);
            && (s.producers == map[] && s.queue != [] && !s.received && s.running == [] ==> Able(s, Step.Recv(1)))
            && s.started == LoopFunctors.Tickets(|s.started|)
  {
    hide AbleAll, TakeAll, Held;
    StartOk();
    LockFreeSafe(full, START, run);
    var s := TakeAll(full, START, run);
    assert s.started == (s.started + s.queue)[..|s.started|];
  }
}
