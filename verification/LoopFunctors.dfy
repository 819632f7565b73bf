/** What the protocol does with the functors: none is lost or run twice, they run in order, and
    the pending counter is exact; the loop alone gets all queued work done. */
module LoopFunctors {
  import opened LoopProtocol
  import opened LoopWakeups

  // ---------- conservation ----------

  function Tickets(n: nat): (ts: seq<Ticket>)
    ensures |ts| == n && forall i :: 0 <= i < n ==> ts[i] == i
  {
    seq(n, i => i)
  }

  /** The unfinished functors of the batches, outermost batch first. */
  function InBatches(bs: seq<Batch>): seq<Ticket> {
    if bs == [] then []
    else InBatches(bs[..|bs| - 1]) + bs[|bs| - 1].running + bs[|bs| - 1].rest
  }

  lemma TopBatch(bs: seq<Batch>, b: Batch)
    ensures InBatches(bs + [b]) == InBatches(bs) + b.running + b.rest
  {
    assert (bs + [b])[..|bs|] == bs;
  }

  function Below(s: State): seq<Batch>
    requires s.batches != []
  {
    s.batches[..|s.batches| - 1]
  }

  lemma TopSplit(s: State)
    requires s.batches != []
    ensures InBatches(s.batches) == InBatches(Below(s)) + Top(s).running + Top(s).rest
  {
    assert s.batches == Below(s) + [Top(s)];
    TopBatch(Below(s), Top(s));
  }

  lemma SetTopSplit(s: State, b: Batch)
    requires s.batches != []
    ensures InBatches(SetTop(s, b).batches) == InBatches(Below(s)) + b.running + b.rest
  {
    assert SetTop(s, b).batches == Below(s) + [b];
    TopBatch(Below(s), b);
  }

  /** Finished, in a batch or in the queue. */
  function Places(s: State): seq<Ticket> {
    s.done + InBatches(s.batches) + s.queue
  }

  predicate Conserved(s: State) {
    multiset(Places(s)) == multiset(Tickets(s.next))
  }

  /** Only a nested drain reorders; every other step leaves the places as they are, but for the
      ticket that a push adds at the end. */
  lemma PlacesKept(full: nat, s: State, a: Action)
    requires Shape(s) && Can(s, a) && (a.End? ==> |s.batches| == 1)
    ensures Places(Do(full, s, a)) == if a.Push? then Places(s) + [s.next] else Places(s)
  {
    hide InBatches;
    var t := Do(full, s, a);
    match a
    case Swap => TopBatch(s.batches, Batch([], s.queue));
    case Begin => TopSplit(s); SetTopSplit(s, Batch([Top(s).rest[0]], Top(s).rest[1..]));
    case End => EndPlaces(full, s);
    case Return => TopSplit(s);
    case _ =>
  }

  lemma EndPlaces(full: nat, s: State)
    requires Can(s, End)
    ensures var t := Do(full, s, End);
            && Places(t) == s.done + Top(s).running + InBatches(Below(s)) + Top(s).rest + s.queue
            && Places(s) == s.done + InBatches(Below(s)) + Top(s).running + Top(s).rest + s.queue
    ensures |s.batches| == 1 ==> Places(Do(full, s, End)) == Places(s)
  {
    assert |s.batches| == 1 ==> InBatches(Below(s)) == [];
    hide InBatches;
    TopSplit(s);
    SetTopSplit(s, Batch([], Top(s).rest));
    var b, r, w := InBatches(Below(s)), Top(s).running, Top(s).rest;
    assert s.done + r + (b + [] + w) + s.queue == s.done + r + b + w + s.queue;
    assert s.done + (b + r + w) + s.queue == s.done + b + r + w + s.queue;
  }

  lemma Permute(a: seq<Ticket>, r: seq<Ticket>, b: seq<Ticket>, c: seq<Ticket>, d: seq<Ticket>)
    ensures multiset(a + r + b + c + d) == multiset(a + b + r + c + d)
  {
  }

  lemma ConservedKept(full: nat, s: State, a: Action)
    requires Shape(s) && Can(s, a) && Conserved(s)
    ensures Conserved(Do(full, s, a))
  {
    hide InBatches, Tickets, Places, Do, Can;
    if a.End? {
      NextKept(full, s, a);
      EndPlaces(full, s);
      Permute(s.done, Top(s).running, InBatches(Below(s)), Top(s).rest, s.queue);
    } else {
      PlacesKept(full, s, a);
      NextKept(full, s, a);
      if a.Push? {
        assert Tickets(s.next + 1) == Tickets(s.next) + [s.next];
      }
    }
  }

  lemma NextKept(full: nat, s: State, a: Action)
    requires Can(s, a)
    ensures Do(full, s, a).next == if a.Push? then s.next + 1 else s.next
    ensures a.End? ==> Busy(s)
  {
  }

  /** A ticket that was given out stands in exactly one place, once. */
  lemma ExactlyOne(s: State, k: Ticket)
    requires Conserved(s)
    ensures multiset(s.done)[k] + multiset(InBatches(s.batches))[k] + multiset(s.queue)[k]
         == if k < s.next then 1 else 0
  {
    hide InBatches;
    assert multiset(Places(s))[k] == multiset(s.done)[k] + multiset(InBatches(s.batches))[k] + multiset(s.queue)[k];
    OnceEach(s.next, k);
  }

  lemma {:induction false} OnceEach(n: nat, k: Ticket)
    ensures multiset(Tickets(n))[k] == if k < n then 1 else 0
  {
    if n > 0 {
      OnceEach(n - 1, k);
      assert Tickets(n) == Tickets(n - 1) + [n - 1];
    }
  }

  // ---------- order ----------

  /** Finished, running, waiting and queued functors, read in that order, are in push order. */
  predicate InOrder(s: State) {
    |s.batches| <= 1 && (s.lowered ==> s.batches == []) && Places(s) == Tickets(s.next)
  }

  predicate NoNesting(run: seq<Action>) {
    forall i :: 0 <= i < |run| ==> run[i] != LowerNested
  }

  lemma OrderKept(full: nat, s: State, a: Action)
    requires Shape(s) && Can(s, a) && InOrder(s) && a != LowerNested
    ensures InOrder(Do(full, s, a))
  {
    hide InBatches, Places, Tickets;
    PlacesKept(full, s, a);
    assert Tickets(s.next + 1) == Tickets(s.next) + [s.next];
  }

  // ---------- the counter ----------

  function Uncounted(ps: Threads): set<Producer> {
    set p | p in ps && ps[p] == Pushed
  }

  /** Queued plus unfinished batch items, minus the producers between push and increment. */
  predicate CountExact(s: State) {
    s.count == |s.queue| + |InBatches(s.batches)| - |Uncounted(s.producers)|
  }

  lemma CountKept(full: nat, s: State, a: Action)
    requires Shape(s) && Can(s, a) && CountExact(s)
    ensures CountExact(Do(full, s, a))
  {
    hide InBatches;
    UncountedKept(full, s, a);
    match a
    case Swap => TopBatch(s.batches, Batch([], s.queue));
    case Begin => TopSplit(s); SetTopSplit(s, Batch([Top(s).rest[0]], Top(s).rest[1..]));
    case End => TopSplit(s); SetTopSplit(s, Batch([], Top(s).rest));
    case Return => TopSplit(s);
    case _ =>
  }

  lemma UncountedMoves(a: Threads, b: Threads, p: Producer)
    requires OnlyMoves(a, b, p)
    ensures |Uncounted(b)| == |Uncounted(a)| + (if At(b, p, Pushed) then 1 else 0) - (if At(a, p, Pushed) then 1 else 0)
  {
    SameOthers(a, b, p);
    assert p in Uncounted(a) <==> At(a, p, Pushed);
    assert p in Uncounted(b) <==> At(b, p, Pushed);
    hide Uncounted, OnlyMoves;
    Without(Uncounted(a), p);
    Without(Uncounted(b), p);
  }

  lemma SameOthers(a: Threads, b: Threads, p: Producer)
    requires OnlyMoves(a, b, p)
    ensures Uncounted(a) - {p} == Uncounted(b) - {p}
  {
    forall q | q != p ensures q in Uncounted(a) <==> q in Uncounted(b) {
    }
  }

  lemma Without(a: set<Producer>, p: Producer)
    ensures |a| == |a - {p}| + if p in a then 1 else 0
  {
    if p in a {
      assert a == (a - {p}) + {p};
    } else {
      assert a == a - {p};
    }
  }

  lemma UncountedKept(full: nat, s: State, a: Action)
    requires Can(s, a)
    ensures |Uncounted(Do(full, s, a).producers)|
         == |Uncounted(s.producers)| + (if a.Push? then 1 else if a.Count? then -1 else 0)
  {
    hide Uncounted;
    if !IsLoopStep(a) && !a.LowerNested? {
      UncountedMoves(s.producers, Do(full, s, a).producers, a.p);
    }
  }

  /** Over every run: nothing is lost or duplicated, the counter is exact, and without nested
      drains the functors finish in push order. */
  lemma {:induction false} FunctorsConserved(full: nat, s: State, run: seq<Action>)
    requires Shape(s) && CanAll(full, s, run) && Conserved(s) && CountExact(s)
    ensures var t := DoAll(full, s, run);
            && Conserved(t) && CountExact(t)
            && (NoNesting(run) && InOrder(s) ==> InOrder(t))
    decreases |run|
  {
    hide Can, Do, Shape, Conserved, CountExact, InOrder;
    if run != [] {
      var t := Do(full, s, run[0]);
      ShapeKept(full, s, run[0]);
      ConservedKept(full, s, run[0]);
      CountKept(full, s, run[0]);
      if NoNesting(run) && InOrder(s) {
        OrderKept(full, s, run[0]);
        assert NoNesting(run[1..]);
      }
      FunctorsConserved(full, t, run[1..]);
    }
  }

  lemma InitConserved()
    ensures Shape(INIT) && Conserved(INIT) && CountExact(INIT) && InOrder(INIT)
  {
  }

  /** From the start, in the form a caller sees: finished work is a prefix of what was pushed. */
  lemma FinishedInPushOrder(full: nat, run: seq<Action>)
    requires CanAll(full, INIT, run) && NoNesting(run)
    ensures var s := DoAll(full, INIT, run);
            s.done == Tickets(|s.done|) && |s.done| <= s.next
  {
    hide Can, Do, Shape, Conserved, CountExact, CanAll, DoAll, InBatches;
    InitConserved();
    FunctorsConserved(full, INIT, run);
    var s := DoAll(full, INIT, run);
    assert s.done == Places(s)[..|s.done|];
  }

  // ---------- the loop gets its work done ----------

  predicate IsLoopStep(a: Action) {
    a.Recv? || a.Lower? || a.Swap? || a.Begin? || a.End? || a.Return?
  }

  function Unfinished(bs: seq<Batch>): nat {
    if bs == [] then 0
    else Unfinished(bs[..|bs| - 1]) + 1 + |bs[|bs| - 1].running| + 2 * |bs[|bs| - 1].rest|
  }

  /** Steps the loop can still take on its own. */
  function Work(s: State): nat {
    4 * s.pipe + (if s.received then 3 else 0) + (if s.lowered then 2 else 0) + 2 * |s.queue| + Unfinished(s.batches)
  }

  lemma UnfinishedTop(bs: seq<Batch>, b: Batch)
    ensures Unfinished(bs + [b]) == Unfinished(bs) + 1 + |b.running| + 2 * |b.rest|
  {
    assert (bs + [b])[..|bs|] == bs;
  }

  /** Every step of the loop on its own uses up work, so it comes to rest. */
  lemma LoopRests(full: nat, s: State, a: Action)
    requires Shape(s) && Can(s, a) && IsLoopStep(a)
    ensures Work(Do(full, s, a)) < Work(s)
  {
    hide Unfinished;
    if s.batches != [] {
      assert s.batches == Below(s) + [Top(s)];
      UnfinishedTop(Below(s), Top(s));
      var t := Do(full, s, a);
      if a.Begin? || a.End? {
        assert t.batches == Below(s) + [LoopProtocol.Top(t)];
        UnfinishedTop(Below(s), LoopProtocol.Top(t));
      }
    }
    if a.Swap? {
      UnfinishedTop(s.batches, Batch([], s.queue));
    }
  }

  /** At rest with idle producers, everything ever pushed has been run. */
  lemma AllDoneAtRest(full: nat, run: seq<Action>)
    requires full > 0 && CanAll(full, INIT, run)
    requires var s := DoAll(full, INIT, run);
             s.producers == map[] && forall a :: IsLoopStep(a) ==> !Can(s, a)
    ensures var s := DoAll(full, INIT, run);
            && s.queue == [] && s.batches == [] && s.count == 0
            && multiset(s.done) == multiset(Tickets(s.next))
            && (NoNesting(run) ==> s.done == Tickets(s.next))
  {
    hide Do, CanAll, DoAll;
    var s := DoAll(full, INIT, run);
    InitOk();
    NoLostWakeup(full, INIT, run);
    InitConserved();
    FunctorsConserved(full, INIT, run);
    assert IsLoopStep(Begin) && IsLoopStep(End) && IsLoopStep(Return);
    assert IsLoopStep(Lower) && IsLoopStep(Swap) && IsLoopStep(Recv(1));
    assert !Can(s, Begin) && !Can(s, End) && !Can(s, Return) && !Can(s, Lower) && !Can(s, Swap);
    RestIsEmpty(s);
    IdleLoopWakes(full, run);
    assert Places(s) == s.done;
    assert Uncounted(s.producers) == {};
  }

  lemma RestIsEmpty(s: State)
    requires Shape(s) && !s.lowered && !Can(s, Begin) && !Can(s, End) && !Can(s, Return)
    ensures s.batches == []
  {
  }

  /** A step the loop can take on its own, if there is one. */
  lemma LoopStep(s: State) returns (a: Action)
    requires Shape(s) && (s.received || s.lowered || s.batches != [] || s.pipe > 0)
    ensures IsLoopStep(a) && Can(s, a)
  {
    if s.received {
      a := Lower;
    } else if s.lowered {
      a := Swap;
    } else if s.batches == [] {
      a := Recv(1);
    } else if Top(s).running != [] {
      a := End;
    } else if Top(s).rest != [] {
      a := Begin;
    } else {
      a := Return;
    }
  }

  /** From any state in which no wake-up is lost and no producer is active, the loop on its own
      runs everything that is queued and comes to rest. */
  lemma {:induction false} LoopFinishes(full: nat, s: State) returns (run: seq<Action>)
    requires full > 0 && Inv(s) && s.producers == map[]
    ensures CanAll(full, s, run) && forall i :: 0 <= i < |run| ==> IsLoopStep(run[i])
    ensures var t := DoAll(full, s, run);
            t.queue == [] && t.batches == [] && !t.received && !t.lowered && t.pipe == 0
    decreases Work(s)
  {
    hide Can, Do, Work, Shape;
    if s.received || s.lowered || s.batches != [] || s.pipe > 0 {
      var a := LoopStep(s);
      LoopRests(full, s, a);
      ShapeKept(full, s, a);
      WakeKept(full, s, a);
      ProducersStay(full, s, a);
      var rest := LoopFinishes(full, Do(full, s, a));
      run := [a] + rest;
      assert run[1..] == rest;
    } else {
      run := [];
      assert !Notifying(s.producers);
    }
  }

  lemma ProducersStay(full: nat, s: State, a: Action)
    requires Can(s, a) && IsLoopStep(a)
    ensures Do(full, s, a).producers == s.producers
  {
  }

  // ---------- why the flag is stored before the byte is sent ----------

  /** The other order: the byte first, the flag afterwards. `Stored` now reads "byte sent, flag
      not set yet". */
  predicate LateCan(s: State, a: Action) {
    match a
    case Send(p) => At(s.producers, p, Cleared)
    case Store(p) => At(s.producers, p, Stored)
    case _ => Can(s, a)
  }

  function LateDo(full: nat, s: State, a: Action): State
    requires LateCan(s, a)
  {
    match a
    case Send(p) => Move(s, p, Stored).(pipe := if s.pipe < full then s.pipe + 1 else s.pipe)
    case Store(p) => Idle(s, p).(notified := true)
    case _ => Do(full, s, a)
  }

  predicate LateCanAll(full: nat, s: State, run: seq<Action>)
    decreases |run|
  {
    run == [] || (LateCan(s, run[0]) && LateCanAll(full, LateDo(full, s, run[0]), run[1..]))
  }

  function LateDoAll(full: nat, s: State, run: seq<Action>): State
    requires LateCanAll(full, s, run)
    decreases |run|
  {
    if run == [] then s else LateDoAll(full, LateDo(full, s, run[0]), run[1..])
  }

  lemma LateCons(full: nat, s: State, a: Action, rest: seq<Action>)
    requires LateCan(s, a) && LateCanAll(full, LateDo(full, s, a), rest)
    ensures LateCanAll(full, s, [a] + rest)
    ensures LateDoAll(full, s, [a] + rest) == LateDoAll(full, LateDo(full, s, a), rest)
  {
    assert ([a] + rest)[1..] == rest;
  }

  const ASLEEP: State := State([1], 0, true, 1, map[], false, false, [], [0], 2)

  /** With the flag stored after the byte is sent, this run leaves work in the queue, the loop
      idle, every producer idle and the pipe empty: nothing will ever wake the loop. */
  lemma StoreMustComeFirst(full: nat) returns (run: seq<Action>)
    requires full > 0
    ensures LateCanAll(full, INIT, run) && LateDoAll(full, INIT, run) == ASLEEP
  {
    hide LateCanAll, LateDoAll;
    var s4 := State([0], 1, false, 1, map[0 := Stored], false, false, [], [], 1);
    var s6 := State([], 0, false, 1, map[0 := Stored], false, false, [Batch([], [0])], [], 1);
    var s9 := State([], 0, false, 0, map[0 := Stored], false, false, [], [0], 1);
    run := LateTail(full, s9);
    run := LateBatch(full, s6, s9, run);
    run := LateMiddle(full, s4, s6, run);
    run := LateHead(full, s4, run);
  }

  /** One producer as far as having sent its byte. */
  lemma LateHead(full: nat, s4: State, rest: seq<Action>) returns (run: seq<Action>)
    requires full > 0 && s4 == State([0], 1, false, 1, map[0 := Stored], false, false, [], [], 1)
    requires LateCanAll(full, s4, rest)
    ensures LateCanAll(full, INIT, run) && LateDoAll(full, INIT, run) == LateDoAll(full, s4, rest)
  {
    hide LateCanAll, LateDoAll;
    var s1 := State([0], 0, false, 0, map[0 := Pushed], false, false, [], [], 1);
    var s2 := State([0], 0, false, 1, map[0 := Counted], false, false, [], [], 1);
    var s3 := State([0], 0, false, 1, map[0 := Cleared], false, false, [], [], 1);
    assert LateDo(full, s3, Send(0)) == s4;
    LateCons(full, s3, Send(0), rest);
    run := [Send(0)] + rest;
    assert LateDo(full, s2, Load(0)) == s3;
    LateCons(full, s2, Load(0), run);
    run := [Load(0)] + run;
    assert LateDo(full, s1, Count(0)) == s2;
    LateCons(full, s1, Count(0), run);
    run := [Count(0)] + run;
    assert LateDo(full, INIT, Push(0)) == s1;
    LateCons(full, INIT, Push(0), run);
    run := [Push(0)] + run;
  }

  /** The loop wakes and takes the functor out of the queue. */
  lemma LateMiddle(full: nat, s4: State, s6: State, rest: seq<Action>) returns (run: seq<Action>)
    requires full > 0 && s4 == State([0], 1, false, 1, map[0 := Stored], false, false, [], [], 1)
    requires s6 == State([], 0, false, 1, map[0 := Stored], false, false, [Batch([], [0])], [], 1)
    requires LateCanAll(full, s6, rest)
    ensures LateCanAll(full, s4, run) && LateDoAll(full, s4, run) == LateDoAll(full, s6, rest)
  {
    hide LateCanAll, LateDoAll;
    var s5 := State([0], 0, false, 1, map[0 := Stored], true, false, [], [], 1);
    var l5 := State([0], 0, false, 1, map[0 := Stored], false, true, [], [], 1);
    assert [] + [Batch([], [0])] == [Batch([], [0])];
    assert LateDo(full, l5, Swap) == s6;
    LateCons(full, l5, Swap, rest);
    run := [Swap] + rest;
    assert LateDo(full, s5, Lower) == l5;
    LateCons(full, s5, Lower, run);
    run := [Lower] + run;
    assert LateDo(full, s4, Recv(1)) == s5;
    LateCons(full, s4, Recv(1), run);
    run := [Recv(1)] + run;
  }

  /** The loop runs it. */
  lemma LateBatch(full: nat, s6: State, s9: State, rest: seq<Action>) returns (run: seq<Action>)
    requires full > 0 && s6 == State([], 0, false, 1, map[0 := Stored], false, false, [Batch([], [0])], [], 1)
    requires s9 == State([], 0, false, 0, map[0 := Stored], false, false, [], [0], 1)
    requires LateCanAll(full, s9, rest)
    ensures LateCanAll(full, s6, run) && LateDoAll(full, s6, run) == LateDoAll(full, s9, rest)
  {
    hide LateCanAll, LateDoAll;
    var s7 := State([], 0, false, 1, map[0 := Stored], false, false, [Batch([0], [])], [], 1);
    var s8 := State([], 0, false, 0, map[0 := Stored], false, false, [Batch([], [])], [0], 1);
    assert LateDo(full, s8, Return) == s9;
    LateCons(full, s8, Return, rest);
    run := [Return] + rest;
    assert LateDo(full, s7, End) == s8;
    LateCons(full, s7, End, run);
    run := [End] + run;
    assert [0][1..] == [];
    assert Top(s6) == Batch([], [0]) && SetTop(s6, Batch([0], [])).batches == s7.batches;
    assert LateDo(full, s6, Begin) == s7;
    LateCons(full, s6, Begin, run);
    run := [Begin] + run;
  }

  /** The producer raises the flag, and the next one trusts it. */
  lemma LateTail(full: nat, s9: State) returns (run: seq<Action>)
    requires full > 0 && s9 == State([], 0, false, 0, map[0 := Stored], false, false, [], [0], 1)
    ensures LateCanAll(full, s9, run) && LateDoAll(full, s9, run) == ASLEEP
  {
    assert LateCanAll(full, ASLEEP, []) && LateDoAll(full, ASLEEP, []) == ASLEEP;
    hide LateCanAll, LateDoAll;
    var s10 := State([], 0, true, 0, map[], false, false, [], [0], 1);
    var s11 := State([1], 0, true, 0, map[1 := Pushed], false, false, [], [0], 2);
    var s12 := State([1], 0, true, 1, map[1 := Counted], false, false, [], [0], 2);
    assert LateDo(full, s12, Load(1)) == ASLEEP;
    LateCons(full, s12, Load(1), []);
    run := [Load(1)] + [];
    assert LateDo(full, s11, Count(1)) == s12;
    LateCons(full, s11, Count(1), run);
    run := [Count(1)] + run;
    assert LateDo(full, s10, Push(1)) == s11;
    LateCons(full, s10, Push(1), run);
    run := [Push(1)] + run;
    assert LateDo(full, s9, Store(0)) == s10;
    LateCons(full, s9, Store(0), run);
    run := [Store(0)] + run;
  }
}
