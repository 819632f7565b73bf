/** No wake-up is lost, in any interleaving of any number of producers with the loop. */
module LoopWakeups {
  import opened LoopProtocol

  ghost predicate SomeAt(ps: Threads, phs: set<Phase>) {
    exists p :: p in ps && ps[p] in phs
  }

  /** Some thread is between its push and its send. */
  ghost predicate Notifying(ps: Threads) {
    SomeAt(ps, {Pushed, Counted, Cleared, Stored})
  }

  /** The flag is only ever up while a byte is in the pipe or still on its way in, or the loop
      has taken the byte and is about to lower the flag. */
  ghost predicate FlagOk(s: State) {
    s.notified ==> s.pipe > 0 || s.received || SomeAt(s.producers, {Stored})
  }

  /** Queued work is always going to be noticed. */
  ghost predicate Noticed(s: State) {
    s.queue != [] ==> s.pipe > 0 || s.received || s.lowered || Notifying(s.producers)
  }

  predicate Shape(s: State) {
    && (s.received ==> s.batches == [] && !s.lowered)
    && (s.lowered && s.batches != [] ==> Top(s).running != [])
    && (forall i :: 0 <= i < |s.batches| ==> |s.batches[i].running| <= 1)
    && (forall i :: 0 <= i < |s.batches| - 1 ==> s.batches[i].running != [])
  }

  ghost predicate Inv(s: State) {
    FlagOk(s) && Noticed(s) && Shape(s)
  }

  lemma ShapeKept(full: nat, s: State, a: Action)
    requires Shape(s) && Can(s, a)
    ensures Shape(Do(full, s, a))
  {
  }

  lemma WakeKept(full: nat, s: State, a: Action)
    requires full > 0 && FlagOk(s) && Noticed(s) && Can(s, a)
    ensures FlagOk(Do(full, s, a)) && Noticed(Do(full, s, a))
  {
    var t := Do(full, s, a);
    match a
    case Push(p) => OthersStay(s.producers, t.producers, p); assert t.producers[p] == Pushed;
    case Count(p) => OthersStay(s.producers, t.producers, p); assert t.producers[p] == Counted;
    case Load(p) => OthersStay(s.producers, t.producers, p); assert !s.notified ==> t.producers[p] == Cleared;
    case Store(p) => OthersStay(s.producers, t.producers, p); assert t.producers[p] == Stored;
    case Send(p) => OthersStay(s.producers, t.producers, p); assert t.pipe > 0;
    case _ =>
  }

  /** Producers other than `p` are where they were. */
  ghost predicate OnlyMoves(a: Threads, b: Threads, p: Producer) {
    && (forall q :: q != p ==> (q in a <==> q in b))
    && (forall q :: q != p && q in a ==> a[q] == b[q])
  }

  lemma OthersStay(a: Threads, b: Threads, p: Producer)
    requires OnlyMoves(a, b, p)
    ensures SomeAt(a, {Stored}) ==> SomeAt(b, {Stored}) || At(a, p, Stored)
    ensures Notifying(a) ==> Notifying(b) || p in a
    ensures SomeAt(b, {Stored}) ==> Notifying(b)
  {
    if SomeAt(a, {Stored}) {
      var q :| q in a && a[q] in {Stored};
      assert q != p ==> b[q] in {Stored};
    }
    if Notifying(a) {
      var q :| q in a && a[q] in {Pushed, Counted, Cleared, Stored};
      assert q != p ==> b[q] in {Pushed, Counted, Cleared, Stored};
    }
    if SomeAt(b, {Stored}) {
      var q :| q in b && b[q] in {Stored};
      assert b[q] in {Pushed, Counted, Cleared, Stored};
    }
  }

  /** In every reachable state of every interleaving, queued work means a byte in the pipe, a
      loop between its recv and the swap of the queue, or a producer between its push and its
      send. */
  lemma {:induction false} NoLostWakeup(full: nat, s: State, run: seq<Action>)
    requires full > 0 && Inv(s) && CanAll(full, s, run)
    ensures Inv(DoAll(full, s, run))
    decreases |run|
  {
    hide Can, Do, FlagOk, Noticed, Shape;
    if run != [] {
      ShapeKept(full, s, run[0]);
      WakeKept(full, s, run[0]);
      NoLostWakeup(full, Do(full, s, run[0]), run[1..]);
    }
  }

  lemma InitOk()
    ensures Inv(INIT)
  {
  }

  /** So an idle loop with idle producers and pending work has a readable pipe. */
  lemma IdleLoopWakes(full: nat, run: seq<Action>)
    requires full > 0 && CanAll(full, INIT, run)
    ensures var s := DoAll(full, INIT, run);
            s.producers == map[] && s.queue != [] && !s.received && !s.lowered && s.batches == [] ==> Can(s, Recv(1))
  {
    hide Can, Do, CanAll, DoAll;
    InitOk();
    NoLostWakeup(full, INIT, run);
    var s := DoAll(full, INIT, run);
    if s.producers == map[] && s.queue != [] && !s.received && !s.lowered && s.batches == [] {
      assert !Notifying(s.producers);
      RecvCan(s);
    }
  }

  lemma RecvCan(s: State)
    requires !s.received && !s.lowered && s.batches == [] && s.pipe > 0
    ensures Can(s, Recv(1))
  {
  }
}
