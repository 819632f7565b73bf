/** QueueInLoop, the pipe handler and DoPendingFunctors as methods that update the loop's fields:
    a call that no other thread interrupts is one run of the protocol, step by step. */
module EventLoops {
  import opened LoopProtocol

  /** One more step at the end of a run. */
  lemma {:induction false} Extend(full: nat, s: State, run: seq<Action>, a: Action)
    requires CanAll(full, s, run) && Can(DoAll(full, s, run), a)
    ensures CanAll(full, s, run + [a])
    ensures DoAll(full, s, run + [a]) == Do(full, DoAll(full, s, run), a)
    decreases |run|
  {
    hide Can, Do;
    if run == [] {
      var t := Do(full, s, a);
      assert [a][1..] == [];
      assert CanAll(full, t, []) && DoAll(full, t, []) == t;
      assert [] + [a] == [a];
    } else {
      assert (run + [a])[1..] == run[1..] + [a];
      Extend(full, Do(full, s, run[0]), run[1..], a);
    }
  }

  /** The steps of a batch of `n` functors. */
  function Rounds(n: nat): seq<Action> {
    if n == 0 then [] else Rounds(n - 1) + [Begin, End]
  }

  class EventLoop {
    const full: nat              // bytes the pipe holds at most
    var queue: seq<Ticket>
    var pipe: nat
    var notified: bool
    var count: int
    var done: seq<Ticket>
    var next: Ticket
    ghost var producers: Threads
    ghost var received: bool
    ghost var lowered: bool
    ghost var batches: seq<Batch>

    ghost function View(): State
      reads this
    {
      State(queue, pipe, notified, count, producers, received, lowered, batches, done, next)
    }

    /** The state that a run leads to. */
    ghost predicate After(start: State, run: seq<Action>)
      reads this
    {
      CanAll(full, start, run) && DoAll(full, start, run) == View()
    }

    constructor (capacity: nat)
      ensures full == capacity && View() == INIT
    {
      full := capacity;
      queue, pipe, notified, count, done, next := [], 0, false, 0, [], 0;
      producers, received, lowered, batches := map[], false, false, [];
    }

    /** Called by a thread `p` that is not in the middle of another call. */
    method QueueInLoop(p: Producer) returns (ghost run: seq<Action>)
      requires p !in producers && !lowered
      modifies this
      ensures After(old(View()), run)
      ensures run == [Push(p), Count(p), Load(p)] + if old(notified) then [] else [Store(p), Send(p)]
      ensures producers == old(producers) && queue == old(queue) + [old(next)] && count == old(count) + 1 && notified
      ensures old(notified) ==> pipe == old(pipe)
      ensures !old(notified) ==> pipe == if old(pipe) < full then old(pipe) + 1 else old(pipe)
    {
      hide Can, Do, CanAll, DoAll;
      ghost var start := View();
      run := Enqueue(p);
      LoadStep(full, View(), p);
      Extend(full, start, run, Load(p));
      run := run + [Load(p)];
      if !notified {
        producers := producers[p := Cleared];
        run := Notify(p, start, run);
      } else {
        producers := producers - {p};
      }
      assert producers == old(producers);
    }

    /** The lock section and the increment after it. */
    method Enqueue(p: Producer) returns (ghost run: seq<Action>)
      requires p !in producers && !lowered
      modifies `queue, `next, `count, `producers
      ensures After(old(View()), run) && run == [Push(p)] + [Count(p)]
      ensures producers == old(producers)[p := Counted]
      ensures queue == old(queue) + [old(next)] && next == old(next) + 1 && count == old(count) + 1
    {
      hide Can, Do;
      ghost var start := View();
      assert CanAll(full, start, []) && DoAll(full, start, []) == start;
      PushStep(full, start, p);
      Extend(full, start, [], Push(p));
      assert [] + [Push(p)] == [Push(p)];
      queue, next := queue + [next], next + 1;
      producers := producers[p := Pushed];

      CountStep(full, View(), p);
      Extend(full, start, [Push(p)], Count(p));
      count := count + 1;
      producers := producers[p := Counted];
      run := [Push(p)] + [Count(p)];
    }

    /** The flag first, then the byte. */
    method Notify(p: Producer, ghost start: State, ghost before: seq<Action>) returns (ghost run: seq<Action>)
      requires At(producers, p, Cleared) && After(start, before)
      modifies `notified, `producers, `pipe
      ensures After(start, run) && run == before + [Store(p)] + [Send(p)]
      ensures notified && producers == old(producers) - {p}
      ensures pipe == if old(pipe) < full then old(pipe) + 1 else old(pipe)
    {
      hide Can, Do, CanAll, DoAll;
      run := before;
      StoreStep(full, View(), p);
      Extend(full, start, run, Store(p));
      notified := true;
      producers := producers[p := Stored];
      run := run + [Store(p)];

      SendStep(full, View(), p);
      Extend(full, start, run, Send(p));
      if pipe < full {
        pipe := pipe + 1;
      }
      producers := producers - {p};
      run := run + [Send(p)];
    }

    /** The batch loop: everything queued is run in order, and the counter goes down with it. */
    method DoPendingFunctors() returns (ghost run: seq<Action>)
      requires received && !lowered && batches == []
      modifies this
      ensures After(old(View()), run) && run == [Lower, Swap] + Rounds(|old(queue)|) + [Return]
      ensures queue == [] && !notified && !received && !lowered && batches == []
      ensures done == old(done) + old(queue) && count == old(count) - |old(queue)|
      ensures pipe == old(pipe) && next == old(next) && producers == old(producers)
    {
      hide Can, Do, CanAll, DoAll;
      ghost var start := View();
      run := [Lower, Swap];
      TakeQueue(full, start);
      notified := false;
      received := false;
      var functors := queue;
      queue := [];
      batches := [Batch([], functors)];
      var i := 0;
      assert functors[0..] == functors;
      while i < |functors|
        invariant i <= |functors| && run == [Lower, Swap] + Rounds(i)
        invariant After(start, run) && batches == [Batch([], functors[i..])]
        invariant queue == [] && !notified && !received && !lowered
        invariant done == old(done) + functors[..i] && count == old(count) - i
        invariant pipe == old(pipe) && next == old(next) && producers == old(producers)
      {
        assert functors[i..] == [functors[i]] + functors[i + 1..];
        BeginStep(full, View(), functors[i], functors[i + 1..]);
        Extend(full, start, run, Begin);
        Extend(full, start, run + [Begin], End);
        done := done + [functors[i]];
        count := count - 1;
        batches := [Batch([], functors[i + 1..])];
        run := run + [Begin] + [End];
        i := i + 1;
      }
      assert functors[i..] == [] && functors[..i] == functors;
      ReturnStep(full, View());
      Extend(full, start, run, Return);
      batches := [];
      run := run + [Return];
    }

    /** The pipe is readable: up to 4096 bytes are taken and the queue is drained. */
    method HandlerFn(n: nat) returns (ghost run: seq<Action>)
      requires Can(View(), Recv(n))
      modifies this
      ensures After(old(View()), run) && run == [Recv(n)] + ([Lower, Swap] + Rounds(|old(queue)|) + [Return])
      ensures queue == [] && !notified && !received && !lowered && batches == []
      ensures done == old(done) + old(queue) && count == old(count) - |old(queue)| && pipe == old(pipe) - n
    {
      ghost var start := View();
      received := true;
      pipe := pipe - n;
      ghost var s := View();
      assert s == Do(full, start, Recv(n));
      run := DoPendingFunctors();
      assert ([Recv(n)] + run)[1..] == run;
      run := [Recv(n)] + run;
    }
  }

  lemma PushStep(full: nat, s: State, p: Producer)
    requires p !in s.producers && !s.lowered
    ensures Can(s, Push(p))
    ensures Do(full, s, Push(p))
         == s.(producers := s.producers[p := Pushed], queue := s.queue + [s.next], next := s.next + 1)
  {
  }

  lemma CountStep(full: nat, s: State, p: Producer)
    requires At(s.producers, p, Pushed)
    ensures Can(s, Count(p))
    ensures Do(full, s, Count(p)) == s.(producers := s.producers[p := Counted], count := s.count + 1)
  {
  }

  lemma LoadStep(full: nat, s: State, p: Producer)
    requires At(s.producers, p, Counted)
    ensures Can(s, Load(p))
    ensures Do(full, s, Load(p))
         == s.(producers := if s.notified then s.producers - {p} else s.producers[p := Cleared])
  {
  }

  lemma StoreStep(full: nat, s: State, p: Producer)
    requires At(s.producers, p, Cleared)
    ensures Can(s, Store(p))
    ensures Do(full, s, Store(p)) == s.(producers := s.producers[p := Stored], notified := true)
  {
  }

  lemma SendStep(full: nat, s: State, p: Producer)
    requires At(s.producers, p, Stored)
    ensures Can(s, Send(p))
    ensures Do(full, s, Send(p))
         == s.(producers := s.producers - {p}, pipe := if s.pipe < full then s.pipe + 1 else s.pipe)
  {
  }

  /** The lock section of the drain. */
  lemma TakeQueue(full: nat, s: State)
    requires s.received && s.batches == []
    ensures CanAll(full, s, [Lower, Swap])
    ensures DoAll(full, s, [Lower, Swap])
         == s.(notified := false, received := false, lowered := false, batches := [Batch([], s.queue)], queue := [])
  {
    var t := s.(notified := false, received := false, lowered := true);
    assert Do(full, s, Lower) == t;
    assert [Lower, Swap][1..] == [Swap] && [Swap][1..] == [];
    assert CanAll(full, Do(full, t, Swap), []) && CanAll(full, t, [Swap]);
    assert [] + [Batch([], s.queue)] == [Batch([], s.queue)];
  }

  lemma BeginStep(full: nat, s: State, f: Ticket, rest: seq<Ticket>)
    requires s.batches == [Batch([], [f] + rest)] && !s.lowered
    ensures Can(s, Begin) && Do(full, s, Begin) == s.(batches := [Batch([f], rest)])
    ensures Can(Do(full, s, Begin), End)
    ensures Do(full, Do(full, s, Begin), End)
         == s.(batches := [Batch([], rest)], count := s.count - 1, done := s.done + [f])
  {
    assert ([f] + rest)[1..] == rest;
  }

  lemma ReturnStep(full: nat, s: State)
    requires s.batches == [Batch([], [])] && !s.lowered
    ensures Can(s, Return) && Do(full, s, Return) == s.(batches := [])
  {
  }
}
