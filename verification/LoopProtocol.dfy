/** The event loop's task queue and wake-up pipe in the default build (a vector under a mutex):
    every push under the lock, every atomic access, swap, send and recv is one step, steps of
    different threads interleave in any way the lock allows, and there are any number of producer
    threads. */
module LoopProtocol {

  /** Where a thread is inside QueueInLoop. A functor that queues work from the loop thread is
      a producer like any other. */
  datatype Phase =
    | Pushed   // out of the lock section
    | Counted  // pending_functor_count_ incremented
    | Cleared  // notified_ was read as false
    | Stored   // notified_ set, byte not sent yet

  type Producer = nat

  /** The threads inside QueueInLoop; all others are idle. */
  type Threads = map<Producer, Phase>

  /** Functors are named by the order in which they were pushed. */
  type Ticket = nat

  /** A call of DoPendingFunctors: the functor being run and those after it. */
  datatype Batch = Batch(running: seq<Ticket>, rest: seq<Ticket>)

  datatype State = State(
    queue: seq<Ticket>,
    pipe: nat,
    notified: bool,
    count: int,
    producers: Threads,
    received: bool,          // between the recv and the lock section of the drain it causes
    lowered: bool,           // in that section, notified_ stored and the queue not swapped yet
    batches: seq<Batch>,     // innermost last
    done: seq<Ticket>,
    next: Ticket)

  datatype Action =
    | Push(p: Producer)
    | Count(p: Producer)
    | Load(p: Producer)
    | Store(p: Producer)
    | Send(p: Producer)
    | Recv(n: nat)
    | Lower                  // DoPendingFunctors, called for the pipe, locks and lowers the flag
    | LowerNested            // the same, called by a running functor such as StopInLoop
    | Swap                   // it takes the queue and unlocks
    | Begin
    | End
    | Return

  const INIT: State := State([], 0, false, 0, map[], false, false, [], [], 0)

  const RECV_MAX := 4096

  function Top(s: State): Batch
    requires s.batches != []
  {
    s.batches[|s.batches| - 1]
  }

  predicate Busy(s: State) {
    s.batches != [] && Top(s).running != []
  }

  predicate At(ps: Threads, p: Producer, ph: Phase) {
    p in ps && ps[p] == ph
  }

  /** When a step can be taken: while the drain holds the lock no push can, and the loop thread
      itself can only swap. */
  predicate Can(s: State, a: Action) {
    match a
    case Push(p) => p !in s.producers && !s.lowered
    case Count(p) => At(s.producers, p, Pushed)
    case Load(p) => At(s.producers, p, Counted)
    case Store(p) => At(s.producers, p, Cleared)
    case Send(p) => At(s.producers, p, Stored)
    case Recv(n) => !s.received && !s.lowered && s.batches == [] && 1 <= n <= s.pipe && n <= RECV_MAX
    case Lower => s.received
    case LowerNested => Busy(s) && !s.lowered
    case Swap => s.lowered
    case Begin => s.batches != [] && !s.lowered && Top(s).running == [] && Top(s).rest != []
    case End => Busy(s) && !s.lowered
    case Return => s.batches != [] && !s.lowered && Top(s) == Batch([], [])
  }

  function Idle(s: State, p: Producer): State {
    s.(producers := s.producers - {p})
  }

  function Move(s: State, p: Producer, ph: Phase): State {
    s.(producers := s.producers[p := ph])
  }

  function SetTop(s: State, b: Batch): State
    requires s.batches != []
  {
    s.(batches := s.batches[|s.batches| - 1 := b])
  }

  /** What it does; `full` is how many bytes the pipe holds at most, and only a send to a full
      pipe fails. */
  function Do(full: nat, s: State, a: Action): State
    requires Can(s, a)
  {
    match a
    case Push(p) => Move(s, p, Pushed).(queue := s.queue + [s.next], next := s.next + 1)
    case Count(p) => Move(s, p, Counted).(count := s.count + 1)
    case Load(p) => if s.notified then Idle(s, p) else Move(s, p, Cleared)
    case Store(p) => Move(s, p, Stored).(notified := true)
    case Send(p) => Idle(s, p).(pipe := if s.pipe < full then s.pipe + 1 else s.pipe)
    case Recv(n) => s.(pipe := s.pipe - n, received := true)
    case Lower => s.(notified := false, received := false, lowered := true)
    case LowerNested => s.(notified := false, lowered := true)
    case Swap => s.(lowered := false, batches := s.batches + [Batch([], s.queue)], queue := [])
    case Begin => SetTop(s, Batch([Top(s).rest[0]], Top(s).rest[1..]))
    case End => SetTop(s, Batch([], Top(s).rest)).(count := s.count - 1, done := s.done + Top(s).running)
    case Return => s.(batches := s.batches[..|s.batches| - 1])
  }

  predicate CanAll(full: nat, s: State, run: seq<Action>)
    decreases |run|
  {
    run == [] || (Can(s, run[0]) && CanAll(full, Do(full, s, run[0]), run[1..]))
  }

  function DoAll(full: nat, s: State, run: seq<Action>): State
    requires CanAll(full, s, run)
    decreases |run|
  {
    if run == [] then s else DoAll(full, Do(full, s, run[0]), run[1..])
  }
}
