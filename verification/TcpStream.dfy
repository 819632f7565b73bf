/** The send path of a TCP connection over whole runs: what reaches the kernel, what waits in
    the output buffer and when the callbacks are queued, with the kernel free to accept any
    part of what it is offered. */
module TcpStream {
  import opened Bytes

  datatype Interest = Readable | Writable

  datatype Errno =
    | Retriable   // EVUTIL_ERR_RW_RETRIABLE
    | Broken      // EPIPE or ECONNRESET
    | OtherErrno

  /** What a send returns, and what errno holds after it. */
  datatype Kernel = Kernel(n: int, errno: Errno)

  datatype Status = Disconnected | Connected | Disconnecting

  /** Callbacks handed to the loop's queue. */
  datatype Callback = WriteComplete | HighWater(size: nat)

  datatype Conn = Conn(
    status: Status,
    events: set<Interest>,
    attached: bool,
    closed: bool,               // the channel has been closed
    out: bytes,                 // output_buffer_
    wire: bytes,                // all bytes the kernel has taken
    accepted: bytes,            // all bytes handed to SendInLoop while not disconnected
    queued: seq<Callback>,
    mark: nat,
    wantsComplete: bool,        // write_complete_fn_ is set
    wantsHigh: bool)            // high_water_mark_fn_ is set

  predicate Open(c: Conn) {
    c.status != Disconnected
  }

  /** HandleClose, and HandleError, which calls it. */
  function Closed(c: Conn): Conn {
    c.(status := Disconnected, events := {}, attached := false, closed := true)
  }

  /** The channel's interest set and whether it is registered with the loop. */
  function WithEvents(c: Conn, events: set<Interest>): Conn {
    c.(events := events, attached := events != {})
  }

  function Queue(c: Conn, wanted: bool, cb: Callback): Conn {
    c.(queued := if wanted then c.queued + [cb] else c.queued)
  }

  /** The part of SendInLoop that keeps what the kernel did not take. */
  function Backlog(c: Conn, rest: bytes): Conn {
    var n := |c.out| + |rest|;
    var d := Queue(c, c.wantsHigh && |c.out| < c.mark <= n, HighWater(n));
    WithEvents(d.(out := c.out + rest), c.events + {Writable})
  }

  function Keep(c: Conn, rest: bytes): Conn {
    if rest == [] then c else Backlog(c, rest)
  }

  predicate TriesDirectly(c: Conn) {
    Writable !in c.events && c.out == []
  }

  /** How much of a message the kernel takes at once. */
  function Taken(c: Conn, k: Kernel): nat {
    if TriesDirectly(c) && k.n > 0 then k.n else 0
  }

  predicate Breaks(c: Conn, k: Kernel) {
    TriesDirectly(c) && k.n < 0 && k.errno == Broken
  }

  predicate SentWhole(c: Conn, data: bytes, k: Kernel) {
    TriesDirectly(c) && k.n == |data|
  }

  function SendInLoop(c: Conn, data: bytes, k: Kernel): Conn
    requires k.n <= |data|
  {
    if c.status == Disconnected then c
    else if Breaks(c, k) then Closed(Offered(c, data, k))
    else Keep(Offered(c, data, k), data[Taken(c, k)..])
  }

  /** The part of SendInLoop that offers the message to the kernel. */
  function Offered(c: Conn, data: bytes, k: Kernel): Conn
    requires k.n <= |data|
  {
    var d := c.(accepted := c.accepted + data, wire := c.wire + data[..Taken(c, k)]);
    Queue(d, c.wantsComplete && SentWhole(c, data, k), WriteComplete)
  }

  function HandleWrite(c: Conn, k: Kernel): Conn
    requires k.n <= |c.out|
  {
    if k.n > 0 then
      var d := c.(wire := c.wire + c.out[..k.n], out := c.out[k.n..]);
      if d.out == [] then Queue(WithEvents(d, c.events - {Writable}), c.wantsComplete, WriteComplete) else d
    else if k.errno == Retriable then c
    else Closed(c)
  }

  datatype Step =
    | Attach                          // OnAttachedToLoop
    | Send(data: bytes, k: Kernel)    // SendInLoop
    | WriteEvent(k: Kernel)           // the loop reports the socket writable
    | StopReading                     // the peer has shut down its side
    | BeginClose                      // Close from another thread
    | FinishClose                     // HandleClose

  predicate Can(c: Conn, s: Step) {
    match s
    case Attach => !Open(c) && !c.closed
    case Send(data, k) => k.n <= |data|
    case WriteEvent(k) => c.attached && Writable in c.events && k.n <= |c.out|
    case StopReading => Open(c)
    case BeginClose => Open(c)
    case FinishClose => Open(c)
  }

  function Do(c: Conn, s: Step): Conn
    requires Can(c, s)
  {
    match s
    case Attach => WithEvents(c.(status := Connected), c.events + {Readable})
    case Send(data, k) => SendInLoop(c, data, k)
    case WriteEvent(k) => HandleWrite(c, k)
    case StopReading => WithEvents(c, c.events - {Readable})
    case BeginClose => c.(status := Disconnecting)
    case FinishClose => Closed(c)
  }

  function Fresh(mark: nat, wantsComplete: bool, wantsHigh: bool): Conn {
    Conn(Disconnected, {}, false, false, [], [], [], [], mark, wantsComplete, wantsHigh)
  }

  // ---------- every state ----------

  /** Bytes are neither lost, duplicated nor reordered, and the loop is told of exactly the
      waiting bytes. */
  predicate Inv(c: Conn) {
    && (Open(c) ==>
          && !c.closed
          && c.wire + c.out == c.accepted
          && (Writable in c.events <==> c.out != [])
          && (c.attached <==> c.events != {}))
    && (!Open(c) ==>
          && c.wire <= c.accepted
          && c.events == {} && !c.attached
          && (!c.closed ==> c.out == [] && c.wire == [] && c.accepted == []))
  }

  lemma KeepKeeps(c: Conn, rest: bytes)
    requires Open(c) && !c.closed && c.wire + c.out + rest == c.accepted
    requires (Writable in c.events <==> c.out != []) && (c.attached <==> c.events != {})
    ensures Inv(Keep(c, rest))
  {
    if rest == [] {
      assert c.wire + c.out + rest == c.wire + c.out;
    } else {
      assert c.wire + (c.out + rest) == c.wire + c.out + rest;
    }
  }

  lemma SendKeeps(c: Conn, data: bytes, k: Kernel)
    requires Inv(c) && k.n <= |data|
    ensures Inv(SendInLoop(c, data, k))
  {
    hide Keep;
    if Open(c) {
      if Breaks(c, k) {
        assert c.wire <= c.accepted + data;
      } else {
        var n := Taken(c, k);
        assert c.wire + data[..n] + c.out + data[n..] == c.accepted + data by {
          if n > 0 {
            assert c.wire + data[..n] + [] + data[n..] == c.wire + data;
          } else {
            assert c.wire + [] + c.out + data == c.wire + c.out + data;
          }
        }
        KeepKeeps(Offered(c, data, k), data[n..]);
      }
    }
  }

  lemma WriteKeeps(c: Conn, k: Kernel)
    requires Inv(c) && Can(c, WriteEvent(k))
    ensures Inv(HandleWrite(c, k))
  {
    if k.n > 0 {
      assert c.out == c.out[..k.n] + c.out[k.n..];
      assert c.wire + c.out[..k.n] + c.out[k.n..] == c.wire + c.out;
    }
    assert c.wire <= c.wire + c.out;
  }

  lemma StepKeeps(c: Conn, s: Step)
    requires Inv(c) && Can(c, s)
    ensures Inv(Do(c, s))
  {
    match s
    case Send(data, k) => SendKeeps(c, data, k);
    case WriteEvent(k) => WriteKeeps(c, k);
    case _ => assert c.wire <= c.wire + c.out;
  }

  predicate CanAll(c: Conn, run: seq<Step>)
    decreases |run|
  {
    run == [] || (Can(c, run[0]) && CanAll(Do(c, run[0]), run[1..]))
  }

  function DoAll(c: Conn, run: seq<Step>): Conn
    requires CanAll(c, run)
    decreases |run|
  {
    if run == [] then c else DoAll(Do(c, run[0]), run[1..])
  }

  /** The messages a run hands over, one after the other. */
  function Messages(c: Conn, run: seq<Step>): bytes
    requires CanAll(c, run)
    decreases |run|
  {
    if run == [] then []
    else (if run[0].Send? && Open(c) then run[0].data else []) + Messages(Do(c, run[0]), run[1..])
  }

  lemma KeepLeaves(c: Conn, rest: bytes)
    ensures var d := Keep(c, rest);
            && d.accepted == c.accepted && d.wire == c.wire && d.mark == c.mark
            && d.out == c.out + rest
            && var fires := c.wantsHigh && rest != [] && |c.out| < c.mark <= |d.out|;
               d.queued == c.queued + if fires then [HighWater(|d.out|)] else []
  {
  }

  lemma StepAccepts(c: Conn, s: Step)
    requires Can(c, s)
    ensures Do(c, s).accepted == c.accepted + if s.Send? && Open(c) then s.data else []
  {
    hide Keep;
    if s.Send? && Open(c) && !Breaks(c, s.k) {
      var n := Taken(c, s.k);
      KeepLeaves(Offered(c, s.data, s.k), s.data[n..]);
    }
  }

  lemma {:induction false} RunKeeps(c: Conn, run: seq<Step>)
    requires Inv(c) && CanAll(c, run)
    ensures Inv(DoAll(c, run))
    ensures DoAll(c, run).accepted == c.accepted + Messages(c, run)
    decreases |run|
  {
    hide Can, Do, Inv;
    if run != [] {
      var d := Do(c, run[0]);
      StepKeeps(c, run[0]);
      StepAccepts(c, run[0]);
      RunKeeps(d, run[1..]);
      var m := if run[0].Send? && Open(c) then run[0].data else [];
      assert c.accepted + m + Messages(d, run[1..]) == c.accepted + (m + Messages(d, run[1..]));
    }
  }

  /** Over every run of a new connection, with any partial writes and errors: while it is open
      the wire followed by the output buffer is the concatenation of the messages, in order;
      after it is closed, for a fatal error or otherwise, the wire is a prefix of it. */
  lemma StreamConserved(mark: nat, wantsComplete: bool, wantsHigh: bool, run: seq<Step>)
    requires CanAll(Fresh(mark, wantsComplete, wantsHigh), run)
    ensures var s := Fresh(mark, wantsComplete, wantsHigh);
            var c := DoAll(s, run);
            && (Open(c) ==> c.wire + c.out == Messages(s, run))
            && c.wire <= Messages(s, run)
            && (Open(c) ==> (Writable in c.events <==> c.out != []) && (c.attached <==> c.events != {}))
  {
    hide CanAll, DoAll, Messages;
    var s := Fresh(mark, wantsComplete, wantsHigh);
    RunKeeps(s, run);
    var c := DoAll(s, run);
    assert [] + Messages(s, run) == Messages(s, run);
    if Open(c) {
      assert c.wire <= c.wire + c.out;
    }
  }

  // ---------- when a connection stays open ----------

  /** What ends a connection that has `waiting` bytes to send. */
  predicate Ends(waiting: nat, s: Step) {
    || s.FinishClose?
    || (s.WriteEvent? && s.k.n <= 0 && s.k.errno != Retriable)
    || (s.Send? && waiting == 0 && s.k.n < 0 && s.k.errno == Broken)
  }

  /** An open connection ends with a close, with a fatal error while the backlog is written, and
      with a broken connection while a message is sent at once; with nothing else. */
  lemma EndsIff(c: Conn, s: Step)
    requires Inv(c) && Open(c) && Can(c, s)
    ensures !Open(Do(c, s)) <==> Ends(|c.out|, s)
    ensures !Open(Do(c, s)) ==> Do(c, s).closed && Do(c, s).events == {}
  {
    hide Keep, Offered;
    if s.Send? && !Breaks(c, s.k) {
      KeepOpen(Offered(c, s.data, s.k), s.data[Taken(c, s.k)..]);
      OfferOpen(c, s.data, s.k);
    }
  }

  lemma KeepOpen(c: Conn, rest: bytes)
    ensures Keep(c, rest).status == c.status && Keep(c, rest).closed == c.closed
    ensures Readable in Keep(c, rest).events <==> Readable in c.events
  {
  }

  lemma OfferOpen(c: Conn, data: bytes, k: Kernel)
    requires k.n <= |data|
    ensures Offered(c, data, k).status == c.status && Offered(c, data, k).closed == c.closed
    ensures Offered(c, data, k).events == c.events
  {
  }

  /** A connection that is closed stays closed. */
  lemma {:induction false} ClosedForGood(c: Conn, run: seq<Step>)
    requires c.closed && !Open(c) && CanAll(c, run)
    ensures DoAll(c, run).closed && !Open(DoAll(c, run))
    decreases |run|
  {
    if run != [] {
      ClosedForGood(Do(c, run[0]), run[1..]);
    }
  }

  /** No step of a run ends the connection. */
  predicate Survives(c: Conn, run: seq<Step>)
    requires CanAll(c, run)
    decreases |run|
  {
    run == [] || (!Ends(|c.out|, run[0]) && Survives(Do(c, run[0]), run[1..]))
  }

  lemma {:induction false} RunEndsIff(c: Conn, run: seq<Step>)
    requires Inv(c) && Open(c) && CanAll(c, run)
    ensures Open(DoAll(c, run)) <==> Survives(c, run)
    decreases |run|
  {
    hide Can, Do, Inv, Ends;
    if run != [] {
      var d := Do(c, run[0]);
      EndsIff(c, run[0]);
      StepKeeps(c, run[0]);
      if Open(d) {
        RunEndsIff(d, run[1..]);
      } else {
        ClosedForGood(d, run[1..]);
      }
    }
  }

  /** A step that never ends a connection: a send or a write that the kernel takes in part, or
      not for the moment. */
  predicate Harmless(s: Step) {
    match s
    case Send(_, k) => k.n >= 0 || k.errno == Retriable
    case WriteEvent(k) => k.n > 0 || k.errno == Retriable
    case _ => !s.FinishClose?
  }

  lemma {:induction false} HarmlessSurvives(c: Conn, run: seq<Step>)
    requires CanAll(c, run) && forall i :: 0 <= i < |run| ==> Harmless(run[i])
    ensures Survives(c, run)
    decreases |run|
  {
    if run != [] {
      assert Harmless(run[0]);
      HarmlessSurvives(Do(c, run[0]), run[1..]);
    }
  }

  /** After Attach, with partial writes and retriable errors only, the connection is open at the
      end, nothing is lost and the loop is told of exactly the bytes that wait. */
  lemma StaysOpen(mark: nat, wantsComplete: bool, wantsHigh: bool, run: seq<Step>)
    requires CanAll(Fresh(mark, wantsComplete, wantsHigh), [Attach] + run)
    requires forall i :: 0 <= i < |run| ==> Harmless(run[i])
    ensures var s := Fresh(mark, wantsComplete, wantsHigh);
            var c := DoAll(s, [Attach] + run);
            && Open(c) && c.wire + c.out == Messages(s, [Attach] + run)
            && (Writable in c.events <==> c.out != [])
  {
    hide Harmless;
    var s := Fresh(mark, wantsComplete, wantsHigh);
    assert ([Attach] + run)[1..] == run;
    var d := Do(s, Attach);
    StepKeeps(s, Attach);
    HarmlessSurvives(d, run);
    RunEndsIff(d, run);
    StreamConserved(mark, wantsComplete, wantsHigh, [Attach] + run);
  }

  // ---------- reading and closing ----------

  lemma StepInterest(c: Conn, s: Step)
    requires Inv(c) && Open(c) && Can(c, s) && Open(Do(c, s))
    ensures Readable in Do(c, s).events <==> Readable in c.events && !s.StopReading?
    ensures Do(c, s).status == Connected <==> c.status == Connected && !s.BeginClose?
  {
    hide Keep, Offered;
    if s.Send? && !Breaks(c, s.k) {
      KeepOpen(Offered(c, s.data, s.k), s.data[Taken(c, s.k)..]);
      OfferOpen(c, s.data, s.k);
    }
  }

  /** While a connection is open the loop is told to read from it unless the peer has shut down
      its side, and it is connected unless a close has begun. */
  lemma {:induction false} Interested(c: Conn, run: seq<Step>)
    requires Inv(c) && Open(c) && CanAll(c, run) && Open(DoAll(c, run))
    ensures var d := DoAll(c, run);
            && (Readable in d.events <==> Readable in c.events && StopReading !in run)
            && (d.status == Connected <==> c.status == Connected && BeginClose !in run)
    decreases |run|
  {
    hide Can, Do, Inv;
    if run != [] {
      var d := Do(c, run[0]);
      if !Open(d) {
        assert d.closed by { EndsIff(c, run[0]); }
        ClosedForGood(d, run[1..]);
      } else {
        StepKeeps(c, run[0]);
        StepInterest(c, run[0]);
        Interested(d, run[1..]);
        assert run == [run[0]] + run[1..];
      }
    }
  }

  /** Attaching tells the loop to read. */
  lemma AttachReads(mark: nat, wantsComplete: bool, wantsHigh: bool)
    ensures var s := Fresh(mark, wantsComplete, wantsHigh);
            Can(s, Attach) && Do(s, Attach).events == {Readable} && Do(s, Attach).status == Connected
  {
  }
}
