/** When the write-complete and high-water callbacks are queued. */
module TcpCallbacks {
  import opened Bytes
  import opened TcpStream

  /** What a step adds to the loop's queue. */
  function Fired(c: Conn, s: Step): seq<Callback>
    requires Can(c, s)
  {
    var d := Do(c, s);
    if |c.queued| <= |d.queued| then d.queued[|c.queued|..] else []
  }

  /** What a message that is not refused puts in the queue. */
  function SendFires(c: Conn, data: bytes, k: Kernel): seq<Callback> {
    var n := |c.out| + |data| - Taken(c, k);
    (if c.wantsComplete && SentWhole(c, data, k) then [WriteComplete] else []) +
    (if c.wantsHigh && Taken(c, k) < |data| && |c.out| < c.mark <= n then [HighWater(n)] else [])
  }

  lemma SendQueues(c: Conn, data: bytes, k: Kernel)
    requires k.n <= |data| && Open(c) && !Breaks(c, k)
    ensures SendInLoop(c, data, k).queued == c.queued + SendFires(c, data, k)
  {
    hide Keep;
    var n := Taken(c, k);
    KeepLeaves(Offered(c, data, k), data[n..]);
    assert |data[n..]| == |data| - n;
  }

  /** The queue only grows, by what HandleWrite or SendInLoop adds. */
  lemma FiredIs(c: Conn, s: Step)
    requires Can(c, s)
    ensures Do(c, s).queued == c.queued + Fired(c, s)
    ensures Fired(c, s) ==
            match s
            case Send(data, k) => if !Open(c) || Breaks(c, k) then [] else SendFires(c, data, k)
            case WriteEvent(k) => if c.wantsComplete && k.n > 0 && k.n == |c.out| then [WriteComplete] else []
            case _ => []
  {
    hide Keep, SendFires;
    if s.Send? {
      if Open(c) && !Breaks(c, s.k) {
        SendQueues(c, s.data, s.k);
        var d := Do(c, s);
        assert (c.queued + SendFires(c, s.data, s.k))[|c.queued|..] == SendFires(c, s.data, s.k);
      } else {
        assert Do(c, s).queued == c.queued;
      }
    }
  }

  /** What a step does to the backlog. */
  lemma BacklogIs(c: Conn, s: Step)
    requires Can(c, s)
    ensures Do(c, s).mark == c.mark
    ensures |Do(c, s).out| ==
            match s
            case Send(data, k) => if !Open(c) || Breaks(c, k) then |c.out| else |c.out| + |data| - Taken(c, k)
            case WriteEvent(k) => if k.n > 0 then |c.out| - k.n else |c.out|
            case _ => |c.out|
  {
    hide Keep;
    if s.Send? && Open(c) && !Breaks(c, s.k) {
      var n := Taken(c, s.k);
      KeepLeaves(Offered(c, s.data, s.k), s.data[n..]);
    }
  }

  /** Write-complete is queued only when the kernel has taken everything ever accepted; and it
      is queued, if wanted, by exactly the steps that drain the buffer or send a message whole
      at once. */
  lemma CompleteMeansCaughtUp(c: Conn, s: Step)
    requires Inv(c) && Can(c, s)
    ensures var d := Do(c, s);
            && (WriteComplete in Fired(c, s) ==> Open(d) && d.wire == d.accepted && d.out == [])
            && (WriteComplete in Fired(c, s) <==>
                  && c.wantsComplete
                  && ((s.WriteEvent? && s.k.n > 0 && s.k.n == |c.out|)
                      || (s.Send? && Open(c) && c.out == [] && s.k.n == |s.data|)))
  {
    hide Do, Fired;
    FiredIs(c, s);
    BacklogIs(c, s);
    StepKeeps(c, s);
    if WriteComplete in Fired(c, s) {
      OpenStays(c, s);
      var d := Do(c, s);
      assert d.wire + [] == d.wire;
    }
  }

  lemma OpenStays(c: Conn, s: Step)
    requires Inv(c) && Can(c, s)
    requires (s.WriteEvent? && s.k.n > 0) || (s.Send? && Open(c) && s.k.n >= 0)
    ensures Open(Do(c, s))
  {
  }

  predicate FiresHigh(c: Conn, s: Step)
    requires Can(c, s)
  {
    exists i :: 0 <= i < |Fired(c, s)| && Fired(c, s)[i].HighWater?
  }

  /** The high-water callback is queued exactly when the backlog reaches the mark from below,
      and says how long the backlog then is. */
  lemma HighMeansCrossing(c: Conn, s: Step)
    requires Inv(c) && Can(c, s)
    ensures var d := Do(c, s);
            && (FiresHigh(c, s) <==> c.wantsHigh && |c.out| < c.mark <= |d.out|)
            && (forall i :: 0 <= i < |Fired(c, s)| && Fired(c, s)[i].HighWater? ==> Fired(c, s)[i].size == |d.out|)
            && d.mark == c.mark
  {
    hide Inv, Do, Fired;
    FiredIs(c, s);
    BacklogIs(c, s);
    var d := Do(c, s);
    if c.wantsHigh && |c.out| < c.mark <= |d.out| {
      assert Fired(c, s)[|Fired(c, s)| - 1] == HighWater(|d.out|);
    }
  }

  /** The states a run passes through; state i is the one before step i. */
  function StateAt(c: Conn, run: seq<Step>, i: nat): Conn
    requires CanAll(c, run) && i <= |run|
    decreases i
  {
    if i == 0 then c else StateAt(Do(c, run[0]), run[1..], i - 1)
  }

  lemma {:induction false} StateAtStep(c: Conn, run: seq<Step>, i: nat)
    requires CanAll(c, run) && i < |run|
    ensures Can(StateAt(c, run, i), run[i])
    ensures StateAt(c, run, i + 1) == Do(StateAt(c, run, i), run[i])
    decreases i
  {
    if i == 0 {
      assert StateAt(c, run, 1) == StateAt(Do(c, run[0]), run[1..], 0);
    } else {
      StateAtStep(Do(c, run[0]), run[1..], i - 1);
      assert run[1..][i - 1] == run[i];
    }
  }

  lemma {:induction false} StateAtOk(c: Conn, run: seq<Step>, i: nat)
    requires CanAll(c, run) && i <= |run| && Inv(c)
    ensures Inv(StateAt(c, run, i)) && StateAt(c, run, i).mark == c.mark
    decreases i
  {
    hide Can, Do, Inv;
    if i > 0 {
      StateAtOk(c, run, i - 1);
      StateAtStep(c, run, i - 1);
      StepKeeps(StateAt(c, run, i - 1), run[i - 1]);
      HighMeansCrossing(StateAt(c, run, i - 1), run[i - 1]);
    }
  }

  /** A backlog that is at the mark at i and below it at j went below it at some write event in
      between. */
  lemma {:induction false} FallsBetween(c: Conn, run: seq<Step>, i: nat, j: nat) returns (k: nat)
    requires CanAll(c, run) && i <= j <= |run| && Inv(c)
    requires |StateAt(c, run, i).out| >= c.mark > |StateAt(c, run, j).out|
    ensures i <= k < j && run[k].WriteEvent?
    ensures |StateAt(c, run, k).out| >= c.mark > |StateAt(c, run, k + 1).out|
    decreases j - i
  {
    StateAtStep(c, run, i);
    if |StateAt(c, run, i + 1).out| >= c.mark {
      k := FallsBetween(c, run, i + 1, j);
    } else {
      k := i;
      BacklogIs(StateAt(c, run, i), run[i]);
    }
  }

  /** Between two firings of the high-water callback the kernel took enough for the backlog to
      fall below the mark. */
  lemma BacklogFellBetween(c: Conn, run: seq<Step>, i: nat, j: nat) returns (k: nat)
    requires Inv(c) && CanAll(c, run) && i < j < |run|
    requires Can(StateAt(c, run, i), run[i]) && FiresHigh(StateAt(c, run, i), run[i])
    requires Can(StateAt(c, run, j), run[j]) && FiresHigh(StateAt(c, run, j), run[j])
    ensures i < k < j && run[k].WriteEvent?
    ensures |StateAt(c, run, k).out| >= c.mark > |StateAt(c, run, k + 1).out|
  {
    hide Can, Do, Inv, FiresHigh, CanAll, StateAt;
    StateAtOk(c, run, i);
    StateAtOk(c, run, j);
    HighMeansCrossing(StateAt(c, run, i), run[i]);
    HighMeansCrossing(StateAt(c, run, j), run[j]);
    StateAtStep(c, run, i);
    k := FallsBetween(c, run, i + 1, j);
  }
}
