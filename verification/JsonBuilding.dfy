/** On every text, accepted or not, the reader never makes the document pop more than its
    stack holds. */
module JsonBuilding {
  import opened Bytes
  import opened JsonEvents
  import opened JsonRecursive
  import opened JsonIterative
  import opened JsonEquivalence
  import opened JsonDocument
  import JsonNumber
  import JsonRoot

  /** Values the innermost open container has on the document's stack: an element takes one
      slot, a member two, a name one. */
  function TopOwed(s: State, count: nat): nat {
    match s
    case ObjectInitialState => 2 * count
    case MemberKeyState => 2 * count + 1
    case KeyValueDelimiterState => 2 * count + 1
    case MemberValueState => 2 * count + 2
    case MemberDelimiterState => 2 * count
    case ElementState => count + 1
    case _ => count
  }

  /** The slots of the outermost `n` containers, each with another one open inside it. */
  function LowerOwed(stack: seq<Frame>, n: nat): nat
    requires n < |stack| || n == 0
  {
    if n == 0 then 0
    else
      var c := stack[n - 1].count;
      LowerOwed(stack, n - 1) + 1 + (if stack[n].back == ElementState then c else 2 * c + 1)
  }

  /** The slots that a configuration of the automaton counts on. */
  function Owed(s: State, stack: seq<Frame>): nat {
    if stack == [] then 0
    else LowerOwed(stack, |stack| - 1) + 1 + TopOwed(s, stack[|stack| - 1].count)
  }

  lemma {:induction false} LowerAgrees(a: seq<Frame>, b: seq<Frame>, n: nat)
    requires n < |a| && n < |b| && a[..n] == b[..n] && a[n].back == b[n].back
    ensures LowerOwed(a, n) == LowerOwed(b, n)
  {
    if n > 0 {
      assert a[..n - 1] == a[..n][..n - 1] && b[..n - 1] == b[..n][..n - 1];
      assert a[n - 1] == a[..n][n - 1] && b[n - 1] == b[..n][n - 1];
      LowerAgrees(a, b, n - 1);
    }
  }

  lemma OpenOwed(s: State, stack: seq<Frame>, d: State)
    requires Expects(s) && (s == StartState <==> stack == []) && d in {ObjectInitialState, ArrayInitialState}
    ensures Owed(d, stack + [Frame(Back(s), 0)]) <= Owed(s, stack) + 1
  {
    var f := stack + [Frame(Back(s), 0)];
    if stack != [] {
      LowerAgrees(f, stack, |stack| - 1);
    }
  }

  lemma CloseOwed(stack: seq<Frame>)
    requires StackOk(stack) && stack != []
    ensures Owed(Outside(stack), stack[..|stack| - 1]) <= LowerOwed(stack, |stack| - 1) + 1
  {
    hide StackOk, LowerOwed;
    var n := |stack| - 1;
    CloseOk(stack);
    if n > 0 {
      var below := stack[..n];
      assert below[n - 1] == stack[n - 1] && below[..n - 1] == stack[..n - 1];
      LowerAgrees(stack, below, n - 1);
      LowerNext(stack, n);
    }
  }

  lemma LowerNext(stack: seq<Frame>, n: nat)
    requires 0 < n < |stack|
    ensures LowerOwed(stack, n) ==
              LowerOwed(stack, n - 1) + 1 +
              (if stack[n].back == ElementState then stack[n - 1].count as nat else 2 * stack[n - 1].count + 1)
  {
  }

  lemma BumpOwed(stack: seq<Frame>, s: State, d: State)
    requires stack != []
    requires (s == ElementState && d == ElementDelimiterState) || (s == MemberValueState && d == MemberDelimiterState)
    ensures Owed(d, Bump(stack)) <= Owed(s, stack)
  {
    LowerAgrees(stack, Bump(stack), |stack| - 1);
  }

  // ---------- one event ----------

  /** How many slots an event takes from the stack, and how many it leaves more. */
  function Takes(e: Event): nat {
    match e
    case EndObject(n) => 2 * n
    case EndArray(n) => n
    case _ => 0
  }

  lemma HandleHeight(stack: seq<Value>, e: Event)
    requires if IsEnd(e) then |stack| >= Takes(e) + 1 else Pushed(e).Some?
    ensures var r := Handle(stack, e);
            r.Some? && |r.value| == if IsEnd(e) then |stack| - Takes(e) else |stack| + 1
  {
  }

  lemma TokenPushes(t: bytes, p: nat)
    requires p <= |t| && ParseToken(t, p).Good?
    ensures Pushed(ParseToken(t, p).event).Some? && !IsEnd(ParseToken(t, p).event)
  {
    hide JsonNumber.ParseNumber, ParseString;
    if Peek(t, p) == QUOTE {
      assert ParseString(t, p, false).event.String? by { StringKind(t, p, false); }
    } else if Peek(t, p) !in {LOWER_N, LOWER_T, LOWER_F} {
      JsonRoot.NumberFits(t, p);
    }
  }

  lemma StringKind(t: bytes, p: nat, isKey: bool)
    requires p < |t| && t[p] == QUOTE && ParseString(t, p, isKey).Good?
    ensures var e := ParseString(t, p, isKey).event;
            if isKey then e.Key? else e.String?
  {
  }

  /** The builder gets through the events of `log`, leaving at least `n` values. */
  predicate Builds(log: seq<Event>, n: nat) {
    var r := Build([], log);
    r.Some? && |r.value| >= n
  }

  lemma BuildsOne(log: seq<Event>, n: nat, e: Event, m: nat)
    requires Builds(log, n)
    requires if IsEnd(e) then n >= Takes(e) + 1 && n - Takes(e) >= m else Pushed(e).Some? && n + 1 >= m
    ensures Builds(log + [e], m)
  {
    hide Handle, Pushed;
    var s := Build([], log).value;
    BuildConcat([], log, [e]);
    BuildOne(s, e);
    HandleHeight(s, e);
  }

  /** A move delivers at most one event, and the builder can take it. */
  predicate MoveBuilds(m: Move) {
    match m
    case Stop(code, log) => Builds(log, 0)
    case NoRule => true
    case Moved(c) => Builds(c.log, Owed(c.state, c.stack))
  }

  lemma StepBuilds(t: bytes, c: Config)
    requires Coherent(c) && c.pos < |t| && Builds(c.log, Owed(c.state, c.stack))
    ensures MoveBuilds(Step(t, AcceptAll(), c))
  {
    hide StackOk, Owed, Builds, ParseToken, ParseString, Tokenize;
    var k := Tokenize(t[c.pos]);
    var d := Predict(c.state, k);
    var n := Owed(c.state, c.stack);
    if d in {ObjectInitialState, ArrayInitialState} {
      PredictFrom(c.state, k);
      OpenOwed(c.state, c.stack, d);
      var e := if d == ObjectInitialState then StartObject else StartArray;
      BuildsOne(c.log, n, e, Owed(d, c.stack + [Frame(Back(c.state), 0)]));
    } else if d in {ObjectFinishState, ArrayFinishState} {
      CloseBuilds(t, c, d);
    } else if d in {MemberDelimiterState, ElementDelimiterState} {
      BumpOwed(c.stack, c.state, d);
      BuildsLess(c.log, n, Owed(d, Bump(c.stack)));
    } else if d == KeyValueDelimiterState {
      ColonOwed(c.stack);
    } else if d != ErrorState {
      ScalarBuilds(t, c, d);
    }
  }

  lemma BuildsLess(log: seq<Event>, n: nat, m: nat)
    requires Builds(log, n) && m <= n
    ensures Builds(log, m)
  {
  }

  lemma ColonOwed(stack: seq<Frame>)
    ensures Owed(KeyValueDelimiterState, stack) == Owed(MemberKeyState, stack)
  {
  }

  lemma CloseBuilds(t: bytes, c: Config, d: State)
    requires Coherent(c) && c.pos < |t| && Builds(c.log, Owed(c.state, c.stack))
    requires d == Predict(c.state, Tokenize(t[c.pos])) && d in {ObjectFinishState, ArrayFinishState}
    ensures MoveBuilds(Step(t, AcceptAll(), c))
  {
    hide StackOk, Builds, Tokenize, LowerOwed;
    CloseOwed(c.stack);
    var top := c.stack[|c.stack| - 1];
    var full := c.state == MemberValueState || c.state == ElementState;
    var count := if full then Inc(top.count) else top.count;
    var e := if d == ObjectFinishState then EndObject(count) else EndArray(count);
    BuildsOne(c.log, Owed(c.state, c.stack), e, Owed(Outside(c.stack), c.stack[..|c.stack| - 1]));
  }

  lemma ScalarBuilds(t: bytes, c: Config, d: State)
    requires Coherent(c) && c.pos < |t| && Builds(c.log, Owed(c.state, c.stack))
    requires d == Predict(c.state, Tokenize(t[c.pos]))
    requires d in {MemberKeyState, MemberValueState, ElementState, ValueState}
    ensures MoveBuilds(Step(t, AcceptAll(), c))
  {
    hide StackOk, Builds, ParseToken, ParseString, LowerOwed;
    var n := Owed(c.state, c.stack);
    BuildsLess(c.log, n, 0);
    if d == MemberKeyState {
      if ParseString(t, c.pos, true).Good? {
        StringKind(t, c.pos, true);
        BuildsOne(c.log, n, ParseString(t, c.pos, true).event, Owed(d, c.stack));
      }
    } else if ParseToken(t, c.pos).Good? {
      TokenPushes(t, c.pos);
      BuildsOne(c.log, n, ParseToken(t, c.pos).event, Owed(if d == ValueState then FinishState else d, c.stack));
    }
  }

  lemma {:induction false} RunBuilds(t: bytes, c: Config)
    requires Coherent(c) && c.pos <= |t| && Builds(c.log, Owed(c.state, c.stack))
    ensures Builds(Run(t, AcceptAll(), c).log, 0)
    decreases |t| - c.pos
  {
    hide Step, Owed, Builds, SkipSpace, StackOk;
    BuildsLess(c.log, Owed(c.state, c.stack), 0);
    var d := Look(t, c);
    if Peek(t, d.pos) != NUL {
      StepCoherent(t, AcceptAll(), d);
      StepBuilds(t, d);
      var m := Step(t, AcceptAll(), d);
      if m.Moved? {
        RunBuilds(t, m.config);
      }
    }
  }

  /** No text makes the document's handlers pop what is not there or take a number that its
      constructors do not. */
  lemma BuilderNeverFails(t: bytes)
    ensures Build([], Parse(t, AcceptAll()).log).Some?
  {
    hide Run, Parse;
    RunBuilds(t, INITIAL);
    TableAgrees(t, AcceptAll());
  }
}
