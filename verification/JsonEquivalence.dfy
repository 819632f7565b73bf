/** The table refines the recursive reader: same events, same verdict. */
module JsonEquivalence {
  import opened Bytes
  import opened JsonEvents
  import opened JsonRecursive
  import opened JsonIterative
  import JsonNumber

  predicate Expects(s: State) {
    s in {StartState, ArrayInitialState, ElementDelimiterState, KeyValueDelimiterState}
  }

  function After(s: State): State
    requires Expects(s)
  {
    if s == StartState then FinishState else Back(s)
  }

  /** The state in which the container on top of the stack is left. */
  function Outside(stack: seq<Frame>): State
    requires |stack| > 0
  {
    var back := stack[|stack| - 1].back;
    if back == StartState then FinishState else back
  }

  /** The readers name failures alike, except that where a value is missing the recursive one
      says ValueInvalid and the table names the state it is in. */
  predicate SameFailure(recursive: ErrorCode, iterative: ErrorCode) {
    || recursive == iterative
    || (recursive == ValueInvalid && iterative in {DocumentEmpty, UnspecificSyntaxError})
  }

  /** `o` is how the recursive reader leaves a construct that the table entered in
      configuration `c`, to leave it in state `s` with stack `k`. */
  predicate Tracks(t: bytes, h: Handler, c: Config, o: Outcome, s: State, k: seq<Frame>)
    requires Coherent(c) && c.pos <= |t|
    requires o.Done? ==> o.next <= |t|
  {
    match o
    case Fail(code, log) => (var r := Run(t, h, c); r.Fail? && r.log == log && SameFailure(code, r.code))
    case Done(q, log) => (var d := Config(s, q, k, log); Coherent(d) && Run(t, h, c) == Run(t, h, d))
  }

  /** Positions at which the loop looks at the input. */
  predicate At(t: bytes, c: Config) {
    Coherent(c) && c.pos <= |t| && !IsSpace(Peek(t, c.pos))
  }

  function Look(t: bytes, c: Config): Config
    requires c.pos <= |t|
  {
    c.(pos := SkipSpace(t, c.pos))
  }

  // ---------- one turn of the loop ----------

  lemma NoValueHere(t: bytes, p: nat)
    requires p <= |t|
    requires Peek(t, p) in {NUL, RBRACKET, RBRACE, COMMA, COLON}
    ensures ParseToken(t, p) == Bad(ValueInvalid)
  {
  }

  predicate Unfolds(t: bytes, h: Handler, c: Config, m: Move)
    requires Coherent(c) && c.pos <= |t|
  {
    match m
    case Stop(code, log) => Run(t, h, c) == Fail(code, log)
    case NoRule => Run(t, h, c) == Fail(HandleError(c.state), c.log)
    case Moved(d) => Coherent(d) && d.pos <= |t| && Run(t, h, c) == Run(t, h, d)
  }

  /** Where the loop looks at the input, one step is one unfolding of Run. */
  lemma RunAt(t: bytes, h: Handler, c: Config)
    requires At(t, c)
    ensures Peek(t, c.pos) == NUL && c.state != FinishState ==>
              Run(t, h, c) == Fail(HandleError(c.state), c.log)
    ensures Peek(t, c.pos) != NUL ==> Unfolds(t, h, c, Step(t, h, c))
  {
    SkipSpaceUnique(t, c.pos, c.pos);
    if Peek(t, c.pos) != NUL {
      StepCoherent(t, h, c);
    }
  }

  /** Skipping white space first makes no difference. */
  lemma RunSkips(t: bytes, h: Handler, c: Config)
    requires Coherent(c) && c.pos <= |t|
    ensures At(t, Look(t, c))
    ensures Run(t, h, c) == Run(t, h, Look(t, c))
  {
    SkipSpaceIdem(t, c.pos);
  }

  /** No rule, or no input: the loop ends with the code of the state. */
  lemma Stuck(t: bytes, h: Handler, c: Config)
    requires At(t, c) && c.state != FinishState
    requires Peek(t, c.pos) == NUL || Predict(c.state, Tokenize(Peek(t, c.pos))) == ErrorState
    ensures Run(t, h, c) == Fail(HandleError(c.state), c.log)
  {
    hide Run, StackOk, SkipSpace;
    RunAt(t, h, c);
  }

  /** A value that is not a container. */
  lemma TokenMoves(t: bytes, h: Handler, c: Config)
    requires At(t, c) && Expects(c.state)
    requires Peek(t, c.pos) !in {NUL, RBRACKET, RBRACE, COMMA, COLON, LBRACKET, LBRACE}
    ensures Tracks(t, h, c, DeliverToken(h, c.log, ParseToken(t, c.pos)), After(c.state), c.stack)
  {
    hide Run, StackOk, SkipSpace;
    RunAt(t, h, c);
  }

  lemma OpenMoves(t: bytes, h: Handler, c: Config, isObject: bool)
    requires At(t, c) && Expects(c.state)
    requires Peek(t, c.pos) == if isObject then LBRACE else LBRACKET
    ensures var start := Deliver(h, c.log, if isObject then StartObject else StartArray, c.pos + 1);
            var d := Config(if isObject then ObjectInitialState else ArrayInitialState,
                            c.pos + 1, c.stack + [Frame(Back(c.state), 0)], start.log);
            if start.Fail? then Run(t, h, c) == start
            else At(t, Look(t, d)) && Run(t, h, c) == Run(t, h, Look(t, d))
  {
    hide Run, StackOk, SkipSpace;
    RunAt(t, h, c);
    var start := Deliver(h, c.log, if isObject then StartObject else StartArray, c.pos + 1);
    if start.Done? {
      RunSkips(t, h, Config(if isObject then ObjectInitialState else ArrayInitialState,
                            c.pos + 1, c.stack + [Frame(Back(c.state), 0)], start.log));
    }
  }

  lemma CloseMoves(t: bytes, h: Handler, c: Config, isObject: bool)
    requires At(t, c)
    requires c.state in (if isObject then {ObjectInitialState, MemberValueState} else {ArrayInitialState, ElementState})
    requires Peek(t, c.pos) == if isObject then RBRACE else RBRACKET
    ensures var n := |c.stack| - 1;
            var full := c.state in {MemberValueState, ElementState};
            var count := if full then Inc(c.stack[n].count) else c.stack[n].count;
            var o := Deliver(h, c.log, if isObject then EndObject(count) else EndArray(count), c.pos + 1);
            Tracks(t, h, c, o, Outside(c.stack), c.stack[..n])
  {
    hide Run, StackOk, SkipSpace;
    RunAt(t, h, c);
  }

  lemma CommaMoves(t: bytes, h: Handler, c: Config)
    requires At(t, c) && c.state in {MemberValueState, ElementState} && Peek(t, c.pos) == COMMA
    ensures var s := if c.state == ElementState then ElementDelimiterState else MemberDelimiterState;
            var d := Config(s, c.pos + 1, Bump(c.stack), c.log);
            At(t, Look(t, d)) && Run(t, h, c) == Run(t, h, Look(t, d))
  {
    hide Run, StackOk, SkipSpace;
    RunAt(t, h, c);
    RunSkips(t, h, Config(if c.state == ElementState then ElementDelimiterState else MemberDelimiterState,
                          c.pos + 1, Bump(c.stack), c.log));
  }

  lemma KeyMoves(t: bytes, h: Handler, c: Config)
    requires At(t, c) && c.state in {ObjectInitialState, MemberDelimiterState} && Peek(t, c.pos) == QUOTE
    ensures var key := DeliverToken(h, c.log, ParseString(t, c.pos, true));
            if key.Fail? then Run(t, h, c) == key
            else
              var d := Config(MemberKeyState, key.next, c.stack, key.log);
              At(t, Look(t, d)) && Run(t, h, c) == Run(t, h, Look(t, d))
  {
    hide Run, StackOk, SkipSpace, ParseString;
    RunAt(t, h, c);
    var key := DeliverToken(h, c.log, ParseString(t, c.pos, true));
    if key.Done? {
      RunSkips(t, h, Config(MemberKeyState, key.next, c.stack, key.log));
    }
  }

  lemma ColonMoves(t: bytes, h: Handler, c: Config)
    requires At(t, c) && c.state == MemberKeyState && Peek(t, c.pos) == COLON
    ensures var d := Config(KeyValueDelimiterState, c.pos + 1, c.stack, c.log);
            At(t, Look(t, d)) && Run(t, h, c) == Run(t, h, Look(t, d))
  {
    hide Run, StackOk, SkipSpace;
    RunAt(t, h, c);
    RunSkips(t, h, Config(KeyValueDelimiterState, c.pos + 1, c.stack, c.log));
  }

  // ---------- constructs ----------

  /** A value, wherever one is expected. */
  lemma {:induction false} ValueTracks(t: bytes, h: Handler, c: Config)
    requires At(t, c) && Expects(c.state)
    requires c.state == ArrayInitialState ==> Peek(t, c.pos) != RBRACKET
    ensures Tracks(t, h, c, ParseValue(t, c.pos, h, c.log), After(c.state), c.stack)
    decreases |t| - c.pos, 1
  {
    hide Run, ParseObject, ParseArray;
    if Peek(t, c.pos) in {NUL, RBRACKET, RBRACE, COMMA, COLON} {
      NoValueHere(t, c.pos);
      Stuck(t, h, c);
    } else if Peek(t, c.pos) == LBRACE {
      ObjectTracks(t, h, c);
    } else if Peek(t, c.pos) == LBRACKET {
      ArrayTracks(t, h, c);
    } else {
      TokenMoves(t, h, c);
    }
  }

  /** A construct may be entered from wherever the run leads to it. */
  lemma TracksFrom(t: bytes, h: Handler, c: Config, d: Config, o: Outcome, s: State, k: seq<Frame>)
    requires Coherent(c) && c.pos <= |t| && Coherent(d) && d.pos <= |t| && (o.Done? ==> o.next <= |t|)
    requires Run(t, h, c) == Run(t, h, d) && Tracks(t, h, d, o, s, k)
    ensures Tracks(t, h, c, o, s, k)
  {
    hide Run, StackOk;
  }

  lemma {:induction false} ObjectTracks(t: bytes, h: Handler, c: Config)
    requires At(t, c) && Expects(c.state) && Peek(t, c.pos) == LBRACE
    ensures Tracks(t, h, c, ParseObject(t, c.pos, h, c.log), After(c.state), c.stack)
    decreases |t| - c.pos, 0
  {
    hide Run, ParseMembers, SkipSpace, StackOk;
    OpenMoves(t, h, c, true);
    var start := Deliver(h, c.log, StartObject, c.pos + 1);
    if start.Done? {
      hide Tracks;
      var d := Look(t, Config(ObjectInitialState, c.pos + 1, c.stack + [Frame(Back(c.state), 0)], start.log));
      assert d.stack[..|d.stack| - 1] == c.stack;
      if Peek(t, d.pos) == RBRACE {
        CloseMoves(t, h, d, true);
      } else {
        MembersTrack(t, h, d);
      }
      TracksFrom(t, h, c, d, ParseObject(t, c.pos, h, c.log), After(c.state), c.stack);
    }
  }

  /** The members of an object whose frame is on top of the stack. */
  lemma {:induction false} MembersTrack(t: bytes, h: Handler, c: Config)
    requires At(t, c) && c.state in {ObjectInitialState, MemberDelimiterState}
    requires c.state == ObjectInitialState ==> Peek(t, c.pos) != RBRACE
    ensures var n := |c.stack| - 1;
            Tracks(t, h, c, ParseMembers(t, c.pos, h, c.log, c.stack[n].count), Outside(c.stack), c.stack[..n])
    decreases |t| - c.pos, 0
  {
    hide Run, AfterKey, SkipSpace, StackOk;
    if Peek(t, c.pos) != QUOTE {
      Stuck(t, h, c);
    } else {
      KeyMoves(t, h, c);
      var key := DeliverToken(h, c.log, ParseString(t, c.pos, true));
      if key.Done? {
        ColonTracks(t, h, Look(t, Config(MemberKeyState, key.next, c.stack, key.log)), key.next);
      }
    }
  }

  /** The colon and the value of a member whose key ended at `p`. */
  lemma {:induction false} ColonTracks(t: bytes, h: Handler, c: Config, p: nat)
    requires At(t, c) && c.state == MemberKeyState
    requires p <= |t| && c.pos == SkipSpace(t, p)
    ensures var n := |c.stack| - 1;
            Tracks(t, h, c, AfterKey(t, p, h, c.log, c.stack[n].count), Outside(c.stack), c.stack[..n])
    decreases |t| - c.pos, 0
  {
    hide Run, ParseValue, AfterMember, SkipSpace, StackOk, ParseToken;
    if Peek(t, c.pos) != COLON {
      Stuck(t, h, c);
    } else {
      ColonMoves(t, h, c);
      var d := Look(t, Config(KeyValueDelimiterState, c.pos + 1, c.stack, c.log));
      ValueTracks(t, h, d);
      var value := ParseValue(t, d.pos, h, d.log);
      if value.Done? {
        MemberEnds(t, h, Config(MemberValueState, value.next, c.stack, value.log));
      }
    }
  }

  lemma {:induction false} MemberEnds(t: bytes, h: Handler, c: Config)
    requires Coherent(c) && c.pos <= |t| && c.state == MemberValueState
    ensures var n := |c.stack| - 1;
            Tracks(t, h, c, AfterMember(t, c.pos, h, c.log, Inc(c.stack[n].count)), Outside(c.stack), c.stack[..n])
    decreases |t| - c.pos, 0
  {
    hide Run, ParseMembers, SkipSpace, StackOk, Inc;
    RunSkips(t, h, c);
    var n := |c.stack| - 1;
    var o := AfterMember(t, c.pos, h, c.log, Inc(c.stack[n].count));
    var d := Look(t, c);
    if Peek(t, d.pos) == COMMA {
      hide Tracks;
      CommaMoves(t, h, d);
      var e := Look(t, Config(MemberDelimiterState, d.pos + 1, Bump(c.stack), c.log));
      MembersTrack(t, h, e);
      TracksFrom(t, h, c, e, o, Outside(c.stack), c.stack[..n]);
    } else if Peek(t, d.pos) == RBRACE {
      hide Tracks;
      CloseMoves(t, h, d, true);
      TracksFrom(t, h, c, d, o, Outside(c.stack), c.stack[..n]);
    } else {
      Stuck(t, h, d);
    }
  }

  lemma {:induction false} ArrayTracks(t: bytes, h: Handler, c: Config)
    requires At(t, c) && Expects(c.state) && Peek(t, c.pos) == LBRACKET
    ensures Tracks(t, h, c, ParseArray(t, c.pos, h, c.log), After(c.state), c.stack)
    decreases |t| - c.pos, 0
  {
    hide Run, ParseElements, SkipSpace, StackOk;
    OpenMoves(t, h, c, false);
    var start := Deliver(h, c.log, StartArray, c.pos + 1);
    if start.Done? {
      hide Tracks;
      var d := Look(t, Config(ArrayInitialState, c.pos + 1, c.stack + [Frame(Back(c.state), 0)], start.log));
      assert d.stack[..|d.stack| - 1] == c.stack;
      if Peek(t, d.pos) == RBRACKET {
        CloseMoves(t, h, d, false);
      } else {
        ElementsTrack(t, h, d);
      }
      TracksFrom(t, h, c, d, ParseArray(t, c.pos, h, c.log), After(c.state), c.stack);
    }
  }

  /** The elements of an array whose frame is on top of the stack. */
  lemma {:induction false} ElementsTrack(t: bytes, h: Handler, c: Config)
    requires At(t, c) && c.state in {ArrayInitialState, ElementDelimiterState}
    requires c.state == ArrayInitialState ==> Peek(t, c.pos) != RBRACKET
    ensures var n := |c.stack| - 1;
            Tracks(t, h, c, ParseElements(t, c.pos, h, c.log, c.stack[n].count), Outside(c.stack), c.stack[..n])
    decreases |t| - c.pos, 2
  {
    hide Run, ParseValue, SkipSpace, StackOk;
    ValueTracks(t, h, c);
    var value := ParseValue(t, c.pos, h, c.log);
    if value.Done? {
      ElementEnds(t, h, Config(ElementState, value.next, c.stack, value.log));
    }
  }

  lemma {:induction false} ElementEnds(t: bytes, h: Handler, c: Config)
    requires Coherent(c) && c.pos <= |t| && c.state == ElementState
    ensures var n := |c.stack| - 1;
            Tracks(t, h, c, AfterElement(t, c.pos, h, c.log, Inc(c.stack[n].count)), Outside(c.stack), c.stack[..n])
    decreases |t| - c.pos, 0
  {
    hide Run, ParseElements, SkipSpace, StackOk;
    RunSkips(t, h, c);
    var n := |c.stack| - 1;
    var o := AfterElement(t, c.pos, h, c.log, Inc(c.stack[n].count));
    var d := Look(t, c);
    if Peek(t, d.pos) == COMMA {
      hide Tracks;
      CommaMoves(t, h, d);
      var e := Look(t, Config(ElementDelimiterState, d.pos + 1, Bump(c.stack), c.log));
      ElementsTrack(t, h, e);
      TracksFrom(t, h, c, e, o, Outside(c.stack), c.stack[..n]);
    } else if Peek(t, d.pos) == RBRACKET {
      hide Tracks;
      CloseMoves(t, h, d, false);
      TracksFrom(t, h, c, d, o, Outside(c.stack), c.stack[..n]);
    } else {
      Stuck(t, h, d);
    }
  }

  /** For every text and every handler, however soon it refuses an event, recursive reader and
      table deliver the same events and agree on success; failures differ only in the code for a
      missing value. */
  lemma TableAgrees(t: bytes, h: Handler)
    ensures match Parse(t, h)
            case Done(q, log) => TableParse(t, h) == Done(q, log)
            case Fail(code, log) =>
              var r := TableParse(t, h);
              r.Fail? && r.log == log && SameFailure(code, r.code)
  {
    hide ParseValue;
    RunSkips(t, h, INITIAL);
    var c := Look(t, INITIAL);
    if Peek(t, c.pos) == NUL {
      Stuck(t, h, c);
    } else {
      ValueTracks(t, h, c);
      var value := ParseValue(t, c.pos, h, []);
      if value.Done? {
        var d := Config(FinishState, value.next, [], value.log);
        RunSkips(t, h, d);
        RunAt(t, h, Look(t, d));
      }
    }
  }
}
