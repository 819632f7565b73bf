/** Parse with kParseIterativeFlag on the stack it really has: bytes, on which the frames of the
    automaton and the strings of ParseString lie together. */
module JsonStack {
  import opened Bytes
  import opened JsonEvents
  import opened JsonString
  import opened JsonRecursive
  import opened JsonIterative
  import opened JsonEquivalence
  import JsonNumber

  // ---------- frames as bytes ----------

  /** The enumerators of IterativeParsingState. */
  function StateCode(s: State): (n: u32)
    ensures n <= 13
  {
    match s
    case StartState => 0
    case FinishState => 1
    case ErrorState => 2
    case ObjectInitialState => 3
    case MemberKeyState => 4
    case KeyValueDelimiterState => 5
    case MemberValueState => 6
    case MemberDelimiterState => 7
    case ObjectFinishState => 8
    case ArrayInitialState => 9
    case ElementState => 10
    case ElementDelimiterState => 11
    case ArrayFinishState => 12
    case ValueState => 13
  }

  const STATES: seq<State> :=
    [StartState, FinishState, ErrorState, ObjectInitialState, MemberKeyState, KeyValueDelimiterState,
     MemberValueState, MemberDelimiterState, ObjectFinishState, ArrayInitialState, ElementState,
     ElementDelimiterState, ArrayFinishState, ValueState]

  lemma StateCodes(s: State)
    ensures StateCode(s) < |STATES| && STATES[StateCode(s)] == s
  {
  }

  /** A frame in memory: the state to come back to and, above it, the count, lowest byte first. */
  lemma FrameIs(count: u32)
    ensures FrameBytes(Frame(StartState, count))[..4] == [0, 0, 0, 0]
    ensures FrameBytes(Frame(MemberValueState, count))[..4] == [6, 0, 0, 0]
    ensures FrameBytes(Frame(ElementState, count))[..4] == [10, 0, 0, 0]
    ensures FrameBytes(Frame(ElementState, count))[4..] == WordBytes(count)
  {
  }

  function FrameBytes(f: Frame): (b: bytes)
    ensures |b| == 8
  {
    WordBytes(StateCode(f.back)) + WordBytes(f.count)
  }

  function StackBytes(fs: seq<Frame>): (b: bytes)
    ensures |b| == 8 * |fs|
  {
    if fs == [] then [] else StackBytes(fs[..|fs| - 1]) + FrameBytes(fs[|fs| - 1])
  }

  /** The word that ends `n` bytes below the top. */
  function WordBelow(stack: bytes, n: nat): u32
    requires n + 4 <= |stack|
  {
    BytesWord(stack[|stack| - n - 4..|stack| - n])
  }

  lemma LastTwo(rest: bytes, a: bytes, b: bytes)
    requires |a| == 4 && |b| == 4
    ensures var s := rest + (a + b);
            && s[|s| - 4..|s|] == b && s[|s| - 8..|s| - 4] == a
            && s[..|s| - 8] == rest && s[..|s| - 4] == rest + a
  {
  }

  lemma BumpBytes(fs: seq<Frame>)
    requires fs != []
    ensures var f := fs[|fs| - 1];
            StackBytes(Bump(fs)) == StackBytes(fs[..|fs| - 1]) + FrameBytes(Frame(f.back, Inc(f.count)))
  {
    hide FrameBytes;
    assert Bump(fs)[..|fs| - 1] == fs[..|fs| - 1];
  }

  lemma TopSplits(fs: seq<Frame>)
    requires fs != []
    ensures var b, f, rest := StackBytes(fs), fs[|fs| - 1], StackBytes(fs[..|fs| - 1]);
            var code := WordBytes(StateCode(f.back));
            && b[|b| - 4..|b|] == WordBytes(f.count) && b[|b| - 8..|b| - 4] == code
            && b[..|b| - 8] == rest && b[..|b| - 4] == rest + code
  {
    hide WordBytes, StateCode;
    var f := fs[|fs| - 1];
    LastTwo(StackBytes(fs[..|fs| - 1]), WordBytes(StateCode(f.back)), WordBytes(f.count));
  }

  lemma TopWords(fs: seq<Frame>)
    requires fs != []
    ensures var b, f := StackBytes(fs), fs[|fs| - 1];
            WordBelow(b, 0) == f.count && WordBelow(b, 4) == StateCode(f.back)
  {
    hide WordBytes, BytesWord, StateCode, StackBytes;
    TopSplits(fs);
    WordRoundTrip(fs[|fs| - 1].count);
    WordRoundTrip(StateCode(fs[|fs| - 1].back));
  }

  lemma TopCounted(fs: seq<Frame>)
    requires fs != []
    ensures var b, f := StackBytes(fs), fs[|fs| - 1];
            b[..|b| - 4] + WordBytes(Inc(f.count)) == StackBytes(Bump(fs))
  {
    hide WordBytes, StateCode, StackBytes, Inc, Bump;
    TopSplits(fs);
    BumpBytes(fs);
    var f, rest := fs[|fs| - 1], StackBytes(fs[..|fs| - 1]);
    var code, next := WordBytes(StateCode(f.back)), WordBytes(Inc(f.count));
    assert rest + code + next == rest + (code + next);
  }

  lemma PushFrame(fs: seq<Frame>, f: Frame)
    ensures StackBytes(fs + [f]) == StackBytes(fs) + FrameBytes(f)
  {
    assert (fs + [f])[..|fs|] == fs;
  }

  // ---------- the loop ----------

  datatype Spot = Spot(state: State, pos: nat, stack: bytes, log: seq<Event>)

  /** Result of Transit and HandleError: an error, or the next spot. Where a popped word names no
      state, or the stack holds no word to pop, what happens is undetermined. */
  datatype Turn =
    | Halted(code: ErrorCode, log: seq<Event>)
    | Turned(spot: Spot)

  function TurnTo(o: Outcome, s: State, stack: bytes): Turn {
    match o
    case Fail(code, log) => Halted(code, log)
    case Done(next, log) => Turned(Spot(s, next, stack, log))
  }

  /** What the token at `p` leaves on the stack. */
  function Residue(t: bytes, p: nat): bytes
    requires p < |t|
  {
    if t[p] == QUOTE && ScanString(t, p + 1).StrScan? then Litter(ScanString(t, p + 1).str) else []
  }

  function Close(h: Handler, c: Spot, full: State, isObject: bool): Turn {
    if |c.stack| < 8 then Halted(Undetermined, c.log)
    else
      var top := WordBelow(c.stack, 0);
      var count := if c.state == full then Inc(top) else top;
      var back := WordBelow(c.stack, 4);
      var o := Deliver(h, c.log, if isObject then EndObject(count) else EndArray(count), c.pos + 1);
      if o.Fail? then Halted(o.code, o.log)
      else if back >= |STATES| then Halted(Undetermined, o.log)
      else if STATES[back] == ErrorState then Halted(HandleError(c.state), o.log)
      else TurnTo(o, if STATES[back] == StartState then FinishState else STATES[back], c.stack[..|c.stack| - 8])
  }

  function Turning(t: bytes, h: Handler, c: Spot, d: State): Turn
    requires c.pos < |t| && d == Predict(c.state, Tokenize(t[c.pos]))
  {
    match d
    case ErrorState => Halted(HandleError(c.state), c.log)
    case ObjectInitialState =>
      TurnTo(Deliver(h, c.log, StartObject, c.pos + 1), d, c.stack + FrameBytes(Frame(Back(c.state), 0)))
    case ArrayInitialState =>
      TurnTo(Deliver(h, c.log, StartArray, c.pos + 1), d, c.stack + FrameBytes(Frame(Back(c.state), 0)))
    case MemberKeyState =>
      TurnTo(DeliverToken(h, c.log, ParseString(t, c.pos, true)), d, c.stack + Residue(t, c.pos))
    case KeyValueDelimiterState =>
      Turned(Spot(d, c.pos + 1, c.stack, c.log))
    case MemberValueState =>
      TurnTo(DeliverToken(h, c.log, ParseToken(t, c.pos)), d, c.stack + Residue(t, c.pos))
    case ElementState =>
      TurnTo(DeliverToken(h, c.log, ParseToken(t, c.pos)), d, c.stack + Residue(t, c.pos))
    case MemberDelimiterState => Count(c, d)
    case ElementDelimiterState => Count(c, d)
    case ObjectFinishState => Close(h, c, MemberValueState, true)
    case ArrayFinishState => Close(h, c, ElementState, false)
    case _ =>
      TurnTo(DeliverToken(h, c.log, ParseToken(t, c.pos)), FinishState, c.stack + Residue(t, c.pos))
  }

  /** A comma: the word on top is counted up. */
  function Count(c: Spot, d: State): Turn {
    if |c.stack| < 4 then Halted(Undetermined, c.log)
    else
      var n := |c.stack| - 4;
      Turned(Spot(d, c.pos + 1, c.stack[..n] + WordBytes(Inc(WordBelow(c.stack, 0))), c.log))
  }

  lemma TurnAdvances(t: bytes, h: Handler, c: Spot)
    requires c.pos < |t|
    ensures var m := Turning(t, h, c, Predict(c.state, Tokenize(t[c.pos])));
            m.Turned? ==> c.pos < m.spot.pos <= |t|
  {
    hide Predict, ParseToken, ParseString, FrameBytes, Residue, WordBytes, BytesWord;
    PredictKey(c.state, t[c.pos]);
  }

  lemma PredictKey(s: State, b: byte)
    ensures Predict(s, Tokenize(b)) == MemberKeyState ==> b == QUOTE
  {
  }

  lemma PredictValue(s: State, b: byte)
    ensures Predict(s, Tokenize(b)) in {MemberValueState, ElementState, ValueState} ==> b !in {LBRACE, LBRACKET}
  {
  }

  function RunFrom(t: bytes, h: Handler, c: Spot): (r: Outcome)
    requires c.pos <= |t|
    decreases |t| - c.pos
  {
    var d := c.(pos := SkipSpace(t, c.pos));
    if Peek(t, d.pos) == NUL then
      if d.state == FinishState then Done(d.pos, d.log) else Fail(HandleError(d.state), d.log)
    else
      TurnAdvances(t, h, d);
      match Turning(t, h, d, Predict(d.state, Tokenize(t[d.pos])))
      case Halted(code, log) => Fail(code, log)
      case Turned(e) => RunFrom(t, h, e)
  }

  /** Parse with kParseIterativeFlag. */
  function IterativeParse(t: bytes, h: Handler): (r: Outcome) {
    RunFrom(t, h, Spot(StartState, 0, [], []))
  }

  // ---------- the bytes stand for the frames ----------

  /** The stack holds the frames of a configuration; after the root nothing reads it. */
  predicate Keeps(c: Config, b: bytes) {
    c.state == FinishState || b == StackBytes(c.stack)
  }

  function Seen(c: Config, b: bytes): Spot {
    Spot(c.state, c.pos, b, c.log)
  }

  /** A turn does what a step of the automaton says, and its stack holds the frames again. */
  predicate TurnsLike(m: Turn, c: Config, step: Move) {
    match step
    case Stop(code, log) => m == Halted(code, log)
    case NoRule => m == Halted(HandleError(c.state), c.log)
    case Moved(e) => m.Turned? && m.spot == Seen(e, m.spot.stack) && Keeps(e, m.spot.stack)
  }

  lemma CloseFollows(h: Handler, c: Config, b: bytes, full: State, isObject: bool)
    requires Coherent(c) && Keeps(c, b) && c.stack != []
    ensures TurnsLike(Close(h, Seen(c, b), full, isObject), c, TransitClose(h, c, full, isObject))
  {
    hide StackBytes, WordBelow, StateCode, FrameBytes, StackOk, STATES, HandleError, Inc, WordBytes;
    CloseOk(c.stack);
    TopWords(c.stack);
    TopSplits(c.stack);
    StateCodes(c.stack[|c.stack| - 1].back);
  }

  lemma CountFollows(c: Config, b: bytes, d: State)
    requires Coherent(c) && Keeps(c, b) && c.stack != []
    ensures TurnsLike(Count(Seen(c, b), d), c, Moved(Config(d, c.pos + 1, Bump(c.stack), c.log)))
  {
    hide StackBytes, WordBelow, WordBytes;
    TopWords(c.stack);
    TopCounted(c.stack);
  }

  lemma TurnFollows(t: bytes, h: Handler, c: Config, b: bytes)
    requires Coherent(c) && c.pos < |t| && Keeps(c, b)
    requires var m := Step(t, h, c); m.Moved? ==> Residue(t, c.pos) == [] || m.config.stack == []
    ensures TurnsLike(Turning(t, h, Seen(c, b), Predict(c.state, Tokenize(t[c.pos]))), c, Step(t, h, c))
  {
    hide StackOk, Predict, Tokenize, ParseToken, ParseString, StackBytes, FrameBytes, Residue, Close, TransitClose, Count;
    var d := Predict(c.state, Tokenize(t[c.pos]));
    PredictFrom(c.state, Tokenize(t[c.pos]));
    if d in {ObjectFinishState, ArrayFinishState} {
      CloseFollows(h, c, b, if d == ObjectFinishState then MemberValueState else ElementState, d == ObjectFinishState);
    } else if d in {MemberDelimiterState, ElementDelimiterState} {
      CountFollows(c, b, d);
    } else if d in {ObjectInitialState, ArrayInitialState} {
      PushFrame(c.stack, Frame(Back(c.state), 0));
    } else {
      assert b + [] == b;
    }
  }

  /** At some step of the automaton a string leaves bytes above a frame, or what the source does
      is undetermined. */
  predicate Strays(t: bytes, h: Handler, c: Config)
    requires Coherent(c) && c.pos <= |t|
    decreases |t| - c.pos
  {
    var d := c.(pos := SkipSpace(t, c.pos));
    if Peek(t, d.pos) == NUL then false
    else
      StepCoherent(t, h, d);
      match Step(t, h, d)
      case Stop(code, _) => code == Undetermined
      case NoRule => false
      case Moved(e) => (Residue(t, d.pos) != [] && e.stack != []) || Strays(t, h, e)
  }

  lemma {:induction false} RunFollows(t: bytes, h: Handler, c: Config, b: bytes)
    requires Coherent(c) && c.pos <= |t| && Keeps(c, b)
    requires !Strays(t, h, c)
    ensures RunFrom(t, h, Seen(c, b)) == Run(t, h, c)
    decreases |t| - c.pos
  {
    hide Step, Turning, Residue, StackBytes, StackOk, SkipSpace;
    var d := c.(pos := SkipSpace(t, c.pos));
    if Peek(t, d.pos) != NUL {
      StepCoherent(t, h, d);
      TurnFollows(t, h, d, b);
      TurnAdvances(t, h, Seen(d, b));
      var m := Turning(t, h, Seen(d, b), Predict(d.state, Tokenize(t[d.pos])));
      if Step(t, h, d).Moved? {
        RunFollows(t, h, Step(t, h, d).config, m.spot.stack);
      }
    }
  }

  // ---------- the main theorem ----------

  /** No string, wherever one starts, decodes to 2^32 - 1 bytes or more. */
  ghost predicate AllShort(t: bytes) {
    forall p :: 0 <= p < |t| && t[p] == QUOTE && ScanString(t, p + 1).StrScan? ==>
      |ScanString(t, p + 1).str| < U32 - 1
  }

  /** No number, wherever one starts, takes an int out of its range. */
  ghost predicate AllInRange(t: bytes) {
    forall p :: 0 <= p < |t| ==> JsonNumber.ParseNumber(t, p) != Bad(Undetermined)
  }

  lemma ShortText(t: bytes)
    requires |t| < U32
    ensures AllShort(t)
  {
    forall p | 0 <= p < |t| && t[p] == QUOTE && ScanString(t, p + 1).StrScan?
      ensures |ScanString(t, p + 1).str| < U32 - 1
    {
      ScanShort(t, p + 1);
    }
  }

  lemma ShortLeavesNothing(t: bytes, p: nat)
    requires p < |t| && AllShort(t)
    ensures Residue(t, p) == []
    ensures t[p] == QUOTE ==>
              ParseString(t, p, true) != Bad(Undetermined) && ParseString(t, p, false) != Bad(Undetermined)
  {
    hide Litter, HandedOver, Told;
    if t[p] == QUOTE {
      ScanCode(t, p + 1);
      if ScanString(t, p + 1).StrScan? {
        HandedWhole(ScanString(t, p + 1).str);
      }
    }
  }

  /** What is wrong with a string is never that it is undetermined. */
  lemma {:induction false} ScanCode(t: bytes, p: nat)
    requires p <= |t|
    ensures ScanString(t, p) != BadStr(Undetermined)
    decreases |t| - p
  {
    if Peek(t, p) != QUOTE && NextPiece(t, p).Piece? {
      ScanCode(t, NextPiece(t, p).next);
    }
  }

  lemma TokenInRange(t: bytes, p: nat)
    requires p < |t| && AllShort(t) && AllInRange(t)
    ensures ParseToken(t, p) != Bad(Undetermined)
  {
    hide JsonNumber.ParseNumber, ParseString, AllShort;
    if t[p] == QUOTE {
      ShortLeavesNothing(t, p);
    }
  }

  /** So no step of the automaton is undetermined. */
  lemma StepInRange(t: bytes, h: Handler, c: Config)
    requires Coherent(c) && c.pos < |t| && AllShort(t) && AllInRange(t)
    ensures Step(t, h, c).Stop? ==> Step(t, h, c).code != Undetermined
  {
    hide StackOk, Predict, Tokenize, ParseToken, ParseString, AllShort, AllInRange, Residue, Bump, Inc, Back;
    PredictKey(c.state, t[c.pos]);
    PredictFrom(c.state, Tokenize(t[c.pos]));
    TokenInRange(t, c.pos);
    ShortLeavesNothing(t, c.pos);
  }

  lemma {:induction false} NothingStrays(t: bytes, h: Handler, c: Config)
    requires AllShort(t) && AllInRange(t) && Coherent(c) && c.pos <= |t|
    ensures !Strays(t, h, c)
    decreases |t| - c.pos
  {
    hide Step, Residue, StackOk, SkipSpace, AllShort, AllInRange;
    var d := c.(pos := SkipSpace(t, c.pos));
    if Peek(t, d.pos) != NUL {
      StepCoherent(t, h, d);
      ShortLeavesNothing(t, d.pos);
      StepInRange(t, h, d);
      if Step(t, h, d).Moved? {
        NothingStrays(t, h, Step(t, h, d).config);
      }
    }
  }

  predicate IsUndetermined(r: Outcome) {
    r.Fail? && r.code == Undetermined
  }

  /** Where no string leaves bytes, all that is left is that the automaton comes to a token with
      which what the source does is undetermined. */
  lemma {:induction false} StraysIff(t: bytes, h: Handler, c: Config)
    requires AllShort(t) && Coherent(c) && c.pos <= |t|
    ensures Strays(t, h, c) <==> IsUndetermined(Run(t, h, c))
    decreases |t| - c.pos
  {
    hide Step, Residue, StackOk, SkipSpace, AllShort;
    var d := c.(pos := SkipSpace(t, c.pos));
    if Peek(t, d.pos) != NUL {
      StepCoherent(t, h, d);
      ShortLeavesNothing(t, d.pos);
      if Step(t, h, d).Moved? {
        StraysIff(t, h, Step(t, h, d).config);
      }
    }
  }

  /** For every text and every handler, however soon it refuses an event, the two readers deliver
      the same events and agree on success, unless a string leaves bytes above a frame or what the
      source does with a token is undetermined; failures differ only in the code for a missing
      value. Where every string has fewer than 2^32 - 1 bytes, that is so if and only if the
      recursive reader comes to such a token itself: a number whose exponent arithmetic leaves the
      range of an int. */
  lemma SameEventsSameVerdict(t: bytes, h: Handler)
    ensures !Strays(t, h, INITIAL) ==>
              var r := IterativeParse(t, h);
              match Parse(t, h)
              case Done(q, log) => r == Done(q, log)
              case Fail(code, log) => r.Fail? && r.log == log && SameFailure(code, r.code)
    ensures AllShort(t) ==> (Strays(t, h, INITIAL) <==> IsUndetermined(Parse(t, h)))
    ensures AllShort(t) && AllInRange(t) ==> !Strays(t, h, INITIAL)
    ensures |t| < U32 ==> AllShort(t)
  {
    hide Run, RunFrom, Parse, Strays, AllShort, AllInRange;
    if AllShort(t) {
      StraysIff(t, h, INITIAL);
    }
    TableAgrees(t, h);
    if !Strays(t, h, INITIAL) {
      RunFollows(t, h, INITIAL, []);
    }
    if AllShort(t) && AllInRange(t) {
      NothingStrays(t, h, INITIAL);
    }
    if |t| < U32 {
      ShortText(t);
    }
  }

  // ---------- a string of 2^32 bytes in an array ----------

  function Boxed(s: bytes): bytes {
    [LBRACKET] + QuoteString(s) + [RBRACKET]
  }

  /** The handler that refuses the third event. */
  function RefuseThird(): Handler {
    (log: seq<Event>) => |log| < 3
  }

  lemma BoxedReads(s: bytes)
    ensures var t := Boxed(s);
            && |t| == |QuoteString(s)| + 2 >= 4
            && t[0] == LBRACKET && t[1] == QUOTE && t[|t| - 1] == RBRACKET
            && ScanString(t, 2) == StrScan(s, |t| - 1)
  {
    hide ScanString, EscapeAll;
    StringRoundTrip(s, [LBRACKET, QUOTE], [RBRACKET]);
    assert Boxed(s) == [LBRACKET, QUOTE] + EscapeAll(s) + [QUOTE] + [RBRACKET];
  }

  lemma BoxedToken(s: bytes)
    requires |s| == U32
    ensures var t := Boxed(s);
            && ParseToken(t, 1) == Good(String([]), |t| - 1)
            && Residue(t, 1) == s
  {
    hide ScanString, HandedOver, Litter, Boxed;
    BoxedReads(s);
    LongStringLost(s);
  }

  lemma ElementRead(t: bytes, e: Event)
    requires |t| >= 2 && t[1] == QUOTE && t[|t| - 1] == RBRACKET
    requires ParseToken(t, 1) == Good(e, |t| - 1)
    ensures ParseElements(t, 1, RefuseThird(), [StartArray], 0) == Fail(Termination, [StartArray, e, EndArray(1)])
  {
    hide ParseToken;
    var h := RefuseThird();
    assert ParseValue(t, 1, h, [StartArray]) == Done(|t| - 1, [StartArray, e]);
    SkipSpaceUnique(t, |t| - 1, |t| - 1);
    hide ParseValue, ParseElements;
    assert AfterElement(t, |t| - 1, h, [StartArray, e], 1) == Fail(Termination, [StartArray, e, EndArray(1)]);
    ElementsAre(t, h);
  }

  lemma ElementsAre(t: bytes, h: Handler)
    requires 1 <= |t|
    ensures var value := ParseValue(t, 1, h, [StartArray]);
            ParseElements(t, 1, h, [StartArray], 0) ==
              if value.Fail? then value else AfterElement(t, value.next, h, value.log, Inc(0))
  {
    hide ParseValue, AfterElement;
  }

  /** The recursive reader counts the one element. */
  lemma BoxedCounted(s: bytes)
    requires |s| == U32
    ensures Parse(Boxed(s), RefuseThird()) == Fail(Termination, [StartArray, String([]), EndArray(1)])
  {
    hide ParseToken, Boxed, ParseElements;
    var t := Boxed(s);
    BoxedReads(s);
    BoxedToken(s);
    SkipSpaceUnique(t, 0, 0);
    SkipSpaceUnique(t, 1, 1);
    ElementRead(t, String([]));
    assert [] + [StartArray] == [StartArray];
    assert ParseArray(t, 0, RefuseThird(), []) == Fail(Termination, [StartArray, String([]), EndArray(1)]);
  }

  lemma OneTurn(t: bytes, h: Handler, c: Spot)
    requires c.pos < |t| && !IsSpace(t[c.pos]) && t[c.pos] != NUL
    ensures var m := Turning(t, h, c, Predict(c.state, Tokenize(t[c.pos])));
            && (m.Halted? ==> RunFrom(t, h, c) == Fail(m.code, m.log))
            && (m.Turned? ==> m.spot.pos <= |t| && RunFrom(t, h, c) == RunFrom(t, h, m.spot))
  {
    hide Turning, Predict;
    SkipSpaceUnique(t, c.pos, c.pos);
    TurnAdvances(t, h, c);
  }

  lemma BoxedOpens(t: bytes)
    requires |t| >= 2 && t[0] == LBRACKET
    ensures IterativeParse(t, RefuseThird())
         == RunFrom(t, RefuseThird(), Spot(ArrayInitialState, 1, FrameBytes(Frame(StartState, 0)), [StartArray]))
  {
    hide FrameBytes, RunFrom;
    OneTurn(t, RefuseThird(), Spot(StartState, 0, [], []));
    var f := FrameBytes(Frame(StartState, 0));
    assert [] + f == f && [] + [StartArray] == [StartArray];
  }

  lemma BoxedElement(t: bytes, f: bytes, e: Event)
    requires |t| >= 2 && t[1] == QUOTE && ParseToken(t, 1) == Good(e, |t| - 1)
    ensures RunFrom(t, RefuseThird(), Spot(ArrayInitialState, 1, f, [StartArray]))
         == RunFrom(t, RefuseThird(), Spot(ElementState, |t| - 1, f + Residue(t, 1), [StartArray, e]))
  {
    hide RunFrom, ParseToken, Residue;
    OneTurn(t, RefuseThird(), Spot(ArrayInitialState, 1, f, [StartArray]));
    assert [StartArray] + [e] == [StartArray, e];
  }

  lemma BoxedCloses(t: bytes, b: bytes, e: Event)
    requires |t| >= 1 && t[|t| - 1] == RBRACKET && |b| >= 8
    ensures RunFrom(t, RefuseThird(), Spot(ElementState, |t| - 1, b, [StartArray, e]))
         == Fail(Termination, [StartArray, e, EndArray(Inc(BytesWord(b[|b| - 4..])))])
  {
    hide RunFrom, Close, BytesWord, Inc, Turning, Predict, Tokenize, RefuseThird;
    OneTurn(t, RefuseThird(), Spot(ElementState, |t| - 1, b, [StartArray, e]));
    CloseTurn(t, RefuseThird(), Spot(ElementState, |t| - 1, b, [StartArray, e]));
    BoxedClose(|t| - 1, b, e);
  }

  lemma CloseTurn(t: bytes, h: Handler, c: Spot)
    requires c.pos < |t| && t[c.pos] == RBRACKET && c.state == ElementState
    ensures Turning(t, h, c, Predict(c.state, Tokenize(t[c.pos]))) == Close(h, c, ElementState, false)
  {
    assert Predict(ElementState, Tokenize(RBRACKET)) == ArrayFinishState;
    hide Predict, Tokenize, Close;
  }

  lemma BoxedClose(p: nat, b: bytes, e: Event)
    requires |b| >= 8
    ensures Close(RefuseThird(), Spot(ElementState, p, b, [StartArray, e]), ElementState, false)
         == Halted(Termination, [StartArray, e, EndArray(Inc(BytesWord(b[|b| - 4..])))])
  {
    hide BytesWord, WordBelow, STATES, Inc;
    LastFour(b);
    var end := EndArray(Inc(BytesWord(b[|b| - 4..])));
    assert [StartArray, e] + [end] == [StartArray, e, end];
  }

  lemma LastFour(b: bytes)
    requires |b| >= 4
    ensures WordBelow(b, 0) == BytesWord(b[|b| - 4..])
  {
    hide BytesWord;
    assert b[|b| - 4..] == b[|b| - 4..|b|];
  }

  lemma ZeroWord(w: bytes)
    requires |w| == 4
    ensures Inc(BytesWord(w)) == 1 <==> w == [0, 0, 0, 0]
  {
  }

  /** The iterative reader takes the last four bytes of the string for the count, whatever they
      are: it agrees with the recursive reader if and only if they are all zero. */
  lemma BoxedMiscounted(s: bytes)
    requires |s| == U32
    ensures IterativeParse(Boxed(s), RefuseThird())
         == Fail(Termination, [StartArray, String([]), EndArray(Inc(BytesWord(s[U32 - 4..])))])
    ensures Inc(BytesWord(s[U32 - 4..])) == 1 <==> s[U32 - 4..] == [0, 0, 0, 0]
  {
    hide ParseToken, Residue, Boxed, FrameBytes, IterativeParse, BytesWord, ScanString, QuoteString, RunFrom, Inc;
    ZeroWord(s[U32 - 4..]);
    var t := Boxed(s);
    BoxedReads(s);
    BoxedToken(s);
    var f := FrameBytes(Frame(StartState, 0));
    BoxedOpens(t);
    BoxedElement(t, f, String([]));
    BoxedCloses(t, f + s, String([]));
    assert (f + s)[|f + s| - 4..] == s[U32 - 4..];
  }
}
