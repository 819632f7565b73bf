/** What the readers make of a writer's output: an event-by-event simulation of the writer's
    levels by the frames of the table-driven reader. */
module JsonPrinted {
  import opened Bytes
  import opened JsonEvents
  import opened JsonNumber
  import opened JsonString
  import opened JsonRecursive
  import opened JsonIterative
  import opened JsonEquivalence
  import JsonStack
  import opened JsonLocality
  import opened JsonGrammar
  import opened JsonPrinter

  // ---------- what is read back ----------

  /** The reader's event for an integer: the narrowest kind of its sign. */
  function NumberFor(v: int): (e: Event)
    requires -0x8000_0000_0000_0000 <= v <= 0xFFFF_FFFF_FFFF_FFFF
  {
    if v < 0 then Narrowest(true, -v) else Narrowest(false, v)
  }

  /** The event read back for an event written in shape `s`: a writer neither tells names from
      strings nor looks at the counts it is given. */
  function Echo(s: Shape, e: Event): (r: Event)
    requires Accepts(s, e)
  {
    match e
    case Int(i) => NumberFor(i)
    case Uint(u) => NumberFor(u)
    case Int64(i) => NumberFor(i)
    case Uint64(u) => NumberFor(u)
    case String(str) => if AtName(s) then Key(HandedOver(str)) else String(HandedOver(str))
    case Key(str) => if AtName(s) then Key(HandedOver(str)) else String(HandedOver(str))
    case EndObject(_) => EndObject(Top(s).valueCount / 2 % U32)
    case EndArray(_) => EndArray(Top(s).valueCount % U32)
    case _ => e
  }

  /** No object is closed between a name and its value. */
  predicate Tidy(s: Shape, e: Event) {
    e.EndObject? ==> s.levels != [] && Top(s).valueCount % 2 == 0
  }

  function StringOf(e: Event): bytes
    requires IsStringEvent(e)
  {
    if e.String? then e.str else e.name
  }

  /** A reader knows how many bytes of the string to hand over. */
  predicate ToldEvent(e: Event) {
    IsStringEvent(e) ==> Told(StringOf(e))
  }

  /** The outcome of reading `n` bytes that a writer put from shape `s` on. */
  function Verdict(s: Shape, es: seq<Event>, log: seq<Event>, n: nat): (r: Outcome)
    requires Legal(s, es)
    decreases |es|
  {
    if es == [] then if Complete(s) then Done(n, log) else Fail(HandleError(StateOf(s)), log)
    else if !Tidy(s, es[0]) then Fail(ObjectMissColon, log)
    else if !ToldEvent(es[0]) then Fail(Undetermined, log)
    else Verdict(Next(s, es[0]), es[1..], log + [Echo(s, es[0])], n)
  }

  // ---------- the writer's levels as the reader's frames ----------

  function StateOf(s: Shape): State {
    if s.levels == [] then if s.hasRoot then FinishState else StartState
    else if Top(s).inArray then if Top(s).valueCount == 0 then ArrayInitialState else ElementState
    else if Top(s).valueCount == 0 then ObjectInitialState
    else if Top(s).valueCount % 2 == 1 then MemberKeyState
    else MemberValueState
  }

  /** The count in the frame of a level: separators seen, as a 32-bit number. */
  function CountOf(l: Level): u32 {
    if l.valueCount == 0 then 0
    else if l.inArray then (l.valueCount - 1) % U32
    else ((l.valueCount - 1) / 2) % U32
  }

  function BackOf(levels: seq<Level>, i: nat): State
    requires i < |levels|
  {
    if i == 0 then StartState else if levels[i - 1].inArray then ElementState else MemberValueState
  }

  function FramesOf(levels: seq<Level>): (f: seq<Frame>)
    ensures |f| == |levels|
  {
    seq(|levels|, i requires 0 <= i < |levels| => Frame(BackOf(levels, i), CountOf(levels[i])))
  }

  /** What every shape a writer reaches satisfies: a level below the top is in the middle of a
      value. */
  predicate ShapeOk(s: Shape) {
    && (s.levels != [] ==> s.hasRoot)
    && forall i :: 0 <= i < |s.levels| - 1 ==>
         s.levels[i].valueCount > 0 && (s.levels[i].inArray || s.levels[i].valueCount % 2 == 0)
  }

  function Conf(s: Shape, p: nat, log: seq<Event>): Config {
    Config(StateOf(s), p, FramesOf(s.levels), log)
  }

  lemma ConfCoherent(s: Shape, p: nat, log: seq<Event>)
    requires ShapeOk(s)
    ensures Coherent(Conf(s, p, log))
  {
  }

  lemma NextOk(s: Shape, e: Event)
    requires ShapeOk(s) && Accepts(s, e)
    ensures ShapeOk(Next(s, e))
  {
  }

  // ---------- the separator ----------

  /** The reader's state once the separator of the next value is read. */
  function Awaiting(s: Shape): State {
    if s.levels == [] then StartState
    else if Top(s).inArray then if Top(s).valueCount == 0 then ArrayInitialState else ElementDelimiterState
    else if Top(s).valueCount == 0 then ObjectInitialState
    else if Top(s).valueCount % 2 == 1 then KeyValueDelimiterState
    else MemberDelimiterState
  }

  function AwaitConf(s: Shape, p: nat, log: seq<Event>): Config {
    Config(Awaiting(s), p, FramesOf(Prefixed(s).levels), log)
  }

  lemma PadIsSpace(y: Style, s: Shape)
    requires StyleOk(y)
    ensures AllSpace(Pad(y, s))
    ensures s.levels != [] ==> AllSpace(EndPad(y, s))
  {
  }

  lemma FramesBump(s: Shape)
    requires s.levels != []
    ensures var f, g := FramesOf(s.levels), FramesOf(Prefixed(s).levels);
            if Mark(s) == [COMMA] then g == Bump(f) else g == f
  {
    hide Mark, CountOf;
    CountBumps(s);
    var f, g := FramesOf(s.levels), FramesOf(Prefixed(s).levels);
    var n := |s.levels| - 1;
    assert forall i :: 0 <= i < n ==> g[i] == f[i];
  }

  lemma CountBumps(s: Shape)
    requires s.levels != []
    ensures var l := Top(s);
            var m := Level(l.valueCount + 1, l.inArray);
            CountOf(m) == if Mark(s) == [COMMA] then Inc(CountOf(l)) else CountOf(l)
  {
    var c := Top(s).valueCount;
    if c > 0 && Top(s).inArray {
      ModInc(c - 1);
    } else if c > 0 && c % 2 == 0 {
      assert c / 2 == (c - 1) / 2 + 1;
      ModInc((c - 1) / 2);
    }
  }

  lemma ModInc(n: nat)
    ensures (n + 1) % U32 == Inc(n % U32)
  {
  }

  /** What SeparatorRuns is about: the reader gets through the separator and its padding. */
  predicate Crosses(y: Style, s: Shape, t: bytes, p: nat, log: seq<Event>, x: bytes) {
    var q := p + |Mark(s) + Pad(y, s)|;
    && p <= |t| && Coherent(Conf(s, p, log))
    && At(t, AwaitConf(s, q, log)) && Holds(t, q, x) && |x| > 0 && Peek(t, q) == x[0]
    && Run(t, AcceptAll(), Conf(s, p, log)) == Run(t, AcceptAll(), AwaitConf(s, q, log))
  }

  lemma NoMarkRuns(y: Style, s: Shape, t: bytes, p: nat, log: seq<Event>, x: bytes)
    requires StyleOk(y) && ShapeOk(s) && (s.levels == [] ==> !s.hasRoot) && Mark(s) == []
    requires Holds(t, p, Pad(y, s) + x) && |x| > 0 && !IsSpace(x[0])
    ensures Crosses(y, s, t, p, log, x)
  {
    hide Run, FramesOf, Pad, AllSpace, ShapeOk, StackOk;
    ConfCoherent(s, p, log);
    PadIsSpace(y, s);
    if s.levels != [] {
      FramesBump(s);
    }
    PadThen(t, p, Pad(y, s), x);
    RunSkips(t, AcceptAll(), Conf(s, p, log));
  }

  lemma MarkRuns(y: Style, s: Shape, t: bytes, p: nat, log: seq<Event>, x: bytes)
    requires StyleOk(y) && ShapeOk(s) && Mark(s) != []
    requires Holds(t, p, [Mark(s)[0]] + (Pad(y, s) + x)) && |x| > 0 && !IsSpace(x[0])
    ensures Crosses(y, s, t, p, log, x)
  {
    hide Run, FramesOf, Pad, AllSpace, ShapeOk, StackOk;
    ConfCoherent(s, p, log);
    PadIsSpace(y, s);
    FramesBump(s);
    CommaThen(t, p, Mark(s)[0], Pad(y, s), x);
    if Mark(s) == [COMMA] {
      CommaMoves(t, AcceptAll(), Conf(s, p, log));
    } else {
      ColonMoves(t, AcceptAll(), Conf(s, p, log));
    }
  }

  /** The reader gets through the separator and its padding to the value. */
  lemma SeparatorRuns(y: Style, s: Shape, t: bytes, p: nat, log: seq<Event>, x: bytes)
    requires StyleOk(y) && ShapeOk(s) && (s.levels == [] ==> !s.hasRoot)
    requires Holds(t, p, Mark(s) + Pad(y, s) + x) && |x| > 0 && !IsSpace(x[0])
    ensures Crosses(y, s, t, p, log, x)
  {
    hide Crosses, Pad, StyleOk, ShapeOk, Holds;
    if Mark(s) == [] {
      assert Mark(s) + Pad(y, s) + x == Pad(y, s) + x;
      NoMarkRuns(y, s, t, p, log, x);
    } else {
      assert Mark(s) == [Mark(s)[0]];
      assert Mark(s) + Pad(y, s) + x == Mark(s) + (Pad(y, s) + x);
      MarkRuns(y, s, t, p, log, x);
    }
  }

  // ---------- tokens ----------

  lemma {:induction false} DigitsRead(t: bytes, s: nat, n: nat)
    requires Holds(t, s, Digits(n))
    ensures var q := s + |Digits(n)|;
            && (forall i :: s <= i < q ==> IsDigit(t[i]))
            && Value(t, s, q) == n
            && (t[s] == DIGIT0 ==> n == 0)
  {
    var d := DIGIT0 + n % 10;
    if n < 10 {
      HoldsFirst(t, s, [d]);
      assert Value(t, s, s) == 0;
    } else {
      var m := Digits(n / 10);
      HoldsSplit(t, s, m, [d]);
      HoldsFirst(t, s + |m|, [d]);
      DigitsRead(t, s, n / 10);
    }
  }

  /** The digits of a number are an integer of the grammar with that magnitude. */
  lemma DigitsInteger(t: bytes, p: nat, minus: bool, n: nat)
    requires minus ==> p < |t| && t[p] == MINUS
    requires var s := if minus then p + 1 else p;
             Holds(t, s, Digits(n)) && EndsNumber(Peek(t, s + |Digits(n)|))
    ensures var q := (if minus then p + 1 else p) + |Digits(n)|;
            IsInteger(t, p, minus, q) && Magnitude(t, p, minus, q) == n
  {
    hide Value, Digits;
    var s := if minus then p + 1 else p;
    DigitsSome(n);
    DigitsRead(t, s, n);
    DigitsShort(t, s, n);
    HoldsInside(t, s, Digits(n));
    assert IsDigit(t[s]);
  }

  lemma DigitsSome(n: nat)
    ensures |Digits(n)| > 0
  {
  }

  lemma IntegerToken(t: bytes, p: nat, minus: bool, n: nat, q: nat)
    requires IsInteger(t, p, minus, q) && Magnitude(t, p, minus, q) == n <= Max64(minus)
    ensures ParseToken(t, p) == Good(Narrowest(minus, n), q)
    ensures Peek(t, p) == MINUS || IsDigit(Peek(t, p))
  {
    hide ParseNumber, Value, Rounded, DBL_MAX_10, Narrowest, Magnitude;
    IntegerExact(t, p, minus, q);
    assert Peek(t, p) == MINUS || IsDigit(Peek(t, p));
    hide IsInteger;
  }

  lemma DecimalReads(t: bytes, p: nat, v: int)
    requires -0x8000_0000_0000_0000 <= v <= 0xFFFF_FFFF_FFFF_FFFF
    requires Holds(t, p, Decimal(v)) && EndsNumber(Peek(t, p + |Decimal(v)|))
    ensures ParseToken(t, p) == Good(NumberFor(v), p + |Decimal(v)|)
    ensures Peek(t, p) == MINUS || IsDigit(Peek(t, p))
  {
    hide ParseToken, Value, Digits, Holds, Narrowest, IsInteger, Magnitude, EndsNumber;
    if v < 0 {
      HoldsSplit(t, p, [MINUS], Digits(-v));
      HoldsFirst(t, p, [MINUS]);
      HoldsInside(t, p, [MINUS]);
      DigitsInteger(t, p, true, -v);
      IntegerToken(t, p, true, -v, p + |Decimal(v)|);
    } else {
      DigitsInteger(t, p, false, v);
      IntegerToken(t, p, false, v, p + |Decimal(v)|);
    }
  }

  lemma HoldsInside(t: bytes, p: nat, x: bytes)
    requires Holds(t, p, x)
    ensures p + |x| <= |t|
  {
  }

  /** A leading zero is the whole number. */
  lemma DigitsShort(t: bytes, s: nat, n: nat)
    requires Holds(t, s, Digits(n))
    ensures t[s] == DIGIT0 ==> |Digits(n)| == 1
  {
    DigitsRead(t, s, n);
  }

  lemma QuoteReads(t: bytes, p: nat, s: bytes, isKey: bool)
    requires Holds(t, p, QuoteString(s))
    ensures p < |t| && t[p] == QUOTE
    ensures ParseString(t, p, isKey) ==
              if !Told(s) then Bad(Undetermined)
              else Good(if isKey then Key(HandedOver(s)) else String(HandedOver(s)), p + |QuoteString(s)|)
  {
    hide ScanString, EscapeAll, HandedOver, Told;
    HoldsFirst(t, p, QuoteString(s));
    Around(t, p, EscapeAll(s));
    StringRoundTrip(s, t[..p + 1], t[p + |EscapeAll(s)| + 2..]);
  }

  predicate IsNumber(e: Event) {
    e.Int? || e.Uint? || e.Int64? || e.Uint64?
  }

  predicate IsAtom(e: Event) {
    e.Null? || e.Bool? || IsNumber(e) || IsStringEvent(e)
  }

  /** The written token of a value that is not a name reads as the value's echo. */
  lemma AtomReads(t: bytes, p: nat, s: Shape, e: Event)
    requires Accepts(s, e) && IsAtom(e) && !AtName(s)
    requires Holds(t, p, TokenText(e)) && (IsNumber(e) ==> EndsNumber(Peek(t, p + |TokenText(e)|)))
    ensures ParseToken(t, p) ==
              if ToldEvent(e) then Good(Echo(s, e), p + |TokenText(e)|) else Bad(Undetermined)
    ensures Peek(t, p) !in {NUL, RBRACKET, RBRACE, COMMA, COLON, LBRACKET, LBRACE}
  {
    hide ParseNumber, ParseString, NumberFor, Decimal, QuoteString, Narrowest, HandedOver, Told;
    HoldsFirst(t, p, TokenText(e));
    match e
    case Int(i) => DecimalReads(t, p, i);
    case Uint(u) => DecimalReads(t, p, u);
    case Int64(i) => DecimalReads(t, p, i);
    case Uint64(u) => DecimalReads(t, p, u);
    case String(str) => QuoteReads(t, p, str, false);
    case Key(str) => QuoteReads(t, p, str, false);
    case _ =>
  }

  lemma TokenStarts(e: Event)
    requires Printable(e)
    ensures !IsSpace(TokenText(e)[0])
    ensures IsEnd(e) || e.StartObject? || e.StartArray? ==> EndsNumber(TokenText(e)[0])
  {
    match e
    case Int(i) => DecimalStarts(i);
    case Uint(u) => DecimalStarts(u);
    case Int64(i) => DecimalStarts(i);
    case Uint64(u) => DecimalStarts(u);
    case _ =>
  }

  lemma DecimalStarts(v: int)
    ensures |Decimal(v)| > 0 && !IsSpace(Decimal(v)[0])
  {
    var t := Decimal(v);
    if v >= 0 {
      DigitsRead(t, 0, v);
    }
  }

  // ---------- one event ----------

  /** The reader follows the writer over one event. */
  predicate Follows(t: bytes, s: Shape, p: nat, log: seq<Event>, e: Event, q: nat)
    requires ShapeOk(s) && Accepts(s, e) && p <= |t| && q <= |t|
  {
    ConfCoherent(s, p, log);
    Leads(t, s, Conf(s, p, log), log, e, q)
  }

  /** From configuration `c`, where the event's text is, the reader comes to the writer's next
      shape, or stops at a string whose length it does not know. */
  predicate Leads(t: bytes, s: Shape, c: Config, log: seq<Event>, e: Event, q: nat)
    requires ShapeOk(s) && Accepts(s, e) && Coherent(c) && c.pos <= |t| && q <= |t|
  {
    NextOk(s, e);
    ConfCoherent(Next(s, e), q, log + [Echo(s, e)]);
    Run(t, AcceptAll(), c) ==
    if ToldEvent(e) then Run(t, AcceptAll(), Conf(Next(s, e), q, log + [Echo(s, e)])) else Fail(Undetermined, log)
  }

  lemma DeliverAll(log: seq<Event>, e: Event, next: nat)
    ensures Deliver(AcceptAll(), log, e, next) == Done(next, log + [e])
  {
  }

  lemma AtomRuns(y: Style, s: Shape, t: bytes, p: nat, log: seq<Event>, e: Event)
    requires StyleOk(y) && ShapeOk(s) && Accepts(s, e) && IsAtom(e)
    requires Holds(t, p, Put(y, s, e)) && (IsNumber(e) ==> EndsNumber(Peek(t, p + |Put(y, s, e)|)))
    ensures Follows(t, s, p, log, e, p + |Put(y, s, e)|)
  {
    hide Run, FramesOf, Mark, Pad, TokenText, ShapeOk, Coherent, Holds, Awaiting, StateOf, Prefixed, Next, Echo;
    hide ToldEvent;
    TokenStarts(e);
    SeparatorRuns(y, s, t, p, log, TokenText(e));
    var q := p + |Mark(s) + Pad(y, s)|;
    if AtName(s) {
      NameRuns(t, s, q, log, e);
    } else {
      ScalarRuns(t, s, q, log, e);
    }
  }

  lemma ScalarRuns(t: bytes, s: Shape, q: nat, log: seq<Event>, e: Event)
    requires ShapeOk(s) && Accepts(s, e) && IsAtom(e) && !AtName(s)
    requires At(t, AwaitConf(s, q, log)) && Holds(t, q, TokenText(e))
    requires IsNumber(e) ==> EndsNumber(Peek(t, q + |TokenText(e)|))
    ensures Leads(t, s, AwaitConf(s, q, log), log, e, q + |TokenText(e)|)
  {
    hide Run, FramesOf, ShapeOk, ParseToken, TokenText, PrefixOk, IsAtom, AtName, Echo, Coherent;
    hide StateOf, Awaiting, Next, Prefixed, Expects, After, ToldEvent;
    HoldsInside(t, q, TokenText(e));
    AtomReads(t, q, s, e);
    AtomState(s, e);
    DeliverAll(log, Echo(s, e), q + |TokenText(e)|);
    TokenMoves(t, AcceptAll(), AwaitConf(s, q, log));
  }

  lemma AtomState(s: Shape, e: Event)
    requires ShapeOk(s) && Accepts(s, e) && IsAtom(e) && !AtName(s)
    ensures Expects(Awaiting(s)) && After(Awaiting(s)) == StateOf(Next(s, e))
    ensures Next(s, e) == Prefixed(s)
  {
  }

  lemma NameRuns(t: bytes, s: Shape, q: nat, log: seq<Event>, e: Event)
    requires ShapeOk(s) && Accepts(s, e) && IsAtom(e) && AtName(s)
    requires At(t, AwaitConf(s, q, log)) && Holds(t, q, TokenText(e))
    ensures Leads(t, s, AwaitConf(s, q, log), log, e, q + |TokenText(e)|)
  {
    hide Run, FramesOf, ShapeOk, ParseString, QuoteString, HandedOver, Told;
    QuoteReads(t, q, StringOf(e), true);
    KeyMoves(t, AcceptAll(), AwaitConf(s, q, log));
    var d := Conf(Next(s, e), q + |TokenText(e)|, log + [Echo(s, e)]);
    NextOk(s, e);
    ConfCoherent(Next(s, e), q + |TokenText(e)|, log + [Echo(s, e)]);
    RunSkips(t, AcceptAll(), d);
  }

  lemma OpenRuns(y: Style, s: Shape, t: bytes, p: nat, log: seq<Event>, e: Event)
    requires StyleOk(y) && ShapeOk(s) && Accepts(s, e) && (e.StartObject? || e.StartArray?)
    requires Holds(t, p, Put(y, s, e))
    ensures Follows(t, s, p, log, e, p + |Put(y, s, e)|)
  {
    hide Run, FramesOf, Mark, Pad, ShapeOk, SkipSpace, Prefixed, StateOf, Awaiting;
    SeparatorRuns(y, s, t, p, log, TokenText(e));
    BracketRuns(s, t, p + |Mark(s) + Pad(y, s)|, log, e);
  }

  lemma BracketRuns(s: Shape, t: bytes, q: nat, log: seq<Event>, e: Event)
    requires ShapeOk(s) && Accepts(s, e) && (e.StartObject? || e.StartArray?)
    requires At(t, AwaitConf(s, q, log)) && Peek(t, q) == (if e.StartObject? then LBRACE else LBRACKET)
    ensures q < |t| && Coherent(Conf(Next(s, e), q + 1, log + [e]))
    ensures Run(t, AcceptAll(), AwaitConf(s, q, log)) == Run(t, AcceptAll(), Conf(Next(s, e), q + 1, log + [e]))
  {
    hide Run, FramesOf, ShapeOk, SkipSpace, Coherent, Next, Prefixed, StateOf, Awaiting;
    hide Expects, Accepts, Back, At, Look, Deliver;
    var c := AwaitConf(s, q, log);
    var d := Conf(Next(s, e), q + 1, log + [e]);
    OpenFrames(s, e);
    DeliverAll(log, e, q + 1);
    OpenMoves(t, AcceptAll(), c, e.StartObject?);
    NextOk(s, e);
    ConfCoherent(Next(s, e), q + 1, log + [e]);
    RunSkips(t, AcceptAll(), d);
  }

  lemma OpenFrames(s: Shape, e: Event)
    requires Accepts(s, e) && (e.StartObject? || e.StartArray?)
    ensures FramesOf(Next(s, e).levels) == FramesOf(Prefixed(s).levels) + [Frame(Back(Awaiting(s)), 0)]
    ensures StateOf(Next(s, e)) == if e.StartObject? then ObjectInitialState else ArrayInitialState
    ensures Expects(Awaiting(s))
  {
    var f, g := FramesOf(Next(s, e).levels), FramesOf(Prefixed(s).levels);
    assert forall i :: 0 <= i < |g| ==> f[i] == g[i];
  }

  lemma EndRuns(y: Style, s: Shape, t: bytes, p: nat, log: seq<Event>, e: Event)
    requires StyleOk(y) && ShapeOk(s) && Accepts(s, e) && IsEnd(e) && Tidy(s, e)
    requires Holds(t, p, Put(y, s, e))
    ensures Follows(t, s, p, log, e, p + |Put(y, s, e)|)
  {
    hide Run, FramesOf, EndPad, ShapeOk, SkipSpace, AllSpace, CountOf;
    var c := Conf(s, p, log);
    ConfCoherent(s, p, log);
    PadIsSpace(y, s);
    PadThen(t, p, EndPad(y, s), TokenText(e));
    RunSkips(t, AcceptAll(), c);
    CloseMoves(t, AcceptAll(), Look(t, c), e.EndObject?);
    CloseFrames(s, e);
    CloseCount(s, e);
  }

  lemma CloseFrames(s: Shape, e: Event)
    requires ShapeOk(s) && Accepts(s, e) && IsEnd(e)
    ensures var f := FramesOf(s.levels);
            && FramesOf(Next(s, e).levels) == f[..|f| - 1]
            && StateOf(Next(s, e)) == Outside(f)
            && f[|f| - 1].count == CountOf(Top(s))
  {
    hide CountOf;
    var f, g := FramesOf(s.levels), FramesOf(Next(s, e).levels);
    assert forall i :: 0 <= i < |g| ==> f[i] == g[i];
  }

  lemma CloseCount(s: Shape, e: Event)
    requires Accepts(s, e) && IsEnd(e) && Tidy(s, e)
    ensures var c := CountOf(Top(s));
            var n := if Top(s).valueCount == 0 then c else Inc(c);
            Echo(s, e) == if e.EndObject? then EndObject(n) else EndArray(n)
  {
    var c := Top(s).valueCount;
    if c > 0 {
      if e.EndArray? {
        ModInc(c - 1);
      } else {
        assert c / 2 == (c - 1) / 2 + 1;
        ModInc((c - 1) / 2);
      }
    }
  }

  // ---------- any number of events ----------

  /** An object closed after a name: the reader misses the colon. */
  lemma UntidyFails(y: Style, s: Shape, t: bytes, p: nat, log: seq<Event>, e: Event)
    requires StyleOk(y) && ShapeOk(s) && Accepts(s, e) && !Tidy(s, e)
    requires Holds(t, p, Put(y, s, e))
    ensures Coherent(Conf(s, p, log))
    ensures Run(t, AcceptAll(), Conf(s, p, log)) == Fail(ObjectMissColon, log)
  {
    hide Run, FramesOf, EndPad, ShapeOk, SkipSpace, AllSpace;
    var c := Conf(s, p, log);
    ConfCoherent(s, p, log);
    PadIsSpace(y, s);
    PadThen(t, p, EndPad(y, s), TokenText(e));
    RunSkips(t, AcceptAll(), c);
    Stuck(t, AcceptAll(), Look(t, c));
  }

  lemma EventRuns(y: Style, s: Shape, t: bytes, p: nat, log: seq<Event>, e: Event)
    requires StyleOk(y) && ShapeOk(s) && Accepts(s, e) && Tidy(s, e)
    requires Holds(t, p, Put(y, s, e)) && (IsNumber(e) ==> EndsNumber(Peek(t, p + |Put(y, s, e)|)))
    ensures Follows(t, s, p, log, e, p + |Put(y, s, e)|)
  {
    hide *;
    if IsEnd(e) {
      EndRuns(y, s, t, p, log, e);
    } else if e.StartObject? || e.StartArray? {
      OpenRuns(y, s, t, p, log, e);
    } else {
      assert IsAtom(e) by { KindOf(s, e); }
      AtomRuns(y, s, t, p, log, e);
    }
  }

  lemma KindOf(s: Shape, e: Event)
    requires Accepts(s, e)
    ensures IsEnd(e) || e.StartObject? || e.StartArray? || IsAtom(e)
  {
  }

  /** After a number, whatever a writer puts next does not continue it. */
  lemma NumberEnds(y: Style, s: Shape, e: Event, next: Event)
    requires StyleOk(y) && ShapeOk(s) && Accepts(s, e) && IsNumber(e) && Accepts(Next(s, e), next)
    ensures EndsNumber(Put(y, Next(s, e), next)[0])
  {
    hide TokenText, Indent;
    var r := Next(s, e);
    if IsEnd(next) {
      TokenStarts(next);
      if EndPad(y, r) != [] {
        assert Put(y, r, next)[0] == LF;
      }
    } else {
      assert r.levels != [] && Top(r).valueCount > 0;
      assert Put(y, r, next)[0] == Mark(r)[0];
    }
  }

  /** The reader run on a writer's output has the verdict computed from the events alone. */
  lemma {:induction false} PrintedRuns(y: Style, s: Shape, es: seq<Event>, t: bytes, p: nat, log: seq<Event>)
    requires StyleOk(y) && ShapeOk(s) && Legal(s, es)
    requires Holds(t, p, Print(y, s, es)) && p + |Print(y, s, es)| == |t|
    ensures Coherent(Conf(s, p, log))
    ensures Run(t, AcceptAll(), Conf(s, p, log)) == Verdict(s, es, log, |t|)
    decreases |es|
  {
    hide Run, Put, ShapeOk, Conf, Coherent, Next, Echo, Tidy, ToldEvent, Accepts, StyleOk;
    ConfCoherent(s, p, log);
    if es == [] {
      EndOfText(s, t, log);
    } else {
      var e, rest := es[0], es[1..];
      var r := Next(s, e);
      var q := p + |Put(y, s, e)|;
      HoldsSplit(t, p, Put(y, s, e), Print(y, r, rest));
      if !Tidy(s, e) {
        UntidyFails(y, s, t, p, log, e);
      } else {
        NextOk(s, e);
        NumberStops(y, s, es, t, q);
        EventRuns(y, s, t, p, log, e);
        if ToldEvent(e) {
          PrintedRuns(y, r, rest, t, q, log + [Echo(s, e)]);
        }
      }
    }
  }

  lemma NumberStops(y: Style, s: Shape, es: seq<Event>, t: bytes, q: nat)
    requires StyleOk(y) && ShapeOk(s) && Legal(s, es) && es != []
    requires var r := Next(s, es[0]);
             Holds(t, q, Print(y, r, es[1..])) && q + |Print(y, r, es[1..])| == |t|
    ensures IsNumber(es[0]) ==> EndsNumber(Peek(t, q))
  {
    hide ShapeOk, Next, Accepts, StyleOk, TokenText, Front;
    var e, rest := es[0], es[1..];
    if IsNumber(e) && rest != [] {
      var x := Put(y, Next(s, e), rest[0]);
      HoldsSplit(t, q, x, Print(y, Next(Next(s, e), rest[0]), rest[1..]));
      HoldsFirst(t, q, x);
      NumberEnds(y, s, e, rest[0]);
    }
  }

  lemma EndOfText(s: Shape, t: bytes, log: seq<Event>)
    requires ShapeOk(s)
    ensures Coherent(Conf(s, |t|, log))
    ensures Run(t, AcceptAll(), Conf(s, |t|, log)) == Verdict(s, [], log, |t|)
  {
    ConfCoherent(s, |t|, log);
    SkipSpaceUnique(t, |t|, |t|);
  }

  // ---------- the theorems ----------

  /** Every object of the run is closed after a value, not after a name. */
  predicate AllTidy(s: Shape, es: seq<Event>)
    requires Legal(s, es)
    decreases |es|
  {
    es == [] || (Tidy(s, es[0]) && AllTidy(Next(s, es[0]), es[1..]))
  }

  predicate AllTold(es: seq<Event>) {
    forall i :: 0 <= i < |es| ==> ToldEvent(es[i])
  }

  /** A text of fewer than 2^32 bytes has no string that long. */
  lemma {:induction false} ShortTold(y: Style, s: Shape, es: seq<Event>)
    requires Legal(s, es) && |Print(y, s, es)| < U32
    ensures AllTold(es)
    decreases |es|
  {
    hide Next, ToldEvent, Accepts, Put;
    if es != [] {
      ShortToldEvent(y, s, es[0]);
      ShortTold(y, Next(s, es[0]), es[1..]);
      assert forall i :: 1 <= i < |es| ==> es[i] == es[1..][i - 1];
    }
  }

  lemma ShortToldEvent(y: Style, s: Shape, e: Event)
    requires Accepts(s, e) && |Put(y, s, e)| < U32
    ensures ToldEvent(e)
  {
    hide Mark, Pad, Told, EscapeAll;
    if IsStringEvent(e) {
      EscapeGrows(StringOf(e));
      HandedWhole(StringOf(e));
    }
  }

  lemma {:induction false} EscapeGrows(s: bytes)
    ensures |s| <= |EscapeAll(s)|
  {
    if s != [] {
      EscapeGrows(s[1..]);
    }
  }

  function Echoes(s: Shape, es: seq<Event>): (r: seq<Event>)
    requires Legal(s, es)
    ensures |r| == |es|
    decreases |es|
  {
    if es == [] then [] else [Echo(s, es[0])] + Echoes(Next(s, es[0]), es[1..])
  }

  lemma {:induction false} VerdictSums(s: Shape, es: seq<Event>, log: seq<Event>, n: nat)
    requires Legal(s, es)
    ensures Verdict(s, es, log, n).Done? <==> AllTidy(s, es) && AllTold(es) && Complete(Reached(s, es))
    ensures Verdict(s, es, log, n).Done? ==> Verdict(s, es, log, n) == Done(n, log + Echoes(s, es))
    ensures AllTold(es) ==> !JsonStack.IsUndetermined(Verdict(s, es, log, n))
    ensures AllTidy(s, es) && !AllTold(es) ==> JsonStack.IsUndetermined(Verdict(s, es, log, n))
    decreases |es|
  {
    hide Next, Echo, Accepts, Tidy, ToldEvent, AllTold;
    ToldCons(es);
    if es != [] && Tidy(s, es[0]) && ToldEvent(es[0]) {
      var e := Echo(s, es[0]);
      VerdictSums(Next(s, es[0]), es[1..], log + [e], n);
      assert log + [e] + Echoes(Next(s, es[0]), es[1..]) == log + Echoes(s, es);
    }
  }

  lemma ToldCons(es: seq<Event>)
    ensures AllTold(es) <==> es == [] || (ToldEvent(es[0]) && AllTold(es[1..]))
  {
    hide ToldEvent;
    if es != [] && ToldEvent(es[0]) && AllTold(es[1..]) {
      assert forall i :: 1 <= i < |es| ==> es[i] == es[1..][i - 1];
    }
  }

  /** The readers, on the text any legal events make a writer put, in either style: they accept
      it if and only if the writer says it is complete, no object was closed after a name and no
      string has a length of 2^32 - 1 modulo 2^32; then they deliver the written events again,
      names and counts as they really were, strings as they are handed over. The iterative one
      does so if no string leaves bytes above a frame of its stack, as in any text of fewer than
      2^32 bytes. */
  lemma PrintedParses(y: Style, es: seq<Event>)
    requires StyleOk(y) && Legal(BLANK, es)
    ensures var t := Print(y, BLANK, es);
            && TableParse(t, AcceptAll()) == Verdict(BLANK, es, [], |t|)
            && (!JsonStack.Strays(t, AcceptAll(), INITIAL) ==>
                  JsonStack.IterativeParse(t, AcceptAll()) == Verdict(BLANK, es, [], |t|))
            && (|t| < U32 ==> !JsonStack.Strays(t, AcceptAll(), INITIAL))
            && (Parse(t, AcceptAll()).Done? <==>
                  AllTidy(BLANK, es) && AllTold(es) && Complete(Reached(BLANK, es)))
            && (Parse(t, AcceptAll()).Done? ==> Parse(t, AcceptAll()) == Done(|t|, Echoes(BLANK, es)))
            && (AllTidy(BLANK, es) && !AllTold(es) ==> JsonStack.IsUndetermined(Parse(t, AcceptAll())))
            && (|t| < U32 ==> AllTold(es))
  {
    hide Run, Verdict, Legal, Echoes, AllTidy, AllTold, Reached, Print, Parse, JsonStack.Strays, JsonStack.AllShort;
    var t := Print(y, BLANK, es);
    assert t[0..|t|] == t;
    PrintedRuns(y, BLANK, es, t, 0, []);
    VerdictSums(BLANK, es, [], |t|);
    assert [] + Echoes(BLANK, es) == Echoes(BLANK, es);
    TableAgrees(t, AcceptAll());
    if !JsonStack.Strays(t, AcceptAll(), INITIAL) {
      JsonStack.RunFollows(t, AcceptAll(), INITIAL, []);
    }
    if |t| < U32 {
      ShortTold(y, BLANK, es);
      JsonStack.ShortText(t);
      JsonStack.StraysIff(t, AcceptAll(), INITIAL);
    }
  }

  /** Indentation never changes what is read, whether or not the text is accepted. */
  lemma PrettyReadsAlike(y: Style, es: seq<Event>)
    requires StyleOk(y) && Legal(BLANK, es)
    ensures var a := Parse(Print(y, BLANK, es), AcceptAll());
            var b := Parse(Print(Compact, BLANK, es), AcceptAll());
            a.log == b.log && (a.Done? <==> b.Done?)
  {
    hide Run, Legal, AllTidy, Reached, Print, Parse, Verdict, TableParse;
    PrintedParses(y, es);
    PrintedParses(Compact, es);
    TableAgrees(Print(y, BLANK, es), AcceptAll());
    TableAgrees(Print(Compact, BLANK, es), AcceptAll());
    VerdictIgnoresLength(BLANK, es, [], |Print(y, BLANK, es)|, |Print(Compact, BLANK, es)|);
  }

  lemma {:induction false} VerdictIgnoresLength(s: Shape, es: seq<Event>, log: seq<Event>, m: nat, n: nat)
    requires Legal(s, es)
    ensures Verdict(s, es, log, m).log == Verdict(s, es, log, n).log
    decreases |es|
  {
    if es != [] && Tidy(s, es[0]) && ToldEvent(es[0]) {
      VerdictIgnoresLength(Next(s, es[0]), es[1..], log + [Echo(s, es[0])], m, n);
    }
  }

  const BARE_NAME: seq<Event> := [StartObject, Key([]), EndObject(0)]

  lemma ConsRun(s: Shape, e: Event, rest: seq<Event>)
    requires Accepts(s, e) && Legal(Next(s, e), rest)
    ensures Legal(s, [e] + rest) && Reached(s, [e] + rest) == Reached(Next(s, e), rest)
    ensures AllTidy(s, [e] + rest) <==> Tidy(s, e) && AllTidy(Next(s, e), rest)
  {
    hide Accepts, Next, Tidy;
    assert ([e] + rest)[1..] == rest;
  }

  const OPENED: Shape := Shape([Level(0, false)], true)
  const NAMED: Shape := Shape([Level(1, false)], true)

  lemma BareOpens()
    ensures Accepts(BLANK, StartObject) && Next(BLANK, StartObject) == OPENED
  {
  }

  lemma BareNames()
    ensures Accepts(OPENED, Key([])) && Next(OPENED, Key([])) == NAMED
  {
  }

  lemma BareCloses()
    ensures Accepts(NAMED, EndObject(0)) && Complete(Next(NAMED, EndObject(0))) && !Tidy(NAMED, EndObject(0))
  {
  }

  lemma EmptyRun(s: Shape)
    ensures Legal(s, []) && Reached(s, []) == s
  {
  }

  lemma BareName()
    ensures Legal(BLANK, BARE_NAME) && Complete(Reached(BLANK, BARE_NAME)) && !AllTidy(BLANK, BARE_NAME)
  {
    hide Legal, Reached, AllTidy, Accepts, Next, Tidy, Complete;
    BareOpens();
    BareNames();
    BareCloses();
    EmptyRun(Next(NAMED, EndObject(0)));
    ConsRun(NAMED, EndObject(0), []);
    ConsRun(OPENED, Key([]), [EndObject(0)] + []);
    ConsRun(BLANK, StartObject, [Key([])] + ([EndObject(0)] + []));
    assert [StartObject] + ([Key([])] + ([EndObject(0)] + [])) == BARE_NAME;
  }

  /** Being complete is not enough: a writer takes an object closed after a name for complete,
      and no reader accepts the text. */
  lemma CompleteIsNotEnough()
    ensures Legal(BLANK, BARE_NAME) && Complete(Reached(BLANK, BARE_NAME))
    ensures Parse(Print(Compact, BLANK, BARE_NAME), AcceptAll()).Fail?
  {
    hide *;
    BareName();
    assert StyleOk(Compact) by { CompactOk(); }
    PrintedParses(Compact, BARE_NAME);
  }

  lemma CompactOk()
    ensures StyleOk(Compact)
  {
  }
}
