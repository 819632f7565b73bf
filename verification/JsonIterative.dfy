/** The table of the iterative JSON reader as a pushdown automaton with a stack of its own, made
    of (state to return to, count) frames. */
module JsonIterative {
  import opened Bytes
  import opened JsonEvents
  import opened JsonRecursive

  datatype State =
    | StartState
    | FinishState
    | ErrorState
    | ObjectInitialState
    | MemberKeyState
    | KeyValueDelimiterState
    | MemberValueState
    | MemberDelimiterState
    | ObjectFinishState
    | ArrayInitialState
    | ElementState
    | ElementDelimiterState
    | ArrayFinishState
    | ValueState

  datatype Lookahead =
    | LeftBracketToken
    | RightBracketToken
    | LeftCurlyBracketToken
    | RightCurlyBracketToken
    | CommaToken
    | ColonToken
    | StringToken
    | FalseToken
    | TrueToken
    | NullToken
    | NumberToken

  function Tokenize(b: byte): Lookahead {
    if b == LBRACKET then LeftBracketToken
    else if b == RBRACKET then RightBracketToken
    else if b == LBRACE then LeftCurlyBracketToken
    else if b == RBRACE then RightCurlyBracketToken
    else if b == COMMA then CommaToken
    else if b == COLON then ColonToken
    else if b == QUOTE then StringToken
    else if b == LOWER_F then FalseToken
    else if b == LOWER_T then TrueToken
    else if b == LOWER_N then NullToken
    else NumberToken
  }

  /** A row of the transition table that expects a value: `simple` after a value that is not
      a container, `close` on a right bracket. */
  function ValueRow(k: Lookahead, simple: State, close: State): State {
    match k
    case LeftBracketToken => ArrayInitialState
    case RightBracketToken => close
    case LeftCurlyBracketToken => ObjectInitialState
    case RightCurlyBracketToken => ErrorState
    case CommaToken => ErrorState
    case ColonToken => ErrorState
    case _ => simple
  }

  /** The transition table. */
  function Predict(s: State, k: Lookahead): (d: State) {
    match s
    case StartState => ValueRow(k, ValueState, ErrorState)
    case ObjectInitialState =>
      (match k
       case RightCurlyBracketToken => ObjectFinishState
       case StringToken => MemberKeyState
       case _ => ErrorState)
    case MemberKeyState => if k == ColonToken then KeyValueDelimiterState else ErrorState
    case KeyValueDelimiterState => ValueRow(k, MemberValueState, ErrorState)
    case MemberValueState =>
      (match k
       case RightCurlyBracketToken => ObjectFinishState
       case CommaToken => MemberDelimiterState
       case _ => ErrorState)
    case MemberDelimiterState => if k == StringToken then MemberKeyState else ErrorState
    case ArrayInitialState => ValueRow(k, ElementState, ArrayFinishState)
    case ElementState =>
      (match k
       case RightBracketToken => ArrayFinishState
       case CommaToken => ElementDelimiterState
       case _ => ErrorState)
    case ElementDelimiterState => ValueRow(k, ElementState, ErrorState)
    case _ => ErrorState
  }

  datatype Frame = Frame(back: State, count: u32)

  /** State, position in the text, stack (top last), events delivered. */
  datatype Config = Config(state: State, pos: nat, stack: seq<Frame>, log: seq<Event>)

  /** Only the bottom frame returns to the start state. */
  predicate StackOk(stack: seq<Frame>) {
    forall i :: 0 <= i < |stack| ==>
      stack[i].back in (if i == 0 then {StartState} else {ElementState, MemberValueState})
  }

  /** What the automaton keeps: a state outside containers goes with the empty stack. */
  predicate Coherent(c: Config) {
    && (c.state in {StartState, FinishState} <==> c.stack == [])
    && c.state !in {ErrorState, ObjectFinishState, ArrayFinishState, ValueState}
    && StackOk(c.stack)
  }

  /** Result of Transit: an error whose code is already set, an error whose code is still to
      be chosen by HandleError, or the next configuration. */
  datatype Move =
    | Stop(code: ErrorCode, log: seq<Event>)
    | NoRule
    | Moved(config: Config)

  function MoveOn(o: Outcome, s: State, stack: seq<Frame>): Move {
    match o
    case Fail(code, log) => Stop(code, log)
    case Done(next, log) => Moved(Config(s, next, stack, log))
  }

  /** The state to come back to when a container that opens in state `s` closes. */
  function Back(s: State): State {
    if s == ArrayInitialState || s == ElementDelimiterState then ElementState
    else if s == KeyValueDelimiterState then MemberValueState
    else s
  }

  function TransitClose(h: Handler, c: Config, full: State, isObject: bool): Move
    requires |c.stack| > 0
  {
    var top := c.stack[|c.stack| - 1];
    var count := if c.state == full then Inc(top.count) else top.count;
    var back := if top.back == StartState then FinishState else top.back;
    MoveOn(Deliver(h, c.log, if isObject then EndObject(count) else EndArray(count), c.pos + 1),
           back, c.stack[..|c.stack| - 1])
  }

  function Transit(t: bytes, h: Handler, c: Config, d: State): (m: Move)
    requires Coherent(c) && c.pos < |t|
    requires d == Predict(c.state, Tokenize(t[c.pos]))
  {
    match d
    case ErrorState => NoRule
    case ObjectInitialState =>
      MoveOn(Deliver(h, c.log, StartObject, c.pos + 1), d, c.stack + [Frame(Back(c.state), 0)])
    case ArrayInitialState =>
      MoveOn(Deliver(h, c.log, StartArray, c.pos + 1), d, c.stack + [Frame(Back(c.state), 0)])
    case MemberKeyState =>
      MoveOn(DeliverToken(h, c.log, ParseString(t, c.pos, true)), d, c.stack)
    case KeyValueDelimiterState =>
      Moved(Config(d, c.pos + 1, c.stack, c.log))
    case MemberValueState =>
      MoveOn(DeliverToken(h, c.log, ParseToken(t, c.pos)), d, c.stack)
    case ElementState =>
      MoveOn(DeliverToken(h, c.log, ParseToken(t, c.pos)), d, c.stack)
    case MemberDelimiterState =>
      Moved(Config(d, c.pos + 1, Bump(c.stack), c.log))
    case ElementDelimiterState =>
      Moved(Config(d, c.pos + 1, Bump(c.stack), c.log))
    case ObjectFinishState =>
      TransitClose(h, c, MemberValueState, true)
    case ArrayFinishState =>
      TransitClose(h, c, ElementState, false)
    case _ =>
      MoveOn(DeliverToken(h, c.log, ParseToken(t, c.pos)), FinishState, c.stack)
  }

  /** Counts one more member or element in the top frame. */
  function Bump(stack: seq<Frame>): (r: seq<Frame>)
    requires |stack| > 0
    ensures |r| == |stack| && r[..|stack| - 1] == stack[..|stack| - 1]
  {
    var n := |stack| - 1;
    stack[n := Frame(stack[n].back, Inc(stack[n].count))]
  }

  /** HandleError: the code for a state in which the input cannot go on. */
  function HandleError(s: State): ErrorCode {
    match s
    case StartState => DocumentEmpty
    case FinishState => DocumentRootNotSingular
    case ObjectInitialState => ObjectMissName
    case MemberDelimiterState => ObjectMissName
    case MemberKeyState => ObjectMissColon
    case MemberValueState => ObjectMissCommaOrCurlyBracket
    case ElementState => ArrayMissCommaOrSquareBracket
    case _ => UnspecificSyntaxError
  }

  /** One turn of the loop. */
  function Step(t: bytes, h: Handler, c: Config): (m: Move)
    requires Coherent(c) && c.pos < |t|
  {
    Transit(t, h, c, Predict(c.state, Tokenize(t[c.pos])))
  }

  /** From which states the table leads to which. */
  lemma PredictFrom(s: State, k: Lookahead)
    ensures var d := Predict(s, k);
            && d !in {StartState, FinishState}
            && (d in {ObjectInitialState, ArrayInitialState} ==>
                  s in {StartState, KeyValueDelimiterState, ArrayInitialState, ElementDelimiterState})
            && (d == ValueState ==> s == StartState)
            && (d !in {ErrorState, ObjectInitialState, ArrayInitialState, ValueState} ==>
                  s !in {StartState, FinishState})
  {
  }

  /** Every turn keeps the stack coherent and consumes input, so the loop ends. */
  lemma StepCoherent(t: bytes, h: Handler, c: Config)
    requires Coherent(c) && c.pos < |t|
    ensures var m := Step(t, h, c);
            m.Moved? ==> Coherent(m.config) && c.pos < m.config.pos <= |t|
  {
    hide StackOk, Predict, ParseToken, ParseString, Tokenize;
    PredictFrom(c.state, Tokenize(t[c.pos]));
    var d := Predict(c.state, Tokenize(t[c.pos]));
    if d in {ObjectInitialState, ArrayInitialState} {
      OpenOk(c.stack, Back(c.state));
    } else if d in {ObjectFinishState, ArrayFinishState} {
      CloseOk(c.stack);
    } else if d in {MemberDelimiterState, ElementDelimiterState} {
      BumpOk(c.stack);
    }
  }

  lemma OpenOk(stack: seq<Frame>, back: State)
    requires StackOk(stack)
    requires back in (if stack == [] then {StartState} else {ElementState, MemberValueState})
    ensures StackOk(stack + [Frame(back, 0)])
  {
  }

  lemma CloseOk(stack: seq<Frame>)
    requires StackOk(stack) && |stack| > 0
    ensures var n := |stack| - 1;
            StackOk(stack[..n]) && stack[n].back in (if n == 0 then {StartState} else {ElementState, MemberValueState})
  {
  }

  lemma BumpOk(stack: seq<Frame>)
    requires StackOk(stack) && |stack| > 0
    ensures StackOk(Bump(stack))
  {
  }

  /** The loop from a configuration on; white space is skipped before
      each look at the input. */
  function Run(t: bytes, h: Handler, c: Config): (r: Outcome)
    requires Coherent(c) && c.pos <= |t|
    decreases |t| - c.pos
  {
    var d := c.(pos := SkipSpace(t, c.pos));
    if Peek(t, d.pos) == NUL then
      if d.state == FinishState then Done(d.pos, d.log) else Fail(HandleError(d.state), d.log)
    else
      StepCoherent(t, h, d);
      match Step(t, h, d)
      case Stop(code, log) => Fail(code, log)
      case NoRule => Fail(HandleError(d.state), d.log)
      case Moved(e) => Run(t, h, e)
  }

  const INITIAL: Config := Config(StartState, 0, [], [])

  /** A whole parse by the automaton. */
  function TableParse(t: bytes, h: Handler): (r: Outcome) {
    Run(t, h, INITIAL)
  }
}
