/** What the writers put for each event, as functions: Writer without white space and
    PrettyWriter with indentation share everything but the padding. */
module JsonPrinter {
  import opened Bytes
  import opened JsonEvents
  import opened JsonString
  import opened JsonRecursive
  import opened JsonNumber
  import opened JsonDocument

  // ---------- the level stack ----------

  datatype Level = Level(valueCount: nat, inArray: bool)

  /** The part of a writer's state that decides what it accepts: the levels, innermost last,
      and whether the root has been started. */
  datatype Shape = Shape(levels: seq<Level>, hasRoot: bool)

  const BLANK: Shape := Shape([], false)

  /** Writer::IsComplete. */
  predicate Complete(s: Shape) {
    s.hasRoot && s.levels == []
  }

  function Top(s: Shape): Level
    requires s.levels != []
  {
    s.levels[|s.levels| - 1]
  }

  /** The next value is a member's name. */
  predicate AtName(s: Shape) {
    s.levels != [] && !Top(s).inArray && Top(s).valueCount % 2 == 0
  }

  /** The assertions of Prefix: one root only, and names are strings. */
  predicate PrefixOk(s: Shape, isString: bool) {
    if s.levels == [] then !s.hasRoot else AtName(s) ==> isString
  }

  function Prefixed(s: Shape): Shape {
    if s.levels == [] then Shape([], true)
    else
      var n := |s.levels| - 1;
      Shape(s.levels[..n] + [Level(s.levels[n].valueCount + 1, s.levels[n].inArray)], s.hasRoot)
  }

  /** Events whose argument is in the range of its type; doubles are outside the model. */
  predicate Printable(e: Event) {
    match e
    case Int(i) => -P31 <= i < P31
    case Uint(u) => 0 <= u < U32
    case Int64(i) => -P63 <= i < P63
    case Uint64(u) => 0 <= u < U64
    case Double(_, _, _) => false
    case _ => true
  }

  predicate IsStringEvent(e: Event) {
    e.String? || e.Key?
  }

  /** No assertion of the writer fails on this event. */
  predicate Accepts(s: Shape, e: Event) {
    && Printable(e)
    && if IsEnd(e) then s.levels != [] && Top(s).inArray == e.EndArray?
       else PrefixOk(s, IsStringEvent(e))
  }

  function Next(s: Shape, e: Event): Shape
    requires Accepts(s, e)
  {
    if IsEnd(e) then Shape(s.levels[..|s.levels| - 1], s.hasRoot)
    else if e.StartObject? || e.StartArray? then
      var q := Prefixed(s);
      Shape(q.levels + [Level(0, e.StartArray?)], q.hasRoot)
    else Prefixed(s)
  }

  // ---------- the bytes ----------

  datatype Style =
    | Compact
    | Pretty(indentChar: byte, indentCharCount: nat)

  /** SetIndent asserts that the indentation is white space. */
  predicate StyleOk(y: Style) {
    y.Pretty? ==> IsSpace(y.indentChar)
  }

  function Indent(y: Style, depth: nat): bytes {
    match y
    case Compact => []
    case Pretty(c, n) => seq(depth * n, _ => c)
  }

  /** The separator before a value: none before the first of its level. */
  function Mark(s: Shape): bytes {
    if s.levels == [] || Top(s).valueCount == 0 then []
    else if Top(s).inArray || Top(s).valueCount % 2 == 0 then [COMMA]
    else [COLON]
  }

  /** The white space after the separator. */
  function Pad(y: Style, s: Shape): bytes {
    if y.Compact? || s.levels == [] then []
    else if Top(s).inArray || Top(s).valueCount % 2 == 0 then [LF] + Indent(y, |s.levels|)
    else [SPACE]
  }

  /** The white space before a closing bracket. */
  function EndPad(y: Style, s: Shape): bytes
    requires s.levels != []
  {
    if y.Compact? || Top(s).valueCount == 0 then [] else [LF] + Indent(y, |s.levels| - 1)
  }

  function Digits(n: nat): (s: bytes)
    ensures |s| > 0
  {
    if n < 10 then [DIGIT0 + n] else Digits(n / 10) + [DIGIT0 + n % 10]
  }

  /** Canonical decimal notation, which is what i32toa and its kin produce. */
  function Decimal(v: int): bytes {
    if v < 0 then [MINUS] + Digits(-v) else Digits(v)
  }

  /** The token of an event. */
  function TokenText(e: Event): (s: bytes)
    requires Printable(e)
    ensures |s| > 0
  {
    match e
    case Null => WORD_NULL
    case Bool(b) => if b then WORD_TRUE else WORD_FALSE
    case Int(i) => Decimal(i)
    case Uint(u) => Decimal(u)
    case Int64(i) => Decimal(i)
    case Uint64(u) => Decimal(u)
    case String(s) => QuoteString(s)
    case Key(s) => QuoteString(s)
    case StartObject => [LBRACE]
    case StartArray => [LBRACKET]
    case EndObject(_) => [RBRACE]
    case EndArray(_) => [RBRACKET]
  }

  /** White space and separators before the token. */
  function Front(y: Style, s: Shape, e: Event): bytes
    requires Accepts(s, e)
  {
    if IsEnd(e) then EndPad(y, s) else Mark(s) + Pad(y, s)
  }

  /** All an event puts. */
  function Put(y: Style, s: Shape, e: Event): bytes
    requires Accepts(s, e)
  {
    Front(y, s, e) + TokenText(e)
  }

  // ---------- event sequences ----------

  predicate Legal(s: Shape, es: seq<Event>)
    decreases |es|
  {
    es == [] || (Accepts(s, es[0]) && Legal(Next(s, es[0]), es[1..]))
  }

  function Print(y: Style, s: Shape, es: seq<Event>): bytes
    requires Legal(s, es)
    decreases |es|
  {
    if es == [] then [] else Put(y, s, es[0]) + Print(y, Next(s, es[0]), es[1..])
  }

  function Reached(s: Shape, es: seq<Event>): Shape
    requires Legal(s, es)
    decreases |es|
  {
    if es == [] then s else Reached(Next(s, es[0]), es[1..])
  }
}
