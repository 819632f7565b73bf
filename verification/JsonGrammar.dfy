/** The values of RFC 4627, section 2, as concrete syntax trees with white space, any of them
    allowed as the root, and the theorem that the reader accepts exactly them and delivers
    exactly their events. */
module JsonGrammar {
  import opened Bytes
  import opened JsonEvents
  import opened JsonNumber
  import opened JsonString
  import opened JsonRecursive
  import opened JsonLocality

  // ---------- concrete syntax ----------

  datatype Node =
    | NullWord
    | TrueWord
    | FalseWord
    | Str(chars: seq<Char>)
    | Num(lexeme: bytes)
    | EmptyArray(pad: bytes)
    | Array(lead: bytes, elements: Elements)
    | EmptyObject(pad: bytes)
    | Object(lead: bytes, members: Members)

  /** An element and the white space after it; then the closing bracket, or a comma, white
      space and more elements. */
  datatype Elements =
    | LastElement(value: Node, trail: bytes)
    | MoreElements(value: Node, trail: bytes, lead: bytes, rest: Elements)

  /** A member: name, white space, colon, white space, value, white space; then as above. */
  datatype Members =
    | LastMember(key: seq<Char>, gap: bytes, lead: bytes, value: Node, trail: bytes)
    | MoreMembers(key: seq<Char>, gap: bytes, lead: bytes, value: Node, trail: bytes, next: bytes, rest: Members)

  predicate AllSpace(s: bytes) {
    forall i :: 0 <= i < |s| ==> IsSpace(s[i])
  }

  /** A number of section 2.4, standing alone, that is not too big for a double. */
  predicate NumOk(s: bytes) {
    NumberEnd(s, 0) == Some(|s|) && ParseNumber(s, 0).Good?
  }

  predicate NodeOk(n: Node) {
    match n
    case NullWord => true
    case TrueWord => true
    case FalseWord => true
    case Str(cs) => StrOk(cs)
    case Num(s) => NumOk(s)
    case EmptyArray(pad) => AllSpace(pad)
    case Array(lead, es) => AllSpace(lead) && ElementsOk(es)
    case EmptyObject(pad) => AllSpace(pad)
    case Object(lead, ms) => AllSpace(lead) && MembersOk(ms)
  }

  predicate ElementsOk(es: Elements) {
    && NodeOk(es.value) && AllSpace(es.trail)
    && (es.MoreElements? ==> AllSpace(es.lead) && ElementsOk(es.rest))
  }

  predicate MembersOk(ms: Members) {
    && StrOk(ms.key)
    && AllSpace(ms.gap) && AllSpace(ms.lead) && NodeOk(ms.value) && AllSpace(ms.trail)
    && (ms.MoreMembers? ==> AllSpace(ms.next) && MembersOk(ms.rest))
  }

  function Quoted(cs: seq<Char>): bytes {
    [QUOTE] + CharsText(cs) + [QUOTE]
  }

  function Text(n: Node): (r: bytes) {
    match n
    case NullWord => WORD_NULL
    case TrueWord => WORD_TRUE
    case FalseWord => WORD_FALSE
    case Str(cs) => Quoted(cs)
    case Num(s) => s
    case EmptyArray(pad) => [LBRACKET] + (pad + [RBRACKET])
    case Array(lead, es) => [LBRACKET] + (lead + ElementsText(es))
    case EmptyObject(pad) => [LBRACE] + (pad + [RBRACE])
    case Object(lead, ms) => [LBRACE] + (lead + MembersText(ms))
  }

  function ElementsText(es: Elements): (r: bytes)
    decreases es, 1
  {
    Text(es.value) + AfterElementText(es)
  }

  function AfterElementText(es: Elements): (r: bytes)
    decreases es, 0
  {
    match es
    case LastElement(v, trail) => trail + [RBRACKET]
    case MoreElements(v, trail, lead, rest) => trail + ([COMMA] + (lead + ElementsText(rest)))
  }

  function MembersText(ms: Members): (r: bytes)
    decreases ms, 2
  {
    Quoted(ms.key) + AfterKeyText(ms)
  }

  function AfterKeyText(ms: Members): (r: bytes)
    decreases ms, 1
  {
    ms.gap + ([COLON] + (ms.lead + (Text(ms.value) + AfterMemberText(ms))))
  }

  function AfterMemberText(ms: Members): (r: bytes)
    decreases ms, 0
  {
    match ms
    case LastMember(_, _, _, _, trail) => trail + [RBRACE]
    case MoreMembers(_, _, _, _, trail, next, rest) => trail + ([COMMA] + (next + MembersText(rest)))
  }

  /** The events of a text, in order; counts are those of a 32-bit counter, strings as the
      handler is given them. */
  function Events(n: Node): (r: seq<Event>)
    requires NodeOk(n)
  {
    match n
    case NullWord => [Null]
    case TrueWord => [Bool(true)]
    case FalseWord => [Bool(false)]
    case Str(cs) => [String(HandedOver(StrBytes(cs)))]
    case Num(s) => [ParseNumber(s, 0).event]
    case EmptyArray(_) => [StartArray, EndArray(0)]
    case Array(_, es) => [StartArray] + ElementsEvents(es, 0)
    case EmptyObject(_) => [StartObject, EndObject(0)]
    case Object(_, ms) => [StartObject] + MembersEvents(ms, 0)
  }

  function ElementsEvents(es: Elements, count: u32): (r: seq<Event>)
    requires ElementsOk(es)
    decreases es, 1
  {
    Events(es.value) + AfterElementEvents(es, Inc(count))
  }

  function AfterElementEvents(es: Elements, count: u32): (r: seq<Event>)
    requires ElementsOk(es)
    decreases es, 0
  {
    match es
    case LastElement(_, _) => [EndArray(count)]
    case MoreElements(_, _, _, rest) => ElementsEvents(rest, count)
  }

  function MembersEvents(ms: Members, count: u32): (r: seq<Event>)
    requires MembersOk(ms)
    decreases ms, 2
  {
    [Key(HandedOver(StrBytes(ms.key)))] + AfterKeyEvents(ms, count)
  }

  function AfterKeyEvents(ms: Members, count: u32): (r: seq<Event>)
    requires MembersOk(ms)
    decreases ms, 1
  {
    Events(ms.value) + AfterMemberEvents(ms, Inc(count))
  }

  function AfterMemberEvents(ms: Members, count: u32): (r: seq<Event>)
    requires MembersOk(ms)
    decreases ms, 0
  {
    match ms
    case LastMember(_, _, _, _, _) => [EndObject(count)]
    case MoreMembers(_, _, _, _, _, _, rest) => MembersEvents(rest, count)
  }

  // ---------- texts inside texts ----------

  predicate Holds(t: bytes, p: nat, x: bytes) {
    p + |x| <= |t| && t[p..p + |x|] == x
  }

  lemma HoldsSplit(t: bytes, p: nat, x: bytes, y: bytes)
    requires Holds(t, p, x + y)
    ensures Holds(t, p, x) && Holds(t, p + |x|, y)
  {
    assert t[p..p + |x|] == (x + y)[..|x|];
    assert t[p + |x|..p + |x| + |y|] == (x + y)[|x|..];
  }

  lemma HoldsFirst(t: bytes, p: nat, x: bytes)
    requires Holds(t, p, x) && |x| > 0
    ensures Peek(t, p) == x[0]
  {
    assert t[p] == t[p..p + |x|][0];
  }

  lemma SkipPad(t: bytes, p: nat, pad: bytes)
    requires Holds(t, p, pad) && AllSpace(pad) && !IsSpace(Peek(t, p + |pad|))
    ensures SkipSpace(t, p) == p + |pad|
  {
    forall i | p <= i < p + |pad|
      ensures IsSpace(t[i])
    {
      assert t[i] == t[p..p + |pad|][i - p];
    }
    SkipSpaceUnique(t, p, p + |pad|);
  }

  /** White space and then a text that does not start with white space. */
  lemma PadThen(t: bytes, p: nat, pad: bytes, x: bytes)
    requires Holds(t, p, pad + x) && AllSpace(pad) && |x| > 0 && !IsSpace(x[0])
    ensures SkipSpace(t, p) == p + |pad|
    ensures Holds(t, p + |pad|, x) && Peek(t, p + |pad|) == x[0]
  {
    hide SkipSpace, AllSpace;
    HoldsSplit(t, p, pad, x);
    HoldsFirst(t, p + |pad|, x);
    SkipPad(t, p, pad);
  }

  /** A separator, white space and then such a text. */
  lemma CommaThen(t: bytes, p: nat, b: byte, pad: bytes, x: bytes)
    requires Holds(t, p, [b] + (pad + x)) && AllSpace(pad) && |x| > 0 && !IsSpace(x[0])
    ensures Peek(t, p) == b && p < |t|
    ensures SkipSpace(t, p + 1) == p + 1 + |pad|
    ensures Holds(t, p + 1 + |pad|, x) && Peek(t, p + 1 + |pad|) == x[0]
  {
    hide SkipSpace, AllSpace;
    HoldsSplit(t, p, [b], pad + x);
    HoldsFirst(t, p, [b]);
    PadThen(t, p + 1, pad, x);
  }

  /** A number of section 2.4 or no number at all. */
  predicate Shaped(n: Node) {
    n.Num? ==> NumberEnd(n.lexeme, 0) == Some(|n.lexeme|)
  }

  lemma OkShaped(n: Node)
    requires NodeOk(n)
    ensures Shaped(n)
  {
  }

  /** No value starts with white space, a closing bracket or a separator. */
  lemma TextStarts(n: Node)
    requires Shaped(n)
    ensures |Text(n)| > 0
    ensures !IsSpace(Text(n)[0]) && Text(n)[0] !in {NUL, RBRACKET, RBRACE, COMMA, COLON}
    ensures Text(n)[0] == LBRACKET <==> n.EmptyArray? || n.Array?
    ensures Text(n)[0] == LBRACE <==> n.EmptyObject? || n.Object?
  {
    if n.Num? {
      assert |n.lexeme| > 0;
    }
  }

  // ---------- every text of the grammar is accepted ----------

  lemma WordsRead(t: bytes, p: nat, n: Node)
    requires n in {NullWord, TrueWord, FalseWord} && Holds(t, p, Text(n))
    ensures ParseToken(t, p) == Good(Events(n)[0], p + |Text(n)|)
  {
    HoldsFirst(t, p, Text(n));
  }

  lemma Around(t: bytes, p: nat, x: bytes)
    requires Holds(t, p, [QUOTE] + x + [QUOTE])
    ensures t == t[..p + 1] + x + [QUOTE] + t[p + |x| + 2..]
  {
    assert [QUOTE] + x + [QUOTE] == [QUOTE] + (x + [QUOTE]);
    HoldsSplit(t, p, [QUOTE], x + [QUOTE]);
    HoldsSplit(t, p + 1, x, [QUOTE]);
    SplitAround(t, p + 1, p + |x| + 1);
  }

  lemma SplitAround(t: bytes, a: nat, b: nat)
    requires a <= b < |t|
    ensures t == t[..a] + t[a..b] + t[b..b + 1] + t[b + 1..]
  {
    assert t[b..] == t[b..b + 1] + t[b + 1..];
    assert t[..b] == t[..a] + t[a..b];
  }

  lemma QuotedReads(t: bytes, p: nat, cs: seq<Char>)
    requires StrOk(cs) && Holds(t, p, Quoted(cs))
    ensures t[p] == QUOTE
    ensures ScanString(t, p + 1) == StrScan(StrBytes(cs), p + |Quoted(cs)|) && Told(StrBytes(cs))
  {
    hide ScanString, CharsText, CharsBytes, Told, Paired;
    HoldsFirst(t, p, Quoted(cs));
    Around(t, p, CharsText(cs));
    StringComplete(cs, t[..p + 1], t[p + |CharsText(cs)| + 2..]);
  }

  lemma NumReads(t: bytes, p: nat, s: bytes)
    requires NumOk(s) && Holds(t, p, s) && EndsNumber(Peek(t, p + |s|))
    ensures ParseNumber(t, p) == Good(ParseNumber(s, 0).event, p + |s|)
  {
    hide ParseNumber, NumberEnd, IsRange;
    NumberGrammar(s, 0);
    assert s[0..|s|] == s;
    NumberMoves(s, 0, t, p, |s|);
  }

  lemma AtomReads(t: bytes, p: nat, n: Node)
    requires NodeOk(n) && (n.NullWord? || n.TrueWord? || n.FalseWord? || n.Str? || n.Num?)
    requires Holds(t, p, Text(n)) && EndsNumber(Peek(t, p + |Text(n)|))
    ensures ParseToken(t, p) == Good(Events(n)[0], p + |Text(n)|) && |Events(n)| == 1
    ensures Peek(t, p) !in {LBRACE, LBRACKET}
  {
    hide ParseNumber, NumOk, Shaped, StrOk, EndsNumber;
    OkShaped(n);
    TextStarts(n);
    HoldsFirst(t, p, Text(n));
    match n
    case Str(cs) => QuotedReads(t, p, cs);
    case Num(s) => NumReads(t, p, s); NumStarts(s);
    case _ => WordsRead(t, p, n);
  }

  lemma NumStarts(s: bytes)
    requires NumOk(s)
    ensures |s| > 0 && (s[0] == MINUS || IsDigit(s[0]))
  {
  }

  /** What may follow a value: nothing that continues a number. */
  lemma FollowEnds(t: bytes, p: nat, pad: bytes, b: byte)
    requires Holds(t, p, pad + [b]) && AllSpace(pad) && b in {RBRACKET, RBRACE, COMMA}
    ensures EndsNumber(Peek(t, p))
    ensures SkipSpace(t, p) == p + |pad| && Peek(t, p + |pad|) == b
  {
    HoldsSplit(t, p, pad, [b]);
    HoldsFirst(t, p + |pad|, [b]);
    SkipPad(t, p, pad);
    if pad != [] {
      HoldsFirst(t, p, pad);
    }
  }

  lemma {:induction false} NodeReads(t: bytes, p: nat, n: Node, log: seq<Event>)
    requires NodeOk(n) && Holds(t, p, Text(n)) && EndsNumber(Peek(t, p + |Text(n)|))
    ensures ParseValue(t, p, AcceptAll(), log) == Done(p + |Text(n)|, log + Events(n))
    decreases n, 1
  {
    match n
    case EmptyArray(pad) =>
      BracketsRead(t, p, n, log);
    case Array(lead, es) =>
      ArrayReads(t, p, n, log);
    case EmptyObject(pad) =>
      BracketsRead(t, p, n, log);
    case Object(lead, ms) =>
      ObjectReads(t, p, n, log);
    case _ =>
      hide ParseToken, Text;
      AtomReads(t, p, n);
  }

  lemma BracketsRead(t: bytes, p: nat, n: Node, log: seq<Event>)
    requires (n.EmptyArray? || n.EmptyObject?) && NodeOk(n) && Holds(t, p, Text(n))
    ensures ParseValue(t, p, AcceptAll(), log) == Done(p + |Text(n)|, log + Events(n))
  {
    hide SkipSpace, ParseElements, ParseMembers;
    var open, close := if n.EmptyArray? then LBRACKET else LBRACE, if n.EmptyArray? then RBRACKET else RBRACE;
    HoldsFirst(t, p, Text(n));
    HoldsSplit(t, p, [open], n.pad + [close]);
    FollowEnds(t, p + 1, n.pad, close);
    var start := if n.EmptyArray? then StartArray else StartObject;
    var end := if n.EmptyArray? then EndArray(0) else EndObject(0);
    assert log + [start] + [end] == log + [start, end];
  }

  lemma {:induction false} ArrayReads(t: bytes, p: nat, n: Node, log: seq<Event>)
    requires n.Array? && NodeOk(n) && Holds(t, p, Text(n))
    ensures ParseValue(t, p, AcceptAll(), log) == Done(p + |Text(n)|, log + Events(n))
    decreases n, 0
  {
    hide ParseElements, ElementsText, SkipSpace, ElementsEvents, Shaped;
    var x := ElementsText(n.elements);
    OkShaped(n.elements.value);
    ElementsStart(n.elements);
    CommaThen(t, p, LBRACKET, n.lead, x);
    ElementsRead(t, p + 1 + |n.lead|, n.elements, log + [StartArray], 0);
    assert log + [StartArray] + ElementsEvents(n.elements, 0) == log + ([StartArray] + ElementsEvents(n.elements, 0));
  }

  lemma ElementsStart(es: Elements)
    requires Shaped(es.value)
    ensures |ElementsText(es)| > 0
    ensures !IsSpace(ElementsText(es)[0]) && ElementsText(es)[0] != RBRACKET
  {
    TextStarts(es.value);
    assert ElementsText(es)[0] == Text(es.value)[0];
  }

  lemma {:induction false} ElementsRead(t: bytes, p: nat, es: Elements, log: seq<Event>, count: u32)
    requires ElementsOk(es) && Holds(t, p, ElementsText(es))
    ensures ParseElements(t, p, AcceptAll(), log, count)
         == Done(p + |ElementsText(es)|, log + ElementsEvents(es, count))
    decreases es, 1
  {
    hide ParseValue, AfterElement, Text, AfterElementText, Events;
    HoldsSplit(t, p, Text(es.value), AfterElementText(es));
    var q := p + |Text(es.value)|;
    AfterElementEnds(t, q, es);
    NodeReads(t, p, es.value, log);
    AfterElementReads(t, q, es, log + Events(es.value), Inc(count));
    assert log + Events(es.value) + AfterElementEvents(es, Inc(count)) == log + ElementsEvents(es, count);
  }

  lemma AfterElementEnds(t: bytes, p: nat, es: Elements)
    requires AllSpace(es.trail) && Holds(t, p, AfterElementText(es))
    ensures EndsNumber(Peek(t, p))
    ensures var b := if es.LastElement? then RBRACKET else COMMA;
            SkipSpace(t, p) == p + |es.trail| && Peek(t, p + |es.trail|) == b
  {
    hide SkipSpace;
    match es
    case LastElement(v, trail) =>
      FollowEnds(t, p, trail, RBRACKET);
    case MoreElements(v, trail, lead, rest) =>
      var y := lead + ElementsText(rest);
      assert trail + ([COMMA] + y) == (trail + [COMMA]) + y;
      HoldsSplit(t, p, trail + [COMMA], y);
      FollowEnds(t, p, trail, COMMA);
  }

  lemma {:induction false} AfterElementReads(t: bytes, p: nat, es: Elements, log: seq<Event>, count: u32)
    requires ElementsOk(es) && Holds(t, p, AfterElementText(es))
    ensures AfterElement(t, p, AcceptAll(), log, count)
         == Done(p + |AfterElementText(es)|, log + AfterElementEvents(es, count))
    decreases es, 0
  {
    hide SkipSpace, ParseElements, ElementsText, ElementsEvents, AllSpace, NodeOk, Holds, Shaped;
    AfterElementEnds(t, p, es);
    if es.MoreElements? {
      var x := ElementsText(es.rest);
      HoldsSplit(t, p, es.trail, [COMMA] + (es.lead + x));
      OkShaped(es.rest.value);
      ElementsStart(es.rest);
      CommaThen(t, p + |es.trail|, COMMA, es.lead, x);
      ElementsRead(t, p + |es.trail| + 1 + |es.lead|, es.rest, log, count);
    }
  }

  lemma {:induction false} ObjectReads(t: bytes, p: nat, n: Node, log: seq<Event>)
    requires n.Object? && NodeOk(n) && Holds(t, p, Text(n))
    ensures ParseValue(t, p, AcceptAll(), log) == Done(p + |Text(n)|, log + Events(n))
    decreases n, 0
  {
    hide ParseMembers, MembersText, SkipSpace, MembersEvents, AllSpace, MembersOk;
    var x := MembersText(n.members);
    MembersStart(n.members);
    CommaThen(t, p, LBRACE, n.lead, x);
    MembersRead(t, p + 1 + |n.lead|, n.members, log + [StartObject], 0);
    assert log + [StartObject] + MembersEvents(n.members, 0) == log + ([StartObject] + MembersEvents(n.members, 0));
  }

  lemma MembersStart(ms: Members)
    ensures |MembersText(ms)| > 0 && MembersText(ms)[0] == QUOTE
  {
    assert Quoted(ms.key)[0] == QUOTE;
    assert MembersText(ms)[0] == Quoted(ms.key)[0];
  }

  lemma {:induction false} MembersRead(t: bytes, p: nat, ms: Members, log: seq<Event>, count: u32)
    requires MembersOk(ms) && Holds(t, p, MembersText(ms))
    ensures ParseMembers(t, p, AcceptAll(), log, count)
         == Done(p + |MembersText(ms)|, log + MembersEvents(ms, count))
    decreases ms, 2
  {
    hide AfterKey, ScanString, Quoted, AfterKeyText, AfterKeyEvents, HandedOver;
    HoldsSplit(t, p, Quoted(ms.key), AfterKeyText(ms));
    QuotedReads(t, p, ms.key);
    var q := p + |Quoted(ms.key)|;
    var k := log + [Key(HandedOver(StrBytes(ms.key)))];
    AfterKeyReads(t, q, ms, k, count);
    assert k + AfterKeyEvents(ms, count) == log + MembersEvents(ms, count);
  }

  lemma {:induction false} AfterKeyReads(t: bytes, p: nat, ms: Members, log: seq<Event>, count: u32)
    requires MembersOk(ms) && Holds(t, p, AfterKeyText(ms))
    ensures AfterKey(t, p, AcceptAll(), log, count)
         == Done(p + |AfterKeyText(ms)|, log + AfterKeyEvents(ms, count))
    decreases ms, 1
  {
    hide ParseValue, AfterMember, Text, AfterMemberText, Events, AfterMemberEvents, SkipSpace, AfterKeyText;
    hide Holds, StrOk, StrBytes, HandedOver;
    hide Shaped;
    OkShaped(ms.value);
    var v := ColonPlaces(t, p, ms);
    var q := v + |Text(ms.value)|;
    AfterMemberEnds(t, q, ms);
    NodeReads(t, v, ms.value, log);
    AfterMemberReads(t, q, ms, log + Events(ms.value), Inc(count));
    assert log + Events(ms.value) + AfterMemberEvents(ms, Inc(count)) == log + AfterKeyEvents(ms, count);
  }

  lemma ColonPlaces(t: bytes, p: nat, ms: Members) returns (v: nat)
    requires AllSpace(ms.gap) && AllSpace(ms.lead) && Shaped(ms.value) && Holds(t, p, AfterKeyText(ms))
    ensures var c := SkipSpace(t, p);
            Peek(t, c) == COLON && c < |t| && SkipSpace(t, c + 1) == v
    ensures Holds(t, v, Text(ms.value)) && Holds(t, v + |Text(ms.value)|, AfterMemberText(ms))
    ensures v + |Text(ms.value)| + |AfterMemberText(ms)| == p + |AfterKeyText(ms)|
  {
    hide SkipSpace, Text, AfterMemberText, AllSpace;
    var x := Text(ms.value) + AfterMemberText(ms);
    TextStarts(ms.value);
    PadThen(t, p, ms.gap, [COLON] + (ms.lead + x));
    CommaThen(t, p + |ms.gap|, COLON, ms.lead, x);
    v := p + |ms.gap| + 1 + |ms.lead|;
    HoldsSplit(t, v, Text(ms.value), AfterMemberText(ms));
  }

  lemma AfterMemberEnds(t: bytes, p: nat, ms: Members)
    requires AllSpace(ms.trail) && Holds(t, p, AfterMemberText(ms))
    ensures EndsNumber(Peek(t, p))
    ensures var b := if ms.LastMember? then RBRACE else COMMA;
            SkipSpace(t, p) == p + |ms.trail| && Peek(t, p + |ms.trail|) == b
  {
    hide SkipSpace, MembersText;
    match ms
    case LastMember(_, _, _, _, trail) =>
      FollowEnds(t, p, trail, RBRACE);
    case MoreMembers(_, _, _, _, trail, next, rest) =>
      var y := next + MembersText(rest);
      assert trail + ([COMMA] + y) == (trail + [COMMA]) + y;
      HoldsSplit(t, p, trail + [COMMA], y);
      FollowEnds(t, p, trail, COMMA);
  }

  lemma {:induction false} AfterMemberReads(t: bytes, p: nat, ms: Members, log: seq<Event>, count: u32)
    requires MembersOk(ms) && Holds(t, p, AfterMemberText(ms))
    ensures AfterMember(t, p, AcceptAll(), log, count)
         == Done(p + |AfterMemberText(ms)|, log + AfterMemberEvents(ms, count))
    decreases ms, 0
  {
    hide SkipSpace, ParseMembers, MembersText, MembersEvents, AllSpace, NodeOk, StrOk;
    AfterMemberEnds(t, p, ms);
    if ms.MoreMembers? {
      MoreMembersRead(t, p, ms, log, count);
    }
  }

  lemma RestOk(ms: Members)
    requires MembersOk(ms) && ms.MoreMembers?
    ensures MembersOk(ms.rest) && AllSpace(ms.trail) && AllSpace(ms.next)
  {
  }

  lemma {:induction false} MoreMembersRead(t: bytes, p: nat, ms: Members, log: seq<Event>, count: u32)
    requires MembersOk(ms) && ms.MoreMembers? && Holds(t, p, AfterMemberText(ms))
    ensures AfterMember(t, p, AcceptAll(), log, count)
         == Done(p + |AfterMemberText(ms)|, log + MembersEvents(ms.rest, count))
    decreases ms.rest, 3
  {
    hide SkipSpace, ParseMembers, MembersText, MembersEvents, AllSpace, NodeOk, StrOk, Holds, MembersOk;
    RestOk(ms);
    AfterMemberEnds(t, p, ms);
    var x := MembersText(ms.rest);
    HoldsSplit(t, p, ms.trail, [COMMA] + (ms.next + x));
    MembersStart(ms.rest);
    CommaThen(t, p + |ms.trail|, COMMA, ms.next, x);
    MembersRead(t, p + |ms.trail| + 1 + |ms.next|, ms.rest, log, count);
  }

  /** White space, a value, white space, then the end of the text or a NUL. */
  predicate IsDocument(t: bytes, lead: bytes, n: Node, trail: bytes) {
    && NodeOk(n) && AllSpace(lead) && AllSpace(trail)
    && Holds(t, 0, lead + Text(n) + trail)
    && Peek(t, |lead + Text(n) + trail|) == NUL
  }

  /** Every document of the grammar is accepted and delivers its events. */
  lemma DocumentComplete(t: bytes, lead: bytes, n: Node, trail: bytes)
    requires IsDocument(t, lead, n, trail)
    ensures Parse(t, AcceptAll()) == Done(|lead + Text(n) + trail|, Events(n))
  {
    hide ParseValue, SkipSpace, Text, Events, NodeOk, Holds, Shaped, AllSpace;
    OkShaped(n);
    var p := DocumentParts(t, lead, n, trail);
    NodeReads(t, p, n, []);
  }

  /** Where the value of a document stands, and what the reader skips before and after it. */
  lemma DocumentParts(t: bytes, lead: bytes, n: Node, trail: bytes) returns (p: nat)
    requires Shaped(n) && AllSpace(lead) && AllSpace(trail) && Holds(t, 0, lead + Text(n) + trail)
    requires Peek(t, |lead + Text(n) + trail|) == NUL
    ensures SkipSpace(t, 0) == p == |lead| && Holds(t, p, Text(n)) && Peek(t, p) != NUL
    ensures var q := p + |Text(n)|;
            q <= |t| && EndsNumber(Peek(t, q)) && SkipSpace(t, q) == q + |trail| && Peek(t, q + |trail|) == NUL
  {
    hide SkipSpace, Text, Shaped;
    HoldsSplit(t, 0, lead + Text(n), trail);
    HoldsSplit(t, 0, lead, Text(n));
    p := |lead|;
    TextStarts(n);
    HoldsFirst(t, p, Text(n));
    SkipPad(t, 0, lead);
    var q := p + |Text(n)|;
    SkipPad(t, q, trail);
    if trail != [] {
      HoldsFirst(t, q, trail);
    }
  }

  // ---------- nothing else is accepted ----------

  lemma HoldsJoin(t: bytes, p: nat, x: bytes, y: bytes)
    requires Holds(t, p, x) && Holds(t, p + |x|, y)
    ensures Holds(t, p, x + y)
  {
    var q := p + |x| + |y|;
    assert t[p..q] == t[p..p + |x|] + t[p + |x|..q];
  }

  /** A byte, white space, and a text after it. */
  lemma JoinPad(t: bytes, p: nat, b: byte, x: bytes) returns (pad: bytes)
    requires p < |t| && t[p] == b && Holds(t, SkipSpace(t, p + 1), x)
    ensures AllSpace(pad) && Holds(t, p, [b] + (pad + x))
    ensures p + 1 + |pad| == SkipSpace(t, p + 1)
  {
    pad := PadHere(t, p + 1);
    HoldsJoin(t, p + 1, pad, x);
    HoldsJoin(t, p, [b], pad + x);
  }

  lemma PadHere(t: bytes, p: nat) returns (pad: bytes)
    requires p <= |t|
    ensures AllSpace(pad) && Holds(t, p, pad) && p + |pad| == SkipSpace(t, p)
  {
    pad := t[p..SkipSpace(t, p)];
  }

  lemma AtomSound(t: bytes, p: nat) returns (n: Node)
    requires p <= |t| && ParseToken(t, p).Good?
    ensures NodeOk(n) && Holds(t, p, Text(n)) && ParseToken(t, p).next == p + |Text(n)|
    ensures Events(n) == [ParseToken(t, p).event]
  {
    hide ParseNumber, NumOk, ScanString;
    if Peek(t, p) == LOWER_N {
      n := NullWord;
    } else if Peek(t, p) == LOWER_T {
      n := TrueWord;
    } else if Peek(t, p) == LOWER_F {
      n := FalseWord;
    } else if Peek(t, p) == QUOTE {
      var cs := QuotedSound(t, p);
      n := Str(cs);
    } else {
      NumSound(t, p);
      n := Num(t[p..ParseToken(t, p).next]);
    }
  }

  lemma QuotedSound(t: bytes, p: nat) returns (cs: seq<Char>)
    requires p < |t| && t[p] == QUOTE && ScanString(t, p + 1).StrScan? && Told(ScanString(t, p + 1).str)
    ensures StrOk(cs) && Holds(t, p, Quoted(cs))
    ensures ScanString(t, p + 1) == StrScan(StrBytes(cs), p + |Quoted(cs)|)
  {
    hide ScanString, CharsText, CharsBytes, Told, Paired;
    cs := StringSound(t, p + 1);
    var x := CharsText(cs);
    HoldsJoin(t, p, [QUOTE], x + [QUOTE]);
    assert [QUOTE] + (x + [QUOTE]) == [QUOTE] + x + [QUOTE];
  }

  lemma NumSound(t: bytes, p: nat)
    requires p <= |t| && ParseNumber(t, p).Good?
    ensures var s := t[p..ParseNumber(t, p).next];
            NumOk(s) && ParseNumber(s, 0).event == ParseNumber(t, p).event
  {
    hide ParseNumber;
    var q := ParseNumber(t, p).next;
    var s := t[p..q];
    assert s[0..q - p] == s;
    NumberMoves(t, p, s, 0, q - p);
    NumberGrammar(s, 0);
  }

  lemma {:induction false} NodeSound(t: bytes, p: nat, log: seq<Event>) returns (n: Node)
    requires p <= |t| && ParseValue(t, p, AcceptAll(), log).Done?
    ensures NodeOk(n) && Holds(t, p, Text(n))
    ensures ParseValue(t, p, AcceptAll(), log) == Done(p + |Text(n)|, log + Events(n))
    decreases |t| - p, 1
  {
    if Peek(t, p) == LBRACE {
      n := ObjectSound(t, p, log);
    } else if Peek(t, p) == LBRACKET {
      n := ArraySound(t, p, log);
    } else {
      hide ParseToken, Text;
      n := AtomSound(t, p);
    }
  }

  lemma {:induction false} ArraySound(t: bytes, p: nat, log: seq<Event>) returns (n: Node)
    requires p < |t| && t[p] == LBRACKET && ParseArray(t, p, AcceptAll(), log).Done?
    ensures NodeOk(n) && Holds(t, p, Text(n))
    ensures ParseArray(t, p, AcceptAll(), log) == Done(p + |Text(n)|, log + Events(n))
    decreases |t| - p, 0
  {
    hide ParseElements, ElementsText, ElementsOk, ElementsEvents, SkipSpace, AllSpace;
    var q := SkipSpace(t, p + 1);
    if Peek(t, q) == RBRACKET {
      var pad := JoinPad(t, p, LBRACKET, [RBRACKET]);
      n := EmptyArray(pad);
      assert log + [StartArray] + [EndArray(0)] == log + [StartArray, EndArray(0)];
    } else {
      var es := ElementsSound(t, q, log + [StartArray], 0);
      var lead := JoinPad(t, p, LBRACKET, ElementsText(es));
      n := Array(lead, es);
      assert log + [StartArray] + ElementsEvents(es, 0) == log + ([StartArray] + ElementsEvents(es, 0));
    }
  }

  lemma {:induction false} ElementsSound(t: bytes, p: nat, log: seq<Event>, count: u32) returns (es: Elements)
    requires p <= |t| && ParseElements(t, p, AcceptAll(), log, count).Done?
    ensures ElementsOk(es) && Holds(t, p, ElementsText(es))
    ensures ParseElements(t, p, AcceptAll(), log, count)
         == Done(p + |ElementsText(es)|, log + ElementsEvents(es, count))
    decreases |t| - p, 2
  {
    hide ParseValue, AfterElement, Text, Events, NodeOk, AfterElementEvents, AfterElementText, AllSpace;
    var v := NodeSound(t, p, log);
    var q := p + |Text(v)|;
    es := AfterElementSound(t, q, log + Events(v), Inc(count), v);
    HoldsJoin(t, p, Text(v), AfterElementText(es));
    assert log + Events(v) + AfterElementEvents(es, Inc(count)) == log + ElementsEvents(es, count);
  }

  lemma {:induction false} AfterElementSound(t: bytes, p: nat, log: seq<Event>, count: u32, v: Node)
    returns (es: Elements)
    requires p <= |t| && AfterElement(t, p, AcceptAll(), log, count).Done? && NodeOk(v)
    ensures es.value == v && ElementsOk(es) && Holds(t, p, AfterElementText(es))
    ensures AfterElement(t, p, AcceptAll(), log, count)
         == Done(p + |AfterElementText(es)|, log + AfterElementEvents(es, count))
    decreases |t| - p, 0
  {
    hide ParseElements, ElementsText, ElementsEvents, SkipSpace, AllSpace, NodeOk, Holds;
    var trail := PadHere(t, p);
    var x := SkipSpace(t, p);
    if Peek(t, x) == COMMA {
      var rest := ElementsSound(t, SkipSpace(t, x + 1), log, count);
      var lead := JoinPad(t, x, COMMA, ElementsText(rest));
      es := MoreElements(v, trail, lead, rest);
      HoldsJoin(t, p, trail, [COMMA] + (lead + ElementsText(rest)));
    } else {
      es := LastElement(v, trail);
      HoldsJoin(t, p, trail, [RBRACKET]);
    }
  }

  lemma {:induction false} ObjectSound(t: bytes, p: nat, log: seq<Event>) returns (n: Node)
    requires p < |t| && t[p] == LBRACE && ParseObject(t, p, AcceptAll(), log).Done?
    ensures NodeOk(n) && Holds(t, p, Text(n))
    ensures ParseObject(t, p, AcceptAll(), log) == Done(p + |Text(n)|, log + Events(n))
    decreases |t| - p, 0
  {
    hide ParseMembers, MembersText, MembersOk, MembersEvents, SkipSpace, AllSpace;
    var q := SkipSpace(t, p + 1);
    if Peek(t, q) == RBRACE {
      var pad := JoinPad(t, p, LBRACE, [RBRACE]);
      n := EmptyObject(pad);
      assert log + [StartObject] + [EndObject(0)] == log + [StartObject, EndObject(0)];
    } else {
      var ms := MembersSound(t, q, log + [StartObject], 0);
      var lead := JoinPad(t, p, LBRACE, MembersText(ms));
      n := Object(lead, ms);
      assert log + [StartObject] + MembersEvents(ms, 0) == log + ([StartObject] + MembersEvents(ms, 0));
    }
  }

  lemma {:induction false} MembersSound(t: bytes, p: nat, log: seq<Event>, count: u32) returns (ms: Members)
    requires p <= |t| && ParseMembers(t, p, AcceptAll(), log, count).Done?
    ensures MembersOk(ms) && Holds(t, p, MembersText(ms))
    ensures ParseMembers(t, p, AcceptAll(), log, count)
         == Done(p + |MembersText(ms)|, log + MembersEvents(ms, count))
    decreases |t| - p, 0
  {
    hide AfterKey, ScanString, Quoted, AfterKeyText, AfterKeyEvents, StrBytes, StrOk, MembersOk, HandedOver;
    var key := QuotedSound(t, p);
    var q := p + |Quoted(key)|;
    var k := log + [Key(HandedOver(StrBytes(key)))];
    ms := AfterKeySound(t, q, k, count, key);
    HoldsJoin(t, p, Quoted(key), AfterKeyText(ms));
    assert k + AfterKeyEvents(ms, count) == log + MembersEvents(ms, count);
  }

  lemma {:induction false} AfterKeySound(t: bytes, p: nat, log: seq<Event>, count: u32, key: seq<Char>)
    returns (ms: Members)
    requires p <= |t| && AfterKey(t, p, AcceptAll(), log, count).Done? && StrOk(key)
    ensures ms.key == key && MembersOk(ms) && Holds(t, p, AfterKeyText(ms))
    ensures AfterKey(t, p, AcceptAll(), log, count)
         == Done(p + |AfterKeyText(ms)|, log + AfterKeyEvents(ms, count))
    decreases |t| - p, 0
  {
    hide ParseValue, AfterMember, Text, Events, NodeOk, AfterMemberEvents, AfterMemberText;
    hide AllSpace, SkipSpace, StrOk, StrBytes, HandedOver, Holds, MembersOk;
    var gap := PadHere(t, p);
    var c := SkipSpace(t, p);
    var s := SkipSpace(t, c + 1);
    var v := NodeSound(t, s, log);
    var q := s + |Text(v)|;
    var lead := PadHere(t, c + 1);
    ms := AfterMemberSound(t, q, log + Events(v), Inc(count), key, gap, lead, v);
    HoldsJoin(t, s, Text(v), AfterMemberText(ms));
    ColonJoin(t, p, gap, lead, Text(v) + AfterMemberText(ms));
    assert log + Events(v) + AfterMemberEvents(ms, Inc(count)) == log + AfterKeyEvents(ms, count);
  }

  lemma ColonJoin(t: bytes, p: nat, gap: bytes, lead: bytes, x: bytes)
    requires Holds(t, p, gap) && Peek(t, p + |gap|) == COLON
    requires Holds(t, p + |gap| + 1, lead) && Holds(t, p + |gap| + 1 + |lead|, x)
    ensures Holds(t, p, gap + ([COLON] + (lead + x)))
  {
    HoldsJoin(t, p + |gap| + 1, lead, x);
    HoldsJoin(t, p + |gap|, [COLON], lead + x);
    HoldsJoin(t, p, gap, [COLON] + (lead + x));
  }

  lemma {:induction false} AfterMemberSound(t: bytes, p: nat, log: seq<Event>, count: u32,
                                            key: seq<Char>, gap: bytes, lead: bytes, v: Node)
    returns (ms: Members)
    requires p <= |t| && AfterMember(t, p, AcceptAll(), log, count).Done?
    requires StrOk(key) && AllSpace(gap) && AllSpace(lead) && NodeOk(v)
    ensures ms.key == key && ms.gap == gap && ms.lead == lead && ms.value == v
    ensures MembersOk(ms) && Holds(t, p, AfterMemberText(ms))
    ensures AfterMember(t, p, AcceptAll(), log, count)
         == Done(p + |AfterMemberText(ms)|, log + AfterMemberEvents(ms, count))
    decreases |t| - p, 0
  {
    hide ParseMembers, MembersText, MembersEvents, SkipSpace, AllSpace, NodeOk, StrOk, Holds;
    var trail := PadHere(t, p);
    var x := SkipSpace(t, p);
    if Peek(t, x) == COMMA {
      var rest := MembersSound(t, SkipSpace(t, x + 1), log, count);
      var next := JoinPad(t, x, COMMA, MembersText(rest));
      ms := MoreMembers(key, gap, lead, v, trail, next, rest);
      HoldsJoin(t, p, trail, [COMMA] + (next + MembersText(rest)));
    } else {
      ms := LastMember(key, gap, lead, v, trail);
      HoldsJoin(t, p, trail, [RBRACE]);
    }
  }

  /** Only documents of the grammar are accepted, and only their events are delivered. */
  lemma DocumentSound(t: bytes) returns (lead: bytes, n: Node, trail: bytes)
    requires Parse(t, AcceptAll()).Done?
    ensures IsDocument(t, lead, n, trail)
    ensures Parse(t, AcceptAll()) == Done(|lead + Text(n) + trail|, Events(n))
  {
    hide ParseValue, SkipSpace, Text, Events, NodeOk, AllSpace;
    var p := SkipSpace(t, 0);
    lead := PadHere(t, 0);
    n := NodeSound(t, p, []);
    trail := PadHere(t, p + |Text(n)|);
    HoldsJoin(t, 0, lead, Text(n));
    HoldsJoin(t, 0, lead + Text(n), trail);
  }
}
