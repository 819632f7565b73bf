/** The recursive-descent JSON reader, as functions from text, position, handler and the
    events delivered so far. */
module JsonRecursive {
  import opened Bytes
  import opened JsonEvents
  import JsonNumber
  import JsonString

  const WORD_NULL: bytes := [LOWER_N, LOWER_U, 108, 108]
  const WORD_TRUE: bytes := [LOWER_T, 114, LOWER_U, LOWER_E]
  const WORD_FALSE: bytes := [LOWER_F, 97, 108, 115, LOWER_E]

  /** ParseNull, ParseTrue, ParseFalse: the remaining letters must follow the first one. */
  function ParseWord(t: bytes, p: nat, word: bytes, e: Event): (r: Token)
    ensures r.Good? ==> r.next == p + |word| <= |t| && t[p..r.next] == word
  {
    if p + |word| <= |t| && t[p..p + |word|] == word then Good(e, p + |word|)
    else Bad(ValueInvalid)
  }

  /** The event carries what is handed over of the decoded string, if that is part of the string. */
  function ParseString(t: bytes, p: nat, isKey: bool): (r: Token)
    requires p < |t| && t[p] == QUOTE
    ensures r.Good? ==> p < r.next <= |t|
  {
    match JsonString.ScanString(t, p + 1)
    case BadStr(code) => Bad(code)
    case StrScan(s, q) =>
      if !JsonString.Told(s) then Bad(Undetermined)
      else
        var str := JsonString.HandedOver(s);
        Good(if isKey then Key(str) else String(str), q)
  }

  /** ParseValue on anything but an object or an array. */
  function ParseToken(t: bytes, p: nat): (r: Token)
    requires p <= |t|
    ensures r.Good? ==> p < r.next <= |t|
  {
    var b := Peek(t, p);
    if b == LOWER_N then ParseWord(t, p, WORD_NULL, Null)
    else if b == LOWER_T then ParseWord(t, p, WORD_TRUE, Bool(true))
    else if b == LOWER_F then ParseWord(t, p, WORD_FALSE, Bool(false))
    else if b == QUOTE then ParseString(t, p, false)
    else JsonNumber.ParseNumber(t, p)
  }

  /** Hands one event to the handler; a refusal ends the parse. */
  function Deliver(h: Handler, log: seq<Event>, e: Event, next: nat): (r: Outcome) {
    if h(log + [e]) then Done(next, log + [e]) else Fail(Termination, log + [e])
  }

  function DeliverToken(h: Handler, log: seq<Event>, k: Token): (r: Outcome) {
    match k
    case Bad(code) => Fail(code, log)
    case Good(e, next) => Deliver(h, log, e, next)
  }

  function ParseValue(t: bytes, p: nat, h: Handler, log: seq<Event>): (r: Outcome)
    requires p <= |t|
    ensures r.Done? ==> p < r.next <= |t|
    decreases |t| - p, 1
  {
    if Peek(t, p) == LBRACE then ParseObject(t, p, h, log)
    else if Peek(t, p) == LBRACKET then ParseArray(t, p, h, log)
    else DeliverToken(h, log, ParseToken(t, p))
  }

  function ParseObject(t: bytes, p: nat, h: Handler, log: seq<Event>): (r: Outcome)
    requires p < |t| && t[p] == LBRACE
    ensures r.Done? ==> p < r.next <= |t|
    decreases |t| - p, 0
  {
    var start := Deliver(h, log, StartObject, p + 1);
    if start.Fail? then start
    else
      var q := SkipSpace(t, p + 1);
      if Peek(t, q) == RBRACE then Deliver(h, start.log, EndObject(0), q + 1)
      else ParseMembers(t, q, h, start.log, 0)
  }

  /** The loop of ParseObject, with `count` members behind it. */
  function ParseMembers(t: bytes, p: nat, h: Handler, log: seq<Event>, count: u32): (r: Outcome)
    requires p <= |t|
    ensures r.Done? ==> p < r.next <= |t|
    decreases |t| - p, 0
  {
    if Peek(t, p) != QUOTE then Fail(ObjectMissName, log)
    else
      var key := DeliverToken(h, log, ParseString(t, p, true));
      if key.Fail? then key else AfterKey(t, key.next, h, key.log, count)
  }

  /** The colon and the value of a member. */
  function AfterKey(t: bytes, p: nat, h: Handler, log: seq<Event>, count: u32): (r: Outcome)
    requires p <= |t|
    ensures r.Done? ==> p < r.next <= |t|
    decreases |t| - p, 0
  {
    var c := SkipSpace(t, p);
    if Peek(t, c) != COLON then Fail(ObjectMissColon, log)
    else
      var value := ParseValue(t, SkipSpace(t, c + 1), h, log);
      if value.Fail? then value else AfterMember(t, value.next, h, value.log, Inc(count))
  }

  /** After `count` members: a comma and the next one, or the end of the object. */
  function AfterMember(t: bytes, p: nat, h: Handler, log: seq<Event>, count: u32): (r: Outcome)
    requires p <= |t|
    ensures r.Done? ==> p < r.next <= |t|
    decreases |t| - p, 0
  {
    var x := SkipSpace(t, p);
    if Peek(t, x) == COMMA then ParseMembers(t, SkipSpace(t, x + 1), h, log, count)
    else if Peek(t, x) == RBRACE then Deliver(h, log, EndObject(count), x + 1)
    else Fail(ObjectMissCommaOrCurlyBracket, log)
  }

  function ParseArray(t: bytes, p: nat, h: Handler, log: seq<Event>): (r: Outcome)
    requires p < |t| && t[p] == LBRACKET
    ensures r.Done? ==> p < r.next <= |t|
    decreases |t| - p, 0
  {
    var start := Deliver(h, log, StartArray, p + 1);
    if start.Fail? then start
    else
      var q := SkipSpace(t, p + 1);
      if Peek(t, q) == RBRACKET then Deliver(h, start.log, EndArray(0), q + 1)
      else ParseElements(t, q, h, start.log, 0)
  }

  /** The loop of ParseArray, with `count` elements behind it. */
  function ParseElements(t: bytes, p: nat, h: Handler, log: seq<Event>, count: u32): (r: Outcome)
    requires p <= |t|
    ensures r.Done? ==> p < r.next <= |t|
    decreases |t| - p, 2
  {
    var value := ParseValue(t, p, h, log);
    if value.Fail? then value else AfterElement(t, value.next, h, value.log, Inc(count))
  }

  /** After `count` elements: a comma and the next one, or the end of the array. */
  function AfterElement(t: bytes, p: nat, h: Handler, log: seq<Event>, count: u32): (r: Outcome)
    requires p <= |t|
    ensures r.Done? ==> p < r.next <= |t|
    decreases |t| - p, 0
  {
    var x := SkipSpace(t, p);
    if Peek(t, x) == COMMA then ParseElements(t, SkipSpace(t, x + 1), h, log, count)
    else if Peek(t, x) == RBRACKET then Deliver(h, log, EndArray(count), x + 1)
    else Fail(ArrayMissCommaOrSquareBracket, log)
  }

  /** Parse without kParseIterativeFlag. */
  function Parse(t: bytes, h: Handler): (r: Outcome) {
    var p := SkipSpace(t, 0);
    if Peek(t, p) == NUL then Fail(DocumentEmpty, [])
    else
      var value := ParseValue(t, p, h, []);
      if value.Fail? then value
      else
        var q := SkipSpace(t, value.next);
        if Peek(t, q) != NUL then Fail(DocumentRootNotSingular, value.log)
        else Done(q, value.log)
  }
}
