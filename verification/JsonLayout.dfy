/** The text that the writers put for a value, written down as the recursive definition of a layout
    rather than through levels and events. */
module JsonLayout {
  import opened Bytes
  import opened JsonEvents
  import opened JsonString
  import opened JsonDocument
  import opened JsonPrinter
  import opened JsonPrinted
  import opened JsonRoundTrip

  /** The codes of characters. */
  function Ascii(s: string): (b: bytes)
    ensures |b| == |s|
  {
    seq(|s|, i requires 0 <= i < |s| => s[i] as int % 256)
  }

  /** A new line in a style that has lines, indented to a depth. */
  function Line(y: Style, depth: nat): bytes {
    match y
    case Compact => []
    case Pretty(c, n) => [10] + seq(depth * n, _ => c)
  }

  /** What stands before the k-th element or member. */
  function Comma(k: nat): bytes {
    if k == 0 then [] else Ascii(",")
  }

  /** What stands between a name and its value. */
  function Colon(y: Style): bytes {
    if y.Compact? then Ascii(":") else Ascii(": ")
  }

  function IntegerOf(n: Number): int
    requires n.Integer?
  {
    if n.isUint64 then n.bits else SignedBits(n.bits)
  }

  /** The text of a value whose first line is at a depth. */
  function Layout(y: Style, depth: nat, v: Value): bytes
    requires ValueOk(v) && Exact(v)
    decreases v
  {
    match v
    case NullValue => Ascii("null")
    case BoolValue(b) => if b then Ascii("true") else Ascii("false")
    case NumberValue(n) => Decimal(IntegerOf(n))
    case StringValue(s) => QuoteString(s)
    case ArrayValue(es) =>
      if es == [] then Ascii("[]") else Ascii("[") + Items(y, depth + 1, v, 0) + Line(y, depth) + Ascii("]")
    case ObjectValue(ms) =>
      if ms == [] then Ascii("{}") else Ascii("{") + Fields(y, depth + 1, v, 0) + Line(y, depth) + Ascii("}")
  }

  /** The elements from the k-th on: each on a line of its own, with commas between them. */
  function Items(y: Style, depth: nat, v: Value, k: nat): bytes
    requires v.ArrayValue? && ValueOk(v) && Exact(v) && k <= |v.elements|
    decreases v, |v.elements| - k
  {
    if k == |v.elements| then []
    else
      Comma(k) + Line(y, depth) + Layout(y, depth, v.elements[k]) + Items(y, depth, v, k + 1)
  }

  /** The members from the k-th on. */
  function Fields(y: Style, depth: nat, v: Value, k: nat): bytes
    requires v.ObjectValue? && ValueOk(v) && Exact(v) && k <= |v.members|
    decreases v, |v.members| - k
  {
    if k == |v.members| then []
    else
      var m := v.members[k];
      Comma(k) + Line(y, depth) + (QuoteString(m.name.str) + Colon(y) + Layout(y, depth, m.value))
      + Fields(y, depth, v, k + 1)
  }

  // ---------- one step of the layout ----------

  /** The line before the closing bracket of a container that is not empty. */
  function LastLine(y: Style, depth: nat, count: nat): bytes {
    if count == 0 then [] else Line(y, depth)
  }

  function InBrackets(x: bytes): bytes {
    Ascii("[") + x + Ascii("]")
  }

  function InBraces(x: bytes): bytes {
    Ascii("{") + x + Ascii("}")
  }

  lemma ArrayLayout(y: Style, depth: nat, v: Value)
    requires v.ArrayValue? && ValueOk(v) && Exact(v)
    ensures Layout(y, depth, v) ==
              InBrackets(Items(y, depth + 1, v, 0) + LastLine(y, depth, |v.elements|))
  {
    hide Line, ValueOk, Exact, Ascii;
    if v.elements == [] {
      EmptyWords();
      assert Ascii("[") + ([] + []) == Ascii("[");
    } else {
      Assoc(Ascii("["), Items(y, depth + 1, v, 0), Line(y, depth));
    }
  }

  lemma ObjectLayout(y: Style, depth: nat, v: Value)
    requires v.ObjectValue? && ValueOk(v) && Exact(v)
    ensures Layout(y, depth, v) ==
              InBraces(Fields(y, depth + 1, v, 0) + LastLine(y, depth, 2 * |v.members|))
  {
    hide Line, ValueOk, Exact, Ascii;
    if v.members == [] {
      EmptyWords();
      assert Ascii("{") + ([] + []) == Ascii("{");
    } else {
      Assoc(Ascii("{"), Fields(y, depth + 1, v, 0), Line(y, depth));
    }
  }

  lemma EmptyWords()
    ensures Ascii("[]") == Ascii("[") + Ascii("]") && Ascii("{}") == Ascii("{") + Ascii("}")
  {
  }

  lemma Assoc(a: bytes, b: bytes, c: bytes)
    ensures a + (b + c) == a + b + c
  {
  }

  lemma Assoc4(a: bytes, b: bytes, c: bytes, d: bytes, e: bytes)
    ensures a + b + c + d + e == a + (b + c + d + e)
  {
    Assoc(a, b, c);
    Assoc(a, b + c, d);
    Assoc(a, b + c + d, e);
  }

  // ---------- the writers ----------

  lemma {:induction false} PrintConcat(y: Style, s: Shape, xs: seq<Event>, ys: seq<Event>)
    requires Legal(s, xs) && Legal(Reached(s, xs), ys)
    ensures Legal(s, xs + ys) && Print(y, s, xs + ys) == Print(y, s, xs) + Print(y, Reached(s, xs), ys)
    decreases |xs|
  {
    hide Accepts, Next, Put;
    if xs == [] {
      assert [] + ys == ys;
    } else {
      var n := Next(s, xs[0]);
      PrintConcat(y, n, xs[1..], ys);
      assert (xs + ys)[1..] == xs[1..] + ys;
      Assoc(Put(y, s, xs[0]), Print(y, n, xs[1..]), Print(y, Reached(s, xs), ys));
    }
  }

  /** Two runs one after the other, in terms of Faithful. */
  lemma PrintThen(y: Style, s: Shape, xs: seq<Event>, r: Shape, ys: seq<Event>, q: Shape)
    requires Faithful(s, xs, r) && Faithful(r, ys, q)
    ensures Legal(s, xs + ys) && Print(y, s, xs + ys) == Print(y, s, xs) + Print(y, r, ys)
  {
    PrintConcat(y, s, xs, ys);
  }

  lemma PrintOne(y: Style, s: Shape, e: Event)
    requires Accepts(s, e)
    ensures Legal(s, [e]) && Print(y, s, [e]) == Put(y, s, e)
  {
    hide Put, Accepts, Next;
    assert [e][1..] == [];
    assert Legal(Next(s, e), []) && Print(y, Next(s, e), []) == [];
  }

  /** The padding of a container's level is a line at its depth. */
  lemma PadIsLine(y: Style, s: Shape, inArray: bool, k: nat)
    ensures var b := Inside(s, inArray, k);
            var depth := |s.levels| + 1;
            && Top(b) == Level(k, inArray) && |b.levels| == depth
            && (inArray || k % 2 == 0 ==>
                  Mark(b) == Comma(k) && Pad(y, b) == Line(y, depth))
            && (!inArray && k % 2 == 1 ==> Mark(b) + Pad(y, b) == Colon(y))
            && EndPad(y, b) == if k == 0 then [] else Line(y, depth - 1)
  {
    var b := Inside(s, inArray, k);
    assert |b.levels| == |s.levels| + 1 && Top(b) == Level(k, inArray);
    if !inArray && k % 2 == 1 {
      ColonIs();
    }
    CommaIs();
  }

  lemma ColonIs()
    ensures [COLON] + [] == Ascii(":") && [COLON] + [SPACE] == Ascii(": ")
  {
  }

  lemma CommaIs()
    ensures [COMMA] == Ascii(",")
  {
  }

  /** Where a value may stand, the writer puts the separator of the place and the layout. */
  lemma {:induction false} ValueLaid(y: Style, s: Shape, v: Value)
    requires ValueOk(v) && Exact(v) && Open(s) && Rooted(s)
    ensures Legal(s, Accept(v))
    ensures Print(y, s, Accept(v)) == Mark(s) + Pad(y, s) + Layout(y, |s.levels|, v)
    decreases v, 2, 0
  {
    match v
    case ArrayValue(es) => ArrayLaid(y, s, v);
    case ObjectValue(ms) => ObjectLaid(y, s, v);
    case _ => AtomLaid(y, s, v);
  }

  lemma AtomLaid(y: Style, s: Shape, v: Value)
    requires ValueOk(v) && Exact(v) && Open(s) && !v.ArrayValue? && !v.ObjectValue?
    ensures Legal(s, Accept(v))
    ensures Print(y, s, Accept(v)) == Mark(s) + Pad(y, s) + Layout(y, |s.levels|, v)
  {
    hide Mark, Pad, Print, Legal, Decimal;
    var e := Accept(v)[0];
    assert Accept(v) == [e];
    if v.NumberValue? {
      NumberLaid(v.number);
    }
    WordsAre();
    PrintOne(y, s, e);
  }

  lemma WordsAre()
    ensures TokenText(Null) == Ascii("null") && TokenText(Bool(true)) == Ascii("true")
    ensures TokenText(Bool(false)) == Ascii("false")
    ensures TokenText(StartArray) == Ascii("[") && TokenText(EndArray(0)) == Ascii("]")
    ensures TokenText(StartObject) == Ascii("{") && TokenText(EndObject(0)) == Ascii("}")
  {
  }

  lemma NumberLaid(n: Number)
    requires n.Integer? && ValueOk(NumberValue(n))
    ensures Printable(NumberEvent(n)) && TokenText(NumberEvent(n)) == Decimal(IntegerOf(n))
  {
    hide Decimal, LowInt, Low32;
    assert -P63 <= IntegerOf(n) < U64;
    hide Bits, SignedBits;
    PayloadBack(IntegerOf(n));
  }

  /** Brackets around what is laid out inside them. */
  lemma BracketsLaid(y: Style, s: Shape, start: Event, es: seq<Event>, k: nat, end: Event)
    requires Open(s) && Rooted(s) && (start == StartArray || start == StartObject)
    requires Faithful(Inside(s, start.StartArray?, 0), es, Inside(s, start.StartArray?, k))
    requires end == (if start.StartArray? then EndArray(k % U32) else EndObject(k / 2 % U32))
    requires start.StartObject? ==> k % 2 == 0
    ensures Legal(s, [start] + es + [end])
    ensures var x := Print(y, Inside(s, start.StartArray?, 0), es) + LastLine(y, |s.levels|, k);
            Print(y, s, [start] + es + [end]) ==
              Mark(s) + Pad(y, s) + if start.StartArray? then InBrackets(x) else InBraces(x)
  {
    hide Faithful, Inside, Prefixed, Rooted, Legal, Print, Mark, Pad, EndPad, Line, TokenText, Ascii;
    var inArray := start.StartArray?;
    var a, b := Inside(s, inArray, 0), Inside(s, inArray, k);
    assert Legal(a, es) by { FaithfulLegal(a, es, b); }
    OpenFaithful(s, start);
    FaithfulThen(s, [start], a, es, b);
    CloseFaithful(s, inArray, k, end);
    PrintThen(y, s, [start] + es, b, [end], Prefixed(s));
    PrintThen(y, s, [start], a, es, b);
    PrintOne(y, s, start);
    PadIsLine(y, s, inArray, k);
    PrintOne(y, b, end);
    WordsAre();
    EndWord(end);
    var open, close := TokenText(start), TokenText(end);
    Brackets5(Mark(s) + Pad(y, s), open, Print(y, a, es), EndPad(y, b), close);
  }

  lemma Brackets5(front: bytes, open: bytes, x: bytes, pad: bytes, close: bytes)
    ensures (front + open) + x + (pad + close) == front + (open + (x + pad) + close)
  {
    Assoc(front + open + x, pad, close);
    Assoc(open, x, pad);
    Assoc4(front, open, x, pad, close);
  }

  lemma FaithfulLegal(s: Shape, es: seq<Event>, r: Shape)
    requires Faithful(s, es, r)
    ensures Legal(s, es)
  {
  }

  lemma EndWord(end: Event)
    ensures end.EndArray? ==> TokenText(end) == Ascii("]")
    ensures end.EndObject? ==> TokenText(end) == Ascii("}")
  {
  }

  lemma AcceptArray(v: Value)
    requires v.ArrayValue? && ValueOk(v)
    ensures |v.elements| < 0x1_0000_0000
    ensures Accept(v) == [StartArray] + AcceptElements(v, 0) + [EndArray(|v.elements|)]
  {
  }

  lemma ArrayFrom(y: Style, s: Shape, es: seq<Event>, n: u32)
    requires Open(s) && Rooted(s) && Faithful(Inside(s, true, 0), es, Inside(s, true, n))
    ensures Legal(s, [StartArray] + es + [EndArray(n)])
    ensures Print(y, s, [StartArray] + es + [EndArray(n)])
         == Mark(s) + Pad(y, s) + InBrackets(Print(y, Inside(s, true, 0), es) + LastLine(y, |s.levels|, n))
  {
    hide Faithful, Inside, Rooted, Open, Legal, Print, Mark, Pad, LastLine, InBrackets, InBraces;
    BracketsLaid(y, s, StartArray, es, n, EndArray(n));
  }

  lemma {:induction false} ArrayLaid(y: Style, s: Shape, v: Value)
    requires v.ArrayValue? && ValueOk(v) && Exact(v) && Open(s) && Rooted(s)
    ensures Legal(s, Accept(v))
    ensures Print(y, s, Accept(v)) == Mark(s) + Pad(y, s) + Layout(y, |s.levels|, v)
    decreases v, 1, |v.elements| + 1
  {
    hide *;
    AcceptArray(v);
    ElementsFaithful(s, v, 0);
    ElementsLaid(y, s, v, 0);
    ArrayFrom(y, s, AcceptElements(v, 0), |v.elements|);
    ArrayLayout(y, |s.levels|, v);
  }

  lemma ElementsStep(y: Style, depth: nat, v: Value, k: nat)
    requires v.ArrayValue? && ValueOk(v) && Exact(v) && k < |v.elements|
    ensures AcceptElements(v, k) == Accept(v.elements[k]) + AcceptElements(v, k + 1)
    ensures Items(y, depth, v, k) ==
              Comma(k) + Line(y, depth) + Layout(y, depth, v.elements[k]) + Items(y, depth, v, k + 1)
  {
  }

  lemma MembersStep(y: Style, depth: nat, v: Value, k: nat)
    requires v.ObjectValue? && ValueOk(v) && Exact(v) && k < |v.members|
    ensures var m := v.members[k];
            && m.name.StringValue?
            && AcceptMembers(v, k) == [Key(m.name.str)] + Accept(m.value) + AcceptMembers(v, k + 1)
            && Fields(y, depth, v, k) ==
                 Comma(k) + Line(y, depth) + (QuoteString(m.name.str) + Colon(y) + Layout(y, depth, m.value))
                 + Fields(y, depth, v, k + 1)
  {
  }

  lemma {:induction false} ElementsLaid(y: Style, s: Shape, v: Value, k: nat)
    requires v.ArrayValue? && ValueOk(v) && Exact(v) && k <= |v.elements|
    ensures var a := Inside(s, true, k);
            Legal(a, AcceptElements(v, k)) && Print(y, a, AcceptElements(v, k)) == Items(y, |s.levels| + 1, v, k)
    decreases v, 1, |v.elements| - k
  {
    hide *;
    if k == |v.elements| {
      NoElements(y, s, v);
    } else {
      var a := Inside(s, true, k);
      ElementsStep(y, |s.levels| + 1, v, k);
      ElementOk(v, k);
      InsideOpen(s, k);
      InsideNext(s, true, k);
      PadIsLine(y, s, true, k);
      ValueFaithful(a, v.elements[k]);
      ValueLaid(y, a, v.elements[k]);
      ElementsFaithful(s, v, k + 1);
      ElementsLaid(y, s, v, k + 1);
      PrintThen(y, a, Accept(v.elements[k]), Inside(s, true, k + 1), AcceptElements(v, k + 1),
                Inside(s, true, |v.elements|));
    }
  }

  lemma NoElements(y: Style, s: Shape, v: Value)
    requires v.ArrayValue? && ValueOk(v) && Exact(v)
    ensures var n := |v.elements|;
            var a := Inside(s, true, n);
            Legal(a, AcceptElements(v, n)) && Print(y, a, AcceptElements(v, n)) == Items(y, |s.levels| + 1, v, n)
  {
  }

  lemma ElementOk(v: Value, k: nat)
    requires v.ArrayValue? && ValueOk(v) && Exact(v) && k < |v.elements|
    ensures ValueOk(v.elements[k]) && Exact(v.elements[k])
  {
  }

  lemma InsideOpen(s: Shape, k: nat)
    ensures Open(Inside(s, true, k)) && Rooted(Inside(s, true, k))
  {
  }

  lemma AcceptObject(v: Value)
    requires v.ObjectValue? && ValueOk(v)
    ensures |v.members| < 0x1_0000_0000
    ensures Accept(v) == [StartObject] + AcceptMembers(v, 0) + [EndObject(|v.members|)]
  {
  }

  lemma ObjectFrom(y: Style, s: Shape, es: seq<Event>, n: u32)
    requires Open(s) && Rooted(s) && Faithful(Inside(s, false, 0), es, Inside(s, false, 2 * n as int))
    ensures Legal(s, [StartObject] + es + [EndObject(n)])
    ensures Print(y, s, [StartObject] + es + [EndObject(n)])
         == Mark(s) + Pad(y, s) + InBraces(Print(y, Inside(s, false, 0), es) + LastLine(y, |s.levels|, 2 * n as int))
  {
    hide Faithful, Inside, Rooted, Open, Legal, Print, Mark, Pad, LastLine, InBrackets, InBraces;
    BracketsLaid(y, s, StartObject, es, 2 * n as int, EndObject(n));
  }

  lemma {:induction false} ObjectLaid(y: Style, s: Shape, v: Value)
    requires v.ObjectValue? && ValueOk(v) && Exact(v) && Open(s) && Rooted(s)
    ensures Legal(s, Accept(v))
    ensures Print(y, s, Accept(v)) == Mark(s) + Pad(y, s) + Layout(y, |s.levels|, v)
    decreases v, 1, |v.members| + 1
  {
    hide *;
    AcceptObject(v);
    MembersFaithful(s, v, 0);
    MembersLaid(y, s, v, 0);
    ObjectFrom(y, s, AcceptMembers(v, 0), |v.members|);
    ObjectLayout(y, |s.levels|, v);
  }

  lemma NameLaid(y: Style, s: Shape, k: nat, name: bytes)
    ensures var a := Inside(s, false, 2 * k);
            && Legal(a, [Key(name)])
            && Print(y, a, [Key(name)]) ==
                 Comma(k) + Line(y, |s.levels| + 1) + QuoteString(name)
  {
    hide Mark, Pad, Line, Print, Legal, Ascii, QuoteString;
    assert Comma(2 * k) == Comma(k);
    hide Comma;
    PadIsLine(y, s, false, 2 * k);
    PrintOne(y, Inside(s, false, 2 * k), Key(name));
  }

  lemma Member5(front: bytes, name: bytes, colon: bytes, value: bytes)
    ensures front + name + (colon + value) == front + (name + colon + value)
  {
    Assoc(front + name, colon, value);
    Assoc(front, name, colon);
    Assoc(front, name + colon, value);
  }

  lemma MemberOk(v: Value, k: nat)
    requires v.ObjectValue? && ValueOk(v) && Exact(v) && k < |v.members|
    ensures var m := v.members[k];
            m.name.StringValue? && ValueOk(m.value) && Exact(m.value) && m.value < v
  {
    assert v.members[k] in v.members;
  }

  /** One member: its name, what follows a name, and its value. */
  lemma {:induction false} MemberLaid(y: Style, s: Shape, k: nat, name: bytes, w: Value)
    requires ValueOk(w) && Exact(w)
    ensures var a, depth := Inside(s, false, 2 * k), |s.levels| + 1;
            && Legal(a, [Key(name)] + Accept(w))
            && Print(y, a, [Key(name)] + Accept(w)) ==
                 Comma(k) + Line(y, depth) + (QuoteString(name) + Colon(y) + Layout(y, depth, w))
            && Faithful(a, [Key(name)] + Accept(w), Inside(s, false, 2 * k + 2))
    decreases w, 3, 0
  {
    hide *;
    var a, b, c := Inside(s, false, 2 * k), Inside(s, false, 2 * k + 1), Inside(s, false, 2 * k + 2);
    PadIsLine(y, s, false, 2 * k + 1);
    OpenForValue(s, k);
    KeyFaithful(s, k, name);
    NameLaid(y, s, k, name);
    ValueFaithful(b, w);
    ValueLaid(y, b, w);
    FaithfulThen(a, [Key(name)], b, Accept(w), c);
    PrintThen(y, a, [Key(name)], b, Accept(w), c);
    Member5(Comma(k) + Line(y, |s.levels| + 1), QuoteString(name), Colon(y), Layout(y, |s.levels| + 1, w));
  }

  lemma {:induction false} MembersLaid(y: Style, s: Shape, v: Value, k: nat)
    requires v.ObjectValue? && ValueOk(v) && Exact(v) && k <= |v.members|
    ensures var a := Inside(s, false, 2 * k);
            Legal(a, AcceptMembers(v, k)) && Print(y, a, AcceptMembers(v, k)) == Fields(y, |s.levels| + 1, v, k)
    decreases v, 1, |v.members| - k
  {
    hide *;
    if k == |v.members| {
      NoMembers(y, s, v);
    } else {
      var m := v.members[k];
      MemberOk(v, k);
      MembersStep(y, |s.levels| + 1, v, k);
      MemberLaid(y, s, k, m.name.str, m.value);
      MembersFaithful(s, v, k + 1);
      MembersLaid(y, s, v, k + 1);
      PrintThen(y, Inside(s, false, 2 * k), [Key(m.name.str)] + Accept(m.value), Inside(s, false, 2 * k + 2),
                AcceptMembers(v, k + 1), Inside(s, false, 2 * |v.members|));
    }
  }

  lemma NoMembers(y: Style, s: Shape, v: Value)
    requires v.ObjectValue? && ValueOk(v) && Exact(v)
    ensures var n := |v.members|;
            var a := Inside(s, false, 2 * n);
            Legal(a, AcceptMembers(v, n)) && Print(y, a, AcceptMembers(v, n)) == Fields(y, |s.levels| + 1, v, n)
  {
  }

  /** For every value without floating-point numbers: the text that Writer and PrettyWriter put is its
      layout, byte for byte. */
  lemma TextIsLayout(y: Style, v: Value)
    requires ValueOk(v) && Exact(v)
    ensures TextOf(y, v) == Layout(y, 0, v)
  {
    hide Print, Legal, Layout, Accept;
    ValueLaid(y, BLANK, v);
    assert [] + [] + Layout(y, 0, v) == Layout(y, 0, v);
  }
}
