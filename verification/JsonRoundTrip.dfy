/** Printing a value and reading the text rebuilds the value. */
module JsonRoundTrip {
  import opened Bytes
  import opened JsonEvents
  import opened JsonRecursive
  import opened JsonString
  import opened JsonDocument
  import opened JsonReceived
  import opened JsonPrinter
  import opened JsonPrinted
  import JsonRoot
  import JsonStack

  /** A value without floating-point numbers. */
  predicate Exact(v: Value) {
    match v
    case NumberValue(n) => n.Integer?
    case ArrayValue(es) => forall i :: 0 <= i < |es| ==> Exact(es[i])
    case ObjectValue(ms) => forall i :: 0 <= i < |ms| ==> Exact(ms[i].value)
    case _ => true
  }

  /** Integer events by value: the kind the reader uses for that value. */
  function Renumber(e: Event): (r: Event)
    requires Printable(e)
  {
    match e
    case Int(i) => NumberFor(i)
    case Uint(u) => NumberFor(u)
    case Int64(i) => NumberFor(i)
    case Uint64(u) => NumberFor(u)
    case _ => e
  }

  predicate AllPrintable(es: seq<Event>) {
    forall i :: 0 <= i < |es| ==> Printable(es[i])
  }

  function Renumbered(es: seq<Event>): (r: seq<Event>)
    requires AllPrintable(es)
    ensures |r| == |es|
  {
    seq(|es|, i requires 0 <= i < |es| => Renumber(es[i]))
  }

  /** The event that is read back: integers by value, strings as handed over. */
  function Reread(e: Event): (r: Event)
    requires Printable(e)
  {
    match e
    case Int(i) => NumberFor(i)
    case Uint(u) => NumberFor(u)
    case Int64(i) => NumberFor(i)
    case Uint64(u) => NumberFor(u)
    case String(s) => String(HandedOver(s))
    case Key(s) => Key(HandedOver(s))
    case _ => e
  }

  function Rereads(es: seq<Event>): (r: seq<Event>)
    requires AllPrintable(es)
    ensures |r| == |es|
  {
    seq(|es|, i requires 0 <= i < |es| => Reread(es[i]))
  }

  /** From shape `s` the writer takes `es`, tidily, to shape `r`, and they read back as
      themselves up to the kind of integers and what is handed over of strings. */
  predicate Faithful(s: Shape, es: seq<Event>, r: Shape) {
    && AllPrintable(es) && Legal(s, es) && Reached(s, es) == r
    && AllTidy(s, es) && Echoes(s, es) == Rereads(es)
  }

  lemma FaithfulOne(s: Shape, e: Event)
    requires Accepts(s, e) && Tidy(s, e) && Echo(s, e) == Reread(e)
    ensures Faithful(s, [e], Next(s, e))
  {
    hide Accepts, Next, Echo, Tidy, Reread;
    var r := Next(s, e);
    assert [e][1..] == [];
    assert Printable(e) by { AcceptsPrintable(s, e); }
    assert Legal(r, []) && Reached(r, []) == r && AllTidy(r, []) && Echoes(r, []) == [];
    assert Rereads([e]) == [Reread(e)];
  }

  lemma AcceptsPrintable(s: Shape, e: Event)
    requires Accepts(s, e)
    ensures Printable(e)
  {
  }

  lemma {:induction false} FaithfulThen(s: Shape, xs: seq<Event>, r: Shape, ys: seq<Event>, q: Shape)
    requires Faithful(s, xs, r) && Faithful(r, ys, q)
    ensures Faithful(s, xs + ys, q)
    decreases |xs|
  {
    hide Accepts, Next, Echo, Tidy, Reread, Printable;
    if xs == [] {
      assert [] + ys == ys;
    } else {
      var x, rest := xs[0], xs[1..];
      var n := Next(s, x);
      assert Echoes(s, xs) == [Echo(s, x)] + Echoes(n, rest);
      assert Rereads(xs) == [Reread(x)] + Rereads(rest);
      assert Echoes(n, rest) == Rereads(rest) by {
        assert Echoes(s, xs)[1..] == Echoes(n, rest);
        assert Rereads(xs)[1..] == Rereads(rest);
      }
      FaithfulThen(n, rest, r, ys, q);
      assert (xs + ys)[1..] == rest + ys;
      assert Echo(s, x) == Rereads(xs)[0];
      assert Rereads(xs + ys) == [Reread(x)] + Rereads(rest + ys);
    }
  }

  // ---------- values ----------

  /** A value may come next. */
  predicate Open(s: Shape) {
    PrefixOk(s, false)
  }

  lemma {:induction false} ValueFaithful(s: Shape, v: Value)
    requires ValueOk(v) && Exact(v) && Open(s) && Rooted(s)
    ensures Faithful(s, Accept(v), Prefixed(s))
    decreases v
  {
    match v
    case ArrayValue(es) => ArrayFaithful(s, v);
    case ObjectValue(ms) => ObjectFaithful(s, v);
    case _ => AtomFaithful(s, v);
  }

  lemma AtomFaithful(s: Shape, v: Value)
    requires ValueOk(v) && Exact(v) && Open(s) && !v.ArrayValue? && !v.ObjectValue?
    ensures Faithful(s, Accept(v), Prefixed(s))
  {
    hide Faithful, NumberFor, HandedOver;
    var e := Accept(v)[0];
    assert Accept(v) == [e];
    FaithfulOne(s, e);
  }

  /** Inside a container that opened in shape `s`, after `k` values. */
  function Inside(s: Shape, inArray: bool, k: nat): Shape {
    Shape(Prefixed(s).levels + [Level(k, inArray)], true)
  }

  lemma InsideNext(s: Shape, inArray: bool, k: nat)
    ensures Prefixed(Inside(s, inArray, k)) == Inside(s, inArray, k + 1)
  {
  }

  predicate Rooted(s: Shape) {
    s.levels != [] ==> s.hasRoot
  }

  lemma OpenFaithful(s: Shape, start: Event)
    requires Open(s) && Rooted(s) && (start == StartArray || start == StartObject)
    ensures Faithful(s, [start], Inside(s, start.StartArray?, 0))
  {
    hide Faithful;
    assert Next(s, start) == Inside(s, start.StartArray?, 0);
    FaithfulOne(s, start);
  }

  lemma CloseFaithful(s: Shape, inArray: bool, k: nat, end: Event)
    requires end == if inArray then EndArray(k % U32) else EndObject(k / 2 % U32)
    requires !inArray ==> k % 2 == 0
    requires Rooted(s)
    ensures Faithful(Inside(s, inArray, k), [end], Prefixed(s))
  {
    hide Faithful;
    var b := Inside(s, inArray, k);
    assert Top(b) == Level(k, inArray);
    assert Next(b, end) == Prefixed(s) by {
      assert b.levels[..|b.levels| - 1] == Prefixed(s).levels;
    }
    FaithfulOne(b, end);
  }

  /** The opening and closing events around what Faithful says of the contents. */
  lemma Enclosed(s: Shape, start: Event, es: seq<Event>, k: nat, end: Event)
    requires Open(s) && Rooted(s) && (start == StartArray || start == StartObject)
    requires Faithful(Inside(s, start.StartArray?, 0), es, Inside(s, start.StartArray?, k))
    requires end == (if start.StartArray? then EndArray(k % U32) else EndObject(k / 2 % U32))
    requires start.StartObject? ==> k % 2 == 0
    ensures Faithful(s, [start] + es + [end], Prefixed(s))
  {
    hide Faithful, Inside, Prefixed, Open, Rooted;
    var a, b := Inside(s, start.StartArray?, 0), Inside(s, start.StartArray?, k);
    OpenFaithful(s, start);
    FaithfulThen(s, [start], a, es, b);
    CloseFaithful(s, start.StartArray?, k, end);
    FaithfulThen(s, [start] + es, b, [end], Prefixed(s));
  }

  lemma {:induction false} ArrayFaithful(s: Shape, v: Value)
    requires v.ArrayValue? && ValueOk(v) && Exact(v) && Open(s) && Rooted(s)
    ensures Faithful(s, Accept(v), Prefixed(s))
    decreases v, |v.elements| + 1
  {
    hide Faithful, Inside, Open;
    ElementsFaithful(s, v, 0);
    Enclosed(s, StartArray, AcceptElements(v, 0), |v.elements|, EndArray(|v.elements|));
  }

  lemma {:induction false} ElementsFaithful(s: Shape, v: Value, k: nat)
    requires v.ArrayValue? && ValueOk(v) && Exact(v) && k <= |v.elements|
    ensures Faithful(Inside(s, true, k), AcceptElements(v, k), Inside(s, true, |v.elements|))
    decreases v, |v.elements| - k
  {
    hide Faithful;
    var a := Inside(s, true, k);
    if k == |v.elements| {
      FaithfulNone(a);
    } else {
      InsideNext(s, true, k);
      ValueFaithful(a, v.elements[k]);
      ElementsFaithful(s, v, k + 1);
      FaithfulThen(a, Accept(v.elements[k]), Inside(s, true, k + 1), AcceptElements(v, k + 1),
                   Inside(s, true, |v.elements|));
    }
  }

  lemma FaithfulNone(s: Shape)
    ensures Faithful(s, [], s)
  {
    assert Rereads([]) == [];
  }

  lemma {:induction false} ObjectFaithful(s: Shape, v: Value)
    requires v.ObjectValue? && ValueOk(v) && Exact(v) && Open(s) && Rooted(s)
    ensures Faithful(s, Accept(v), Prefixed(s))
    decreases v, |v.members| + 1
  {
    hide Faithful, Inside, Open;
    MembersFaithful(s, v, 0);
    Enclosed(s, StartObject, AcceptMembers(v, 0), 2 * |v.members|, EndObject(|v.members|));
  }

  lemma KeyFaithful(s: Shape, k: nat, name: bytes)
    ensures Faithful(Inside(s, false, 2 * k), [Key(name)], Inside(s, false, 2 * k + 1))
  {
    hide Faithful, HandedOver;
    InsideNext(s, false, 2 * k);
    FaithfulOne(Inside(s, false, 2 * k), Key(name));
  }

  lemma OpenForValue(s: Shape, k: nat)
    ensures var b := Inside(s, false, 2 * k + 1);
            Open(b) && Rooted(b) && Prefixed(b) == Inside(s, false, 2 * k + 2)
  {
    InsideNext(s, false, 2 * k + 1);
  }

  lemma {:induction false} MembersFaithful(s: Shape, v: Value, k: nat)
    requires v.ObjectValue? && ValueOk(v) && Exact(v) && k <= |v.members|
    ensures Faithful(Inside(s, false, 2 * k), AcceptMembers(v, k), Inside(s, false, 2 * |v.members|))
    decreases v, |v.members| - k
  {
    hide Faithful, Open, Printable, HandedOver;
    var a, b, c := Inside(s, false, 2 * k), Inside(s, false, 2 * k + 1), Inside(s, false, 2 * k + 2);
    if k == |v.members| {
      FaithfulNone(a);
    } else {
      var m := v.members[k];
      var key := Key(m.name.str);
      KeyFaithful(s, k, m.name.str);
      OpenForValue(s, k);
      ValueFaithful(b, m.value);
      FaithfulThen(a, [key], b, Accept(m.value), c);
      MembersFaithful(s, v, k + 1);
      FaithfulThen(a, [key] + Accept(m.value), c, AcceptMembers(v, k + 1), Inside(s, false, 2 * |v.members|));
    }
  }

  // ---------- rebuilding ----------

  lemma RenumberBuilds(stack: seq<Value>, e: Event)
    requires Printable(e)
    ensures Handle(stack, Renumber(e)) == Handle(stack, e)
  {
    match e
    case Int(i) => ConstructorsAgree(i);
    case Uint(u) => ConstructorsAgree(u);
    case Int64(i) => ConstructorsAgree(i);
    case Uint64(u) => ConstructorsAgree(u);
    case _ =>
  }

  /** A builder cannot tell the kinds of integer events apart. */
  lemma {:induction false} RenumberedBuilds(stack: seq<Value>, es: seq<Event>)
    requires AllPrintable(es)
    ensures Build(stack, Renumbered(es)) == Build(stack, es)
    decreases |es|
  {
    hide Handle, Renumber, Printable;
    if es != [] {
      RenumberBuilds(stack, es[0]);
      assert Renumbered(es)[1..] == Renumbered(es[1..]);
      if Handle(stack, es[0]).Some? {
        RenumberedBuilds(Handle(stack, es[0]).value, es[1..]);
      }
    }
  }

  lemma RenumberFits(e: Event)
    requires Printable(e)
    ensures Fits(Renumber(e)) <==> Fits(e)
  {
    hide Fits;
    if IsNumber(e) {
      NumberAsksNothing(e);
      NumberAsksNothing(Renumber(e));
    }
  }

  lemma NumberAsksNothing(e: Event)
    requires IsNumber(e)
    ensures Fits(e)
  {
    FitsIff(e);
  }

  lemma RenumberedFits(es: seq<Event>)
    requires AllPrintable(es)
    ensures AllFit(Renumbered(es)) <==> AllFit(es)
  {
    hide Fits, Renumber, Printable;
    forall i | 0 <= i < |es| ensures Fits(Renumbered(es)[i]) <==> Fits(es[i]) {
      RenumberFits(es[i]);
    }
  }

  // ---------- short strings ----------

  /** The event's string has fewer than 2^32 - 1 bytes. */
  predicate Brief(e: Event) {
    IsStringEvent(e) ==> |StringOf(e)| < U32 - 1
  }

  predicate AllBrief(es: seq<Event>) {
    forall i :: 0 <= i < |es| ==> Brief(es[i])
  }

  lemma BriefReread(es: seq<Event>)
    requires AllPrintable(es) && AllBrief(es)
    ensures Rereads(es) == Renumbered(es)
  {
    hide Printable, Reread, Renumber, Brief;
    forall i | 0 <= i < |es| ensures Reread(es[i]) == Renumber(es[i]) {
      BriefWhole(es[i]);
    }
  }

  lemma BriefWhole(e: Event)
    requires Printable(e) && Brief(e)
    ensures Reread(e) == Renumber(e)
  {
    hide HandedOver;
    if IsStringEvent(e) {
      HandedWhole(StringOf(e));
    }
  }

  /** Both "all strings are brief" and "all lengths are known" are said by `b`. */
  predicate Says(es: seq<Event>, b: bool) {
    (AllBrief(es) <==> b) && (AllTold(es) <==> b)
  }

  lemma SaysConcat(xs: seq<Event>, a: bool, ys: seq<Event>, b: bool)
    requires Says(xs, a) && Says(ys, b)
    ensures Says(xs + ys, a && b)
  {
    hide Brief, ToldEvent;
    assert forall i :: 0 <= i < |xs| ==> (xs + ys)[i] == xs[i];
    assert forall i :: 0 <= i < |ys| ==> (xs + ys)[|xs| + i] == ys[i];
  }

  lemma SaysOne(e: Event)
    requires IsStringEvent(e) ==> |StringOf(e)| < U32
    ensures Says([e], Brief(e))
  {
    hide Told;
    if IsStringEvent(e) {
      HandedWhole(StringOf(e));
    }
    assert [e][0] == e;
  }

  lemma SaysNone()
    ensures Says([], true)
  {
  }

  /** A traversal's strings are brief, and their lengths known to a reader, if and only if the
      value's strings are short. */
  lemma {:induction false} AcceptBrief(v: Value)
    requires ValueOk(v)
    ensures Says(Accept(v), Short(v))
    decreases v
  {
    hide Says, ToldEvent;
    match v
    case ArrayValue(es) =>
      ElementsBrief(v, 0);
      SaysAround(StartArray, AcceptElements(v, 0), EndArray(|es|), Short(v));
    case ObjectValue(ms) =>
      MembersBrief(v, 0);
      SaysAround(StartObject, AcceptMembers(v, 0), EndObject(|ms|), Short(v));
    case NumberValue(n) => SaysOne(NumberEvent(n));
    case StringValue(s) => SaysOne(String(s));
    case BoolValue(b) => SaysOne(Bool(b));
    case NullValue => SaysOne(Null);
  }

  lemma SaysAround(start: Event, es: seq<Event>, end: Event, b: bool)
    requires !IsStringEvent(start) && !IsStringEvent(end) && Says(es, b)
    ensures Says([start] + es + [end], b)
  {
    hide Says;
    SaysOne(start);
    SaysOne(end);
    SaysConcat([start], true, es, b);
    SaysConcat([start] + es, b, [end], true);
  }

  lemma {:induction false} ElementsBrief(v: Value, k: nat)
    requires v.ArrayValue? && ValueOk(v) && k <= |v.elements|
    ensures Says(AcceptElements(v, k), forall i :: k <= i < |v.elements| ==> Short(v.elements[i]))
    decreases v, |v.elements| - k
  {
    hide Says;
    if k == |v.elements| {
      SaysNone();
    } else {
      AcceptBrief(v.elements[k]);
      ElementsBrief(v, k + 1);
      SaysConcat(Accept(v.elements[k]), Short(v.elements[k]), AcceptElements(v, k + 1),
                 forall i :: k + 1 <= i < |v.elements| ==> Short(v.elements[i]));
    }
  }

  lemma {:induction false} MembersBrief(v: Value, k: nat)
    requires v.ObjectValue? && ValueOk(v) && k <= |v.members|
    ensures Says(AcceptMembers(v, k),
                 forall i :: k <= i < |v.members| ==> Short(v.members[i].name) && Short(v.members[i].value))
    decreases v, |v.members| - k
  {
    hide Says;
    if k == |v.members| {
      SaysNone();
    } else {
      var m := v.members[k];
      SaysOne(Key(m.name.str));
      AcceptBrief(m.value);
      MembersBrief(v, k + 1);
      SaysConcat([Key(m.name.str)], Short(m.name), Accept(m.value), Short(m.value));
      SaysConcat([Key(m.name.str)] + Accept(m.value), Short(m.name) && Short(m.value), AcceptMembers(v, k + 1),
                 forall i :: k + 1 <= i < |v.members| ==> Short(v.members[i].name) && Short(v.members[i].value));
    }
  }

  // ---------- the theorems ----------

  /** The text of a value, as a writer puts it. */
  function TextOf(y: Style, v: Value): (t: bytes)
    requires ValueOk(v) && Exact(v)
  {
    ValueFaithful(BLANK, v);
    Print(y, BLANK, Accept(v))
  }

  /** The reader on the text of a value: it accepts the text to its end if and only if every
      string is short, and delivers the events of the value, integers by value; with a longer
      string what it does is undetermined. */
  lemma TextReads(y: Style, v: Value)
    requires StyleOk(y) && ValueOk(v) && Exact(v)
    ensures var t := TextOf(y, v);
            var r := Parse(t, AcceptAll());
            && AllPrintable(Accept(v))
            && (Short(v) ==> r == Done(|t|, Renumbered(Accept(v))) && Build([], r.log) == Some([v]))
            && (!Short(v) ==> JsonStack.IsUndetermined(r))
            && (|t| < U32 ==> Short(v))
  {
    hide Parse, Build, Accept, Print, Legal, Reached, AllTidy, AllTold, AllBrief, Echoes, Verdict, Short, ValueOk,
         Rereads, Renumbered, AllPrintable, JsonStack.Strays;
    ValueFaithful(BLANK, v);
    PrintedParses(y, Accept(v));
    AcceptBrief(v);
    if Short(v) {
      BriefReread(Accept(v));
      RenumberedBuilds([], Accept(v));
      AcceptBuilds([], v);
      assert [] + [v] == [v];
    }
  }

  /** For every value without floating-point numbers and either writer: the reader accepts the
      text and the document built from its events is the value, if and only if the document's pool
      can store the value, as it can if the text has fewer than 357,913,943 bytes. Otherwise what
      the source leaves in the document is undetermined. */
  lemma RoundTrip(y: Style, v: Value)
    requires StyleOk(y) && ValueOk(v) && Exact(v)
    ensures var t := TextOf(y, v);
            var r := Parse(t, AcceptAll());
            && (Storable(v) <==> r.Done? && Assembled([], r.log) == Some([v]))
            && (Storable(v) ==> r.next == |t|)
            && (!Storable(v) ==> JsonStack.IsUndetermined(r) || (r.Done? && !AllFit(r.log)))
            && (|t| < JsonRoot.SHORTEST ==> Storable(v))
  {
    hide Parse, Build, Accept, Print, Legal, Short, ValueOk, Storable, AllFit, Renumbered, AllPrintable;
    TextReads(y, v);
    var t := TextOf(y, v);
    var r := Parse(t, AcceptAll());
    if Storable(v) {
      StorableIsShort(v);
    }
    if Short(v) {
      RenumberedFits(Accept(v));
      AcceptFits(v);
    }
    if |t| < JsonRoot.SHORTEST {
      var lead, n, trail := JsonRoot.OneRoot(t);
      assert [JsonRoot.ValueOf(n)][0] == v;
    }
  }

  /** So the text determines the value, if its strings are short. */
  lemma TextDetermines(y: Style, v: Value, w: Value)
    requires StyleOk(y) && ValueOk(v) && Exact(v) && ValueOk(w) && Exact(w)
    requires Short(v) && Short(w)
    requires TextOf(y, v) == TextOf(y, w)
    ensures v == w
  {
    hide *;
    TextReads(y, v);
    TextReads(y, w);
    var r := Build([], Parse(TextOf(y, v), AcceptAll()).log);
    assert r.value[0] == v && r.value[0] == w;
  }
}
