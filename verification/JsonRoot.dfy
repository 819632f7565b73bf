/** What a successful parse leaves on the document's stack. */
module JsonRoot {
  import opened Bytes
  import opened JsonEvents
  import opened JsonNumber
  import opened JsonRecursive
  import opened JsonGrammar
  import opened JsonDocument
  import opened JsonReceived
  import JsonString
  import Pool

  // ---------- numbers fit the constructors ----------

  lemma HeldInRange(t: bytes, s: nat, minus: bool)
    requires s <= |t| && ParseInt(t, s, minus).IntPart?
    ensures match ParseInt(t, s, minus).held
            case Small(i) => i <= Max32(minus)
            case Wide(i) => i <= Max64(minus)
            case Big(_) => true
  {
    if Peek(t, s) != DIGIT0 {
      ParseIntExact(t, s, minus, DigitsEnd(t, s));
    }
  }

  lemma NumberFits(t: bytes, p: nat)
    requires p <= |t| && ParseNumber(t, p).Good?
    ensures Pushed(ParseNumber(t, p).event).Some?
    ensures Pushed(ParseNumber(t, p).event).value.NumberValue?
  {
    hide ParseInt;
    var minus := Peek(t, p) == MINUS;
    HeldInRange(t, if minus then p + 1 else p, minus);
  }

  // ---------- how many values a text leaves ----------

  function Length(es: Elements): nat {
    match es
    case LastElement(_, _) => 1
    case MoreElements(_, _, _, rest) => 1 + Length(rest)
  }

  function MemberLength(ms: Members): nat {
    match ms
    case LastMember(_, _, _, _, _) => 1
    case MoreMembers(_, _, _, _, _, _, rest) => 1 + MemberLength(rest)
  }

  /** No container of the text has 2^32 entries or more. */
  predicate Small(n: Node) {
    match n
    case Array(_, es) => Length(es) < U32 && ElementsSmall(es)
    case Object(_, ms) => MemberLength(ms) < U32 && MembersSmall(ms)
    case _ => true
  }

  predicate ElementsSmall(es: Elements) {
    Small(es.value) && (es.MoreElements? ==> ElementsSmall(es.rest))
  }

  predicate MembersSmall(ms: Members) {
    Small(ms.value) && (ms.MoreMembers? ==> MembersSmall(ms.rest))
  }

  /** What the 32-bit counter says after n entries. */
  function Counted(n: nat): (c: u32)
    ensures c <= n
    ensures c == n <==> n < U32
  {
    n % U32
  }

  /** The stack slots that the events of a text leave. */
  function Slots(n: Node): (k: nat)
    ensures k >= 1
    ensures k == 1 <==> Small(n)
  {
    match n
    case Array(_, es) => 1 + ElementsSlots(es) - Counted(Length(es))
    case Object(_, ms) => 1 + MembersSlots(ms) - 2 * Counted(MemberLength(ms))
    case _ => 1
  }

  function ElementsSlots(es: Elements): (k: nat)
    ensures k >= Length(es)
    ensures k == Length(es) <==> ElementsSmall(es)
  {
    Slots(es.value) + match es case LastElement(_, _) => 0 case MoreElements(_, _, _, rest) => ElementsSlots(rest)
  }

  function MembersSlots(ms: Members): (k: nat)
    ensures k >= 2 * MemberLength(ms)
    ensures k == 2 * MemberLength(ms) <==> MembersSmall(ms)
  {
    1 + Slots(ms.value) +
    match ms case LastMember(_, _, _, _, _) => 0 case MoreMembers(_, _, _, _, _, _, rest) => MembersSlots(rest)
  }

  /** The builder gets through `es`, ends with `k` values and leaves the lowest `base` alone. */
  predicate Leaves(stack: seq<Value>, es: seq<Event>, base: nat, k: nat) {
    var r := Build(stack, es);
    r.Some? && |r.value| == k >= base && base <= |stack| && r.value[..base] == stack[..base]
  }

  lemma LeavesThen(stack: seq<Value>, xs: seq<Event>, ys: seq<Event>, base: nat, j: nat, k: nat)
    requires Leaves(stack, xs, base, j)
    requires Leaves(Build(stack, xs).value, ys, base, k)
    ensures Leaves(stack, xs + ys, base, k)
  {
    BuildConcat(stack, xs, ys);
  }

  lemma LeavesLower(stack: seq<Value>, es: seq<Event>, base: nat, lower: nat, k: nat)
    requires Leaves(stack, es, base, k) && lower <= base
    ensures Leaves(stack, es, lower, k)
  {
    var r := Build(stack, es).value;
    assert r[..lower] == r[..base][..lower];
    assert stack[..lower] == stack[..base][..lower];
  }

  lemma PushLeaves(stack: seq<Value>, e: Event)
    requires Pushed(e).Some? && !e.EndObject? && !e.EndArray?
    ensures Leaves(stack, [e], |stack|, |stack| + 1)
  {
    BuildOne(stack, e);
    assert (stack + [Pushed(e).value])[..|stack|] == stack[..|stack|];
  }

  lemma EndLeaves(stack: seq<Value>, base: nat, e: Event)
    requires e.EndObject? || e.EndArray?
    requires base + 1 + (if e.EndArray? then e.elementCount else 2 * e.memberCount) <= |stack|
    ensures Leaves(stack, [e], base, |stack| - (if e.EndArray? then e.elementCount else 2 * e.memberCount))
  {
    BuildOne(stack, e);
    var top := |stack| - (if e.EndArray? then e.elementCount else 2 * e.memberCount);
    assert forall v: Value :: (stack[..top - 1] + [v])[..base] == stack[..base];
  }

  lemma {:induction false} NodeLeaves(stack: seq<Value>, n: Node)
    requires NodeOk(n)
    ensures Leaves(stack, Events(n), |stack|, |stack| + Slots(n))
    decreases n, 3
  {
    hide *;
    if n.Array? {
      ArrayLeaves(stack, n);
    } else if n.Object? {
      ObjectLeaves(stack, n);
    } else if n.EmptyArray? || n.EmptyObject? {
      EmptyLeaves(stack, n);
    } else {
      AtomLeaves(stack, n);
    }
  }

  lemma AtomLeaves(stack: seq<Value>, n: Node)
    requires NodeOk(n) && !n.Array? && !n.Object? && !n.EmptyArray? && !n.EmptyObject?
    ensures Leaves(stack, Events(n), |stack|, |stack| + Slots(n))
  {
    hide Leaves, Build;
    var e := AtomEvent(n);
    hide Events, NodeOk, Slots, Pushed;
    PushLeaves(stack, e);
  }

  lemma AtomEvent(n: Node) returns (e: Event)
    requires NodeOk(n) && !n.Array? && !n.Object? && !n.EmptyArray? && !n.EmptyObject?
    ensures Events(n) == [e] && Pushed(e).Some? && !e.EndArray? && !e.EndObject? && Slots(n) == 1
  {
    hide ParseNumber, JsonString.StrOk, JsonString.StrBytes, JsonString.HandedOver;
    if n.Num? {
      NumberFits(n.lexeme, 0);
    }
    e := Events(n)[0];
  }

  lemma EmptyLeaves(stack: seq<Value>, n: Node)
    requires NodeOk(n) && (n.EmptyArray? || n.EmptyObject?)
    ensures Leaves(stack, Events(n), |stack|, |stack| + Slots(n))
  {
    hide Leaves, Build;
    var start := if n.EmptyArray? then StartArray else StartObject;
    var end := if n.EmptyArray? then EndArray(0) else EndObject(0);
    BracketsLeave(stack, start, end);
    assert [start] + [end] == Events(n);
  }

  lemma BracketsLeave(stack: seq<Value>, start: Event, end: Event)
    requires (start == StartArray && end == EndArray(0)) || (start == StartObject && end == EndObject(0))
    ensures Leaves(stack, [start] + [end], |stack|, |stack| + 1)
  {
    hide Build;
    PushLeaves(stack, start);
    var s := Build(stack, [start]).value;
    EndLeaves(s, |stack|, end);
    LeavesThen(stack, [start], [end], |stack|, |stack| + 1, |stack| + 1);
  }

  lemma {:induction false} ArrayLeaves(stack: seq<Value>, n: Node)
    requires NodeOk(n) && n.Array?
    ensures Leaves(stack, Events(n), |stack|, |stack| + Slots(n))
    decreases n, 2
  {
    hide Build, ElementsEvents, ElementsOk;
    PushLeaves(stack, StartArray);
    var s := Build(stack, [StartArray]).value;
    ElementsLeave(s, |stack|, n.elements, 0);
    LeavesThen(stack, [StartArray], ElementsEvents(n.elements, 0), |stack|, |stack| + 1, |stack| + Slots(n));
  }

  lemma {:induction false} ElementsLeave(stack: seq<Value>, base: nat, es: Elements, count: u32)
    requires ElementsOk(es) && base + 1 + count <= |stack|
    ensures count + Length(es) <= |stack| + ElementsSlots(es)
    ensures Leaves(stack, ElementsEvents(es, count), base, |stack| + ElementsSlots(es) - Counted(count + Length(es)))
    decreases es, 1
  {
    hide Build, Events, NodeOk, Leaves, Counted, Inc, Slots;
    var v := es.value;
    NodeLeaves(stack, v);
    LeavesLower(stack, Events(v), |stack|, base, |stack| + Slots(v));
    var s := LeavesStack(stack, Events(v), base, |stack| + Slots(v));
    var c := Inc(count);
    var k := |stack| + ElementsSlots(es) - Counted(count + Length(es));
    CountedWraps(count, if es.LastElement? then 0 else Length(es.rest));
    if es.LastElement? {
      EndLeaves(s, base, EndArray(c));
    } else {
      ElementsLeave(s, base, es.rest, c);
    }
    LeavesThen(stack, Events(v), AfterElementEvents(es, c), base, |s|, k);
  }

  /** Counting on from a wrapped count is counting on from the true one. */
  lemma CountedWraps(count: u32, n: nat)
    ensures Counted(Inc(count) + n) == Counted(count + 1 + n)
    ensures Counted(count + 1) == Inc(count)
  {
  }

  lemma {:induction false} ObjectLeaves(stack: seq<Value>, n: Node)
    requires NodeOk(n) && n.Object?
    ensures Leaves(stack, Events(n), |stack|, |stack| + Slots(n))
    decreases n, 2
  {
    hide Build, MembersEvents, MembersOk;
    PushLeaves(stack, StartObject);
    var s := Build(stack, [StartObject]).value;
    MembersLeave(s, |stack|, n.members, 0);
    LeavesThen(stack, [StartObject], MembersEvents(n.members, 0), |stack|, |stack| + 1, |stack| + Slots(n));
  }

  lemma {:induction false} MembersLeave(stack: seq<Value>, base: nat, ms: Members, count: u32)
    requires MembersOk(ms) && base + 1 + 2 * count <= |stack|
    ensures 2 * (count + MemberLength(ms)) <= |stack| + MembersSlots(ms)
    ensures Leaves(stack, MembersEvents(ms, count), base,
                   |stack| + MembersSlots(ms) - 2 * Counted(count + MemberLength(ms)))
    decreases ms, 1
  {
    hide Build, NodeOk, Leaves, AfterKeyEvents, JsonString.HandedOver, JsonString.StrBytes;
    var key := Key(JsonString.HandedOver(JsonString.StrBytes(ms.key)));
    var k := |stack| + MembersSlots(ms) - 2 * Counted(count + MemberLength(ms));
    PushLeaves(stack, key);
    LeavesLower(stack, [key], |stack|, base, |stack| + 1);
    var s := LeavesStack(stack, [key], base, |stack| + 1);
    AfterKeyLeaves(s, base, ms, count);
    LeavesThen(stack, [key], AfterKeyEvents(ms, count), base, |s|, k);
  }

  lemma {:induction false} AfterKeyLeaves(stack: seq<Value>, base: nat, ms: Members, count: u32)
    requires MembersOk(ms) && base + 2 + 2 * count <= |stack|
    ensures 2 * (count + MemberLength(ms)) <= |stack| - 1 + MembersSlots(ms)
    ensures Leaves(stack, AfterKeyEvents(ms, count), base,
                   |stack| - 1 + MembersSlots(ms) - 2 * Counted(count + MemberLength(ms)))
    decreases ms, 0
  {
    hide Build, Events, NodeOk, Leaves, Counted, Inc, Slots, JsonString.StrOk, JsonString.StrBytes, JsonString.HandedOver;
    var v := ms.value;
    var k := |stack| - 1 + MembersSlots(ms) - 2 * Counted(count + MemberLength(ms));
    NodeLeaves(stack, v);
    LeavesLower(stack, Events(v), |stack|, base, |stack| + Slots(v));
    var u := LeavesStack(stack, Events(v), base, |stack| + Slots(v));
    var c := Inc(count);
    CountedWraps(count, if ms.LastMember? then 0 else MemberLength(ms.rest));
    if ms.LastMember? {
      EndLeaves(u, base, EndObject(c));
    } else {
      MembersLeave(u, base, ms.rest, c);
    }
    LeavesThen(stack, Events(v), AfterMemberEvents(ms, c), base, |u|, k);
  }

  lemma LeavesStack(stack: seq<Value>, es: seq<Event>, base: nat, k: nat) returns (s: seq<Value>)
    requires Leaves(stack, es, base, k)
    ensures Build(stack, es) == Some(s) && |s| == k >= base
  {
    s := Build(stack, es).value;
  }

  // ---------- which value ----------

  /** The value a text denotes. */
  function ValueOf(n: Node): (v: Value)
    requires NodeOk(n)
  {
    match n
    case NullWord => NullValue
    case TrueWord => BoolValue(true)
    case FalseWord => BoolValue(false)
    case Str(cs) => StringValue(JsonString.StrBytes(cs))
    case Num(s) => NumberFits(s, 0); Pushed(ParseNumber(s, 0).event).value
    case EmptyArray(_) => ArrayValue([])
    case Array(_, es) => ArrayValue(ElementValues(es))
    case EmptyObject(_) => ObjectValue([])
    case Object(_, ms) => ObjectValue(MemberValues(ms))
  }

  function ElementValues(es: Elements): (r: seq<Value>)
    requires ElementsOk(es)
    ensures |r| == Length(es)
  {
    [ValueOf(es.value)] + match es case LastElement(_, _) => [] case MoreElements(_, _, _, rest) => ElementValues(rest)
  }

  function MemberValues(ms: Members): (r: seq<Member>)
    requires MembersOk(ms)
    ensures |r| == MemberLength(ms)
  {
    [Member(StringValue(JsonString.StrBytes(ms.key)), ValueOf(ms.value))] +
    match ms case LastMember(_, _, _, _, _) => [] case MoreMembers(_, _, _, _, _, _, rest) => MemberValues(rest)
  }

  /** The name of the first member as the handler is given it. */
  function GivenName(ms: Members): bytes
    requires MembersOk(ms)
  {
    JsonString.HandedOver(JsonString.StrBytes(ms.key))
  }

  lemma ReceivedElements(es: Elements)
    requires ElementsOk(es)
    ensures ReceivedAll(ElementValues(es)) ==
              [Received(ValueOf(es.value))] + (if es.LastElement? then [] else ReceivedAll(ElementValues(es.rest)))
  {
    hide NodeOk, ValueOf, Received, ReceivedAll;
    ReceivedCons(ValueOf(es.value), if es.LastElement? then [] else ElementValues(es.rest));
  }

  lemma ReceivedCons(v: Value, vs: seq<Value>)
    ensures ReceivedAll([v] + vs) == [Received(v)] + ReceivedAll(vs)
  {
    hide Received;
  }

  lemma ReceivedMembersAre(ms: Members)
    requires MembersOk(ms)
    ensures ReceivedMembers(MemberValues(ms)) ==
              [Member(StringValue(GivenName(ms)), Received(ValueOf(ms.value)))] +
              (if ms.LastMember? then [] else ReceivedMembers(MemberValues(ms.rest)))
  {
    hide NodeOk, ValueOf, ReceivedMembers, JsonString.HandedOver, JsonString.StrOk, JsonString.StrBytes;
    ReceivedMembersCons(Member(StringValue(JsonString.StrBytes(ms.key)), ValueOf(ms.value)),
                        if ms.LastMember? then [] else MemberValues(ms.rest));
  }

  lemma ReceivedMembersCons(m: Member, ms: seq<Member>)
    ensures ReceivedMembers([m] + ms) == [ReceivedMember(m)] + ReceivedMembers(ms)
  {
    hide ReceivedMember;
  }

  lemma {:induction false} NodeBuilds(stack: seq<Value>, n: Node)
    requires NodeOk(n) && Small(n)
    ensures Build(stack, Events(n)) == Some(stack + [Received(ValueOf(n))])
    decreases n, 3
  {
    if n.Array? {
      ArrayBuilds(stack, n);
    } else if n.Object? {
      ObjectBuilds(stack, n);
    } else if n.EmptyArray? || n.EmptyObject? {
      EmptyBuilds(stack, n);
    } else {
      AtomBuilds(stack, n);
    }
  }

  lemma AtomBuilds(stack: seq<Value>, n: Node)
    requires NodeOk(n) && !n.Array? && !n.Object? && !n.EmptyArray? && !n.EmptyObject?
    ensures Build(stack, Events(n)) == Some(stack + [Received(ValueOf(n))])
  {
    hide Build;
    var e := AtomEvent(n);
    AtomValue(n);
    hide Events, NodeOk, ValueOf, Received, Pushed, Slots;
    BuildOne(stack, e);
  }

  lemma AtomValue(n: Node)
    requires NodeOk(n) && !n.Array? && !n.Object? && !n.EmptyArray? && !n.EmptyObject?
    ensures |Events(n)| == 1 && Pushed(Events(n)[0]) == Some(Received(ValueOf(n)))
  {
    hide ParseNumber, JsonString.StrOk, JsonString.StrBytes, JsonString.HandedOver;
    if n.Num? {
      NumberFits(n.lexeme, 0);
    }
  }

  lemma EmptyBuilds(stack: seq<Value>, n: Node)
    requires NodeOk(n) && (n.EmptyArray? || n.EmptyObject?)
    ensures Build(stack, Events(n)) == Some(stack + [Received(ValueOf(n))])
  {
    hide Build;
    var start := if n.EmptyArray? then StartArray else StartObject;
    var end := if n.EmptyArray? then EndArray(0) else EndObject(0);
    BuildOne(stack, start);
    var s := Handle(stack, start).value;
    BuildConcat(stack, [start], [end]);
    BuildOne(s, end);
    assert [start] + [end] == Events(n);
    if n.EmptyArray? {
      CloseArray(stack, []);
      assert stack + [ArrayValue([])] + [] == s;
    } else {
      CloseObject(stack, []);
      assert stack + [ObjectValue([])] + [] == s;
    }
  }

  /** An opening event pushes an empty container. */
  lemma PushStart(stack: seq<Value>, start: Event)
    requires start == StartArray || start == StartObject
    ensures Handle(stack, start) == Some(stack + [if start == StartArray then ArrayValue([]) else ObjectValue([])])
  {
  }

  lemma CloseArray(stack: seq<Value>, vs: seq<Value>)
    requires |vs| < U32
    ensures Handle(stack + [ArrayValue([])] + vs, EndArray(|vs|)) == Some(stack + [ArrayValue(vs)])
  {
    var s := stack + [ArrayValue([])] + vs;
    assert s[..|stack|] == stack;
    assert s[|stack| + 1..] == vs;
  }

  lemma CloseSlots(stack: seq<Value>, slots: seq<Value>, n: u32)
    requires |slots| == 2 * n
    ensures Handle(stack + [ObjectValue([])] + slots, EndObject(n)) == Some(stack + [ObjectValue(Pairs(slots))])
  {
    hide Pairs;
    var s := stack + [ObjectValue([])] + slots;
    assert |s| - 2 * n == |stack| + 1;
    assert s[..|stack|] == stack;
    assert s[|stack| + 1..] == slots;
  }

  lemma CloseObject(stack: seq<Value>, ms: seq<Member>)
    requires |ms| < U32
    ensures Handle(stack + [ObjectValue([])] + Flat(ms, 0), EndObject(|ms|)) == Some(stack + [ObjectValue(ms)])
  {
    hide Flat, Pairs, Handle;
    CloseSlots(stack, Flat(ms, 0), |ms|);
    PairsFlat(ms, 0);
    assert ms[0..] == ms;
  }

  lemma {:induction false} ArrayBuilds(stack: seq<Value>, n: Node)
    requires NodeOk(n) && n.Array? && Small(n)
    ensures Build(stack, Events(n)) == Some(stack + [Received(ValueOf(n))])
    decreases n, 2
  {
    hide Build, ElementsEvents, ElementsOk, ElementValues, ElementsSmall, ReceivedAll, ParseNumber;
    BuildOne(stack, StartArray);
    BuildConcat(stack, [StartArray], ElementsEvents(n.elements, 0));
    ElementsBuilds(stack, [], n.elements, 0);
    assert stack + [ArrayValue([])] + [] == stack + [ArrayValue([])];
    assert [] + ReceivedAll(ElementValues(n.elements)) == ReceivedAll(ElementValues(n.elements));
  }

  /** The elements `vs` are on the stack above the array they belong to. */
  lemma {:induction false} ElementsBuilds(stack: seq<Value>, vs: seq<Value>, es: Elements, count: u32)
    requires ElementsOk(es) && ElementsSmall(es) && count == |vs| && |vs| + Length(es) < U32
    ensures Build(stack + [ArrayValue([])] + vs, ElementsEvents(es, count))
         == Some(stack + [ArrayValue(vs + ReceivedAll(ElementValues(es)))])
    decreases es, 1
  {
    hide Build, Events, NodeOk, ValueOf, Handle, Received, ReceivedAll, ElementValues, Small;
    ReceivedElements(es);
    var s := stack + [ArrayValue([])] + vs;
    var v := Received(ValueOf(es.value));
    NodeBuilds(s, es.value);
    BuildConcat(s, Events(es.value), AfterElementEvents(es, Inc(count)));
    assert s + [v] == stack + [ArrayValue([])] + (vs + [v]);
    if es.LastElement? {
      BuildOne(s + [v], EndArray(Inc(count)));
      CloseArray(stack, vs + [v]);
      assert ReceivedAll(ElementValues(es)) == [v];
    } else {
      ElementsBuilds(stack, vs + [v], es.rest, Inc(count));
      assert vs + [v] + ReceivedAll(ElementValues(es.rest)) == vs + ReceivedAll(ElementValues(es));
    }
  }

  lemma {:induction false} ObjectBuilds(stack: seq<Value>, n: Node)
    requires NodeOk(n) && n.Object? && Small(n)
    ensures Build(stack, Events(n)) == Some(stack + [Received(ValueOf(n))])
    decreases n, 2
  {
    hide Build, MembersEvents, MembersOk, MemberValues, MembersSmall, ReceivedMembers, ParseNumber;
    BuildOne(stack, StartObject);
    BuildConcat(stack, [StartObject], MembersEvents(n.members, 0));
    MembersBuilds(stack, [], n.members, 0);
    assert stack + [ObjectValue([])] + Flat([], 0) == stack + [ObjectValue([])];
    assert [] + ReceivedMembers(MemberValues(n.members)) == ReceivedMembers(MemberValues(n.members));
  }

  lemma {:induction false} FlatSnoc(ms: seq<Member>, m: Member, k: nat)
    requires k <= |ms|
    ensures Flat(ms + [m], k) == Flat(ms, k) + [m.name, m.value]
    decreases |ms| - k
  {
    if k == |ms| {
      assert Flat(ms + [m], k + 1) == [];
    } else {
      FlatSnoc(ms, m, k + 1);
    }
  }

  /** The members `done` are on the stack above the object they belong to. */
  lemma {:induction false} MembersBuilds(stack: seq<Value>, done: seq<Member>, ms: Members, count: u32)
    requires MembersOk(ms) && MembersSmall(ms) && count == |done| && |done| + MemberLength(ms) < U32
    ensures Build(stack + [ObjectValue([])] + Flat(done, 0), MembersEvents(ms, count))
         == Some(stack + [ObjectValue(done + ReceivedMembers(MemberValues(ms)))])
    decreases ms, 2
  {
    hide Build, AfterKeyEvents, NodeOk, Handle, Flat;
    var s := stack + [ObjectValue([])] + Flat(done, 0);
    var name := GivenName(ms);
    BuildOne(s, Key(name));
    HandleKey(s, name);
    BuildConcat(s, [Key(name)], AfterKeyEvents(ms, count));
    AfterKeyBuilds(stack, done, ms, count);
  }

  lemma {:induction false} AfterKeyBuilds(stack: seq<Value>, done: seq<Member>, ms: Members, count: u32)
    requires MembersOk(ms) && MembersSmall(ms) && count == |done| && |done| + MemberLength(ms) < U32
    ensures Build(stack + [ObjectValue([])] + Flat(done, 0) + [StringValue(GivenName(ms))],
                  AfterKeyEvents(ms, count))
         == Some(stack + [ObjectValue(done + ReceivedMembers(MemberValues(ms)))])
    decreases ms, 1
  {
    hide Build, Events, NodeOk, ValueOf, Handle, Flat, GivenName, AfterMemberEvents, Small, MemberValues, Received;
    var m := Member(StringValue(GivenName(ms)), Received(ValueOf(ms.value)));
    var s := stack + [ObjectValue([])] + Flat(done, 0) + [m.name];
    NodeBuilds(s, ms.value);
    BuildConcat(s, Events(ms.value), AfterMemberEvents(ms, Inc(count)));
    FlatSnoc(done, m, 0);
    assert s + [m.value] == stack + [ObjectValue([])] + Flat(done + [m], 0);
    MemberBuilt(stack, done, m, ms, Inc(count));
  }

  /** The member `m` has just been put on the stack. */
  lemma {:induction false} MemberBuilt(stack: seq<Value>, done: seq<Member>, m: Member, ms: Members, count: u32)
    requires MembersOk(ms) && MembersSmall(ms) && count == |done| + 1 && |done| + MemberLength(ms) < U32
    requires m == Member(StringValue(GivenName(ms)), Received(ValueOf(ms.value)))
    ensures Build(stack + [ObjectValue([])] + Flat(done + [m], 0), AfterMemberEvents(ms, count))
         == Some(stack + [ObjectValue(done + ReceivedMembers(MemberValues(ms)))])
    decreases ms, 0
  {
    hide Build, Events, NodeOk, ValueOf, Handle, Flat, GivenName, MemberValues, Small, MembersEvents, Received;
    hide ReceivedMembers, JsonString.StrOk, JsonString.StrBytes, JsonString.HandedOver, AllSpace;
    ReceivedMembersAre(ms);
    var all := done + [m];
    if ms.LastMember? {
      BuildOne(stack + [ObjectValue([])] + Flat(all, 0), EndObject(count));
      CloseObject(stack, all);
      assert done + ReceivedMembers(MemberValues(ms)) == all;
    } else {
      MembersBuilds(stack, all, ms.rest, count);
      assert all + ReceivedMembers(MemberValues(ms.rest)) == done + ReceivedMembers(MemberValues(ms));
    }
  }

  // ---------- memory ----------

  /** The requests of a text are those of the value that is received. */
  lemma {:induction false} NodeFits(n: Node)
    requires NodeOk(n) && Small(n)
    ensures AllFit(Events(n)) <==> Storable(Received(ValueOf(n)))
    decreases n, 3
  {
    hide AllFit, Fits, ParseNumber;
    if n.Array? {
      ArrayFits(n);
    } else if n.Object? {
      ObjectFits(n);
    } else if n.EmptyArray? {
      PairFits(StartArray, EndArray(0));
    } else if n.EmptyObject? {
      PairFits(StartObject, EndObject(0));
    } else {
      AtomFits(n);
    }
  }

  lemma PairFits(start: Event, end: Event)
    requires (start == StartArray && end == EndArray(0)) || (start == StartObject && end == EndObject(0))
    ensures AllFit([start, end])
  {
    hide AllFit, Fits;
    AroundFits(start, [], end);
    assert [start] + [] + [end] == [start, end];
    assert AllFit([]) by { NoneFit(); }
  }

  lemma NoneFit()
    ensures AllFit([])
  {
  }

  lemma AtomFits(n: Node)
    requires NodeOk(n) && !n.Array? && !n.Object? && !n.EmptyArray? && !n.EmptyObject?
    ensures AllFit(Events(n)) <==> Storable(Received(ValueOf(n)))
  {
    hide AllFit, Fits, ParseNumber, JsonString.StrOk, JsonString.StrBytes;
    var e := Events(n)[0];
    assert Events(n) == [e];
    AllFitOne(e);
    if n.Num? {
      NumberFits(n.lexeme, 0);
      NumberKind(n.lexeme);
      FitsIff(e);
    } else if n.Str? {
      HandedSize(JsonString.StrBytes(n.chars));
      hide JsonString.HandedOver;
      FitsIff(e);
    } else {
      FitsIff(e);
    }
  }

  lemma NumberKind(s: bytes)
    requires ParseNumber(s, 0).Good?
    ensures Copied(ParseNumber(s, 0).event) == 0
  {
  }

  lemma HandedSize(s: bytes)
    ensures |JsonString.HandedOver(s)| < U32
  {
  }

  lemma {:induction false} ArrayFits(n: Node)
    requires n.Array? && NodeOk(n) && Small(n)
    ensures AllFit(Events(n)) <==> Storable(Received(ValueOf(n)))
    decreases n, 2
  {
    hide AllFit, Fits, ElementsEvents, ElementsOk, ElementValues, ElementsSmall, Storable;
    AllFitConcat([StartArray], ElementsEvents(n.elements, 0));
    AllFitOne(StartArray);
    FitsIff(StartArray);
    ElementsFitting(n.elements, 0);
    StorableArray(ReceivedAll(ElementValues(n.elements)));
  }

  lemma StorableArray(vs: seq<Value>)
    ensures Storable(ArrayValue(vs)) <==> VALUE_SIZE * |vs| <= Pool.LIMIT && AllStorable(vs)
  {
  }

  predicate AllStorable(vs: seq<Value>) {
    forall i :: 0 <= i < |vs| ==> Storable(vs[i])
  }

  lemma AllStorableCons(v: Value, vs: seq<Value>)
    ensures AllStorable([v] + vs) <==> Storable(v) && AllStorable(vs)
  {
    hide Storable;
    if AllStorable([v] + vs) {
      assert ([v] + vs)[0] == v;
      assert forall i :: 0 <= i < |vs| ==> ([v] + vs)[i + 1] == vs[i];
    }
  }

  lemma {:induction false} ElementsFitting(es: Elements, count: u32)
    requires ElementsOk(es) && ElementsSmall(es) && count + Length(es) < U32
    ensures AllFit(ElementsEvents(es, count)) <==>
              AllStorable(ReceivedAll(ElementValues(es))) && VALUE_SIZE * (count + Length(es)) <= Pool.LIMIT
    decreases es, 1
  {
    hide AllFit, Fits, Events, NodeOk, ValueOf, Small, Storable, AllStorable, Received, ReceivedAll, ElementValues;
    NodeFits(es.value);
    ReceivedElements(es);
    var v := Received(ValueOf(es.value));
    AllFitConcat(Events(es.value), AfterElementEvents(es, Inc(count)));
    if es.LastElement? {
      AllFitOne(EndArray(Inc(count)));
      FitsIff(EndArray(Inc(count)));
      AllStorableCons(v, []);
      assert [v] + [] == [v];
      assert AllStorable([]) by { NoneStorable(); }
    } else {
      ElementsFitting(es.rest, Inc(count));
      AllStorableCons(v, ReceivedAll(ElementValues(es.rest)));
    }
  }

  lemma NoneStorable()
    ensures AllStorable([]) && MembersStorable([])
  {
  }

  predicate MembersStorable(ms: seq<Member>) {
    forall i :: 0 <= i < |ms| ==> Storable(ms[i].name) && Storable(ms[i].value)
  }

  lemma StorableObject(ms: seq<Member>)
    ensures Storable(ObjectValue(ms)) <==> MEMBER_SIZE * |ms| <= Pool.LIMIT && MembersStorable(ms)
  {
  }

  lemma MembersStorableCons(m: Member, ms: seq<Member>)
    ensures MembersStorable([m] + ms) <==> Storable(m.name) && Storable(m.value) && MembersStorable(ms)
  {
    hide Storable;
    if MembersStorable([m] + ms) {
      assert ([m] + ms)[0] == m;
      assert forall i :: 0 <= i < |ms| ==> ([m] + ms)[i + 1] == ms[i];
    }
  }

  lemma {:induction false} ObjectFits(n: Node)
    requires n.Object? && NodeOk(n) && Small(n)
    ensures AllFit(Events(n)) <==> Storable(Received(ValueOf(n)))
    decreases n, 2
  {
    hide AllFit, Fits, MembersEvents, MembersOk, MemberValues, MembersSmall, Storable;
    AllFitConcat([StartObject], MembersEvents(n.members, 0));
    AllFitOne(StartObject);
    FitsIff(StartObject);
    MembersFitting(n.members, 0);
    StorableObject(ReceivedMembers(MemberValues(n.members)));
  }

  lemma NameFits(ms: Members)
    requires MembersOk(ms)
    ensures Fits(Key(GivenName(ms))) <==> Storable(StringValue(GivenName(ms)))
  {
    hide Fits, NodeOk, JsonString.StrOk, JsonString.StrBytes;
    HandedSize(JsonString.StrBytes(ms.key));
    hide JsonString.HandedOver;
    FitsIff(Key(GivenName(ms)));
  }

  lemma {:induction false} MembersFitting(ms: Members, count: u32)
    requires MembersOk(ms) && MembersSmall(ms) && count + MemberLength(ms) < U32
    ensures AllFit(MembersEvents(ms, count)) <==>
              MembersStorable(ReceivedMembers(MemberValues(ms)))
              && MEMBER_SIZE * (count + MemberLength(ms)) <= Pool.LIMIT
    decreases ms, 1
  {
    hide AllFit, Fits, Events, NodeOk, ValueOf, Small, Storable, MembersStorable, Received, ReceivedMembers;
    hide MemberValues, JsonString.HandedOver, JsonString.StrOk, JsonString.StrBytes;
    NodeFits(ms.value);
    ReceivedMembersAre(ms);
    NameFits(ms);
    var key := Key(GivenName(ms));
    AllFitConcat([key], AfterKeyEvents(ms, count));
    AllFitConcat(Events(ms.value), AfterMemberEvents(ms, Inc(count)));
    AllFitOne(key);
    var m := Member(StringValue(GivenName(ms)), Received(ValueOf(ms.value)));
    if ms.LastMember? {
      AllFitOne(EndObject(Inc(count)));
      FitsIff(EndObject(Inc(count)));
      MembersStorableCons(m, []);
      assert [m] + [] == [m];
      assert MembersStorable([]) by { NoneStorable(); }
    } else {
      MembersFitting(ms.rest, Inc(count));
      MembersStorableCons(m, ReceivedMembers(MemberValues(ms.rest)));
    }
  }

  // ---------- short texts ----------

  /** The shortest text with a container that the pool cannot store. */
  const SHORTEST: nat := 357_913_943

  lemma CharsShort(cs: seq<JsonString.Char>)
    requires JsonString.StrOk(cs)
    ensures |JsonString.StrBytes(cs)| < |Quoted(cs)| - 1
  {
    hide JsonString.CharsText, JsonString.CharsBytes, JsonString.ScanString, JsonString.Told, JsonString.Paired;
    JsonString.StringComplete(cs, [], []);
    JsonString.ScanShort([] + JsonString.CharsText(cs) + [QUOTE] + [], 0);
  }

  /** A text of fewer bytes than that can be stored, and its counts do not wrap. */
  lemma {:induction false} ShortIsFine(n: Node)
    requires NodeOk(n) && |Text(n)| < SHORTEST
    ensures Small(n) && Storable(ValueOf(n))
    decreases n, 2
  {
    match n
    case Str(cs) => CharsShort(cs);
    case Num(s) => NumberFits(s, 0);
    case Array(_, es) =>
      ShortElementsAreFine(es);
      StorableArray(ElementValues(es));
    case Object(_, ms) =>
      ShortMembersAreFine(ms);
      StorableObject(MemberValues(ms));
    case _ =>
  }

  lemma {:induction false} ShortElementsAreFine(es: Elements)
    requires ElementsOk(es) && |ElementsText(es)| < SHORTEST
    ensures 2 * Length(es) <= |ElementsText(es)| && ElementsSmall(es) && AllStorable(ElementValues(es))
    decreases es, 1
  {
    hide Text, NodeOk, ValueOf, Storable, AllStorable, Small;
    TextSome(es.value);
    ShortIsFine(es.value);
    NoneStorable();
    if es.MoreElements? {
      ShortElementsAreFine(es.rest);
      AllStorableCons(ValueOf(es.value), ElementValues(es.rest));
    } else {
      AllStorableCons(ValueOf(es.value), []);
    }
  }

  lemma TextSome(n: Node)
    requires NodeOk(n)
    ensures |Text(n)| >= 1
  {
    TextStarts(n);
  }

  lemma {:induction false} ShortMembersAreFine(ms: Members)
    requires MembersOk(ms) && |MembersText(ms)| < SHORTEST
    ensures 5 * MemberLength(ms) <= |MembersText(ms)| && MembersSmall(ms) && MembersStorable(MemberValues(ms))
    decreases ms, 1
  {
    hide Text, NodeOk, ValueOf, MembersStorable, Small, JsonString.StrBytes, JsonString.StrOk;
    var after := AfterMemberText(ms);
    assert |AfterKeyText(ms)| >= 1 + |Text(ms.value)| + |after|;
    CharsShort(ms.key);
    TextSome(ms.value);
    ShortIsFine(ms.value);
    NoneStorable();
    var m := Member(StringValue(JsonString.StrBytes(ms.key)), ValueOf(ms.value));
    if ms.MoreMembers? {
      assert |after| >= 1 + |MembersText(ms.rest)|;
      ShortMembersAreFine(ms.rest);
      MembersStorableCons(m, MemberValues(ms.rest));
    } else {
      MembersStorableCons(m, []);
    }
  }

  // ---------- the document's assertion ----------

  /** The text of an accepted document, and what the document makes of its events. Unless a
      request exceeds the limit of the pool, no handler call fails, the stack holds exactly one
      value if and only if no container of the text has 2^32 entries or more, and then it is the
      value the text denotes with every string as it was handed over: exactly that value if and
      only if every string has fewer than 2^32 - 1 bytes. */
  lemma OneRoot(t: bytes) returns (lead: bytes, n: Node, trail: bytes)
    requires Parse(t, AcceptAll()).Done?
    ensures IsDocument(t, lead, n, trail)
    ensures var log := Parse(t, AcceptAll()).log;
            var r := Assembled([], log);
            && (r.None? <==> !AllFit(log))
            && (r.Some? ==> (|r.value| == 1 <==> Small(n)) && (Small(n) ==> r.value == [Received(ValueOf(n))]))
            && (Small(n) ==> (AllFit(log) <==> Storable(Received(ValueOf(n)))))
    ensures Received(ValueOf(n)) == ValueOf(n) <==> Short(ValueOf(n))
    ensures |t| < SHORTEST ==> Small(n) && Short(ValueOf(n)) && Storable(ValueOf(n))
  {
    hide *;
    lead, n, trail := DocumentSound(t);
    RootOf(t, lead, n, trail);
  }

  lemma RootOf(t: bytes, lead: bytes, n: Node, trail: bytes)
    requires IsDocument(t, lead, n, trail)
    ensures var r := Assembled([], Events(n));
            && (r.None? <==> !AllFit(Events(n)))
            && (r.Some? ==> (|r.value| == 1 <==> Small(n)) && (Small(n) ==> r.value == [Received(ValueOf(n))]))
            && (Small(n) ==> (AllFit(Events(n)) <==> Storable(Received(ValueOf(n)))))
    ensures Received(ValueOf(n)) == ValueOf(n) <==> Short(ValueOf(n))
    ensures |t| < SHORTEST ==> Small(n) && Short(ValueOf(n)) && Storable(ValueOf(n))
  {
    hide Build, Events, Slots, ValueOf, Received, Short, Text, NodeOk, Small, AllFit, Storable;
    NodeLeaves([], n);
    if Small(n) {
      NodeBuilds([], n);
      assert [] + [Received(ValueOf(n))] == [Received(ValueOf(n))];
      NodeFits(n);
    }
    ReceivedWhole(ValueOf(n));
    if |t| < SHORTEST {
      DocumentLength(t, lead, n, trail);
      ShortIsFine(n);
      StorableIsShort(ValueOf(n));
    }
  }

  lemma DocumentLength(t: bytes, lead: bytes, n: Node, trail: bytes)
    requires IsDocument(t, lead, n, trail)
    ensures |Text(n)| <= |t|
  {
    hide Text, NodeOk;
  }

  // ---------- where it fails ----------

  /** `n` times the same element. */
  function Copies(v: Node, n: nat): (es: Elements)
    requires n > 0
  {
    if n == 1 then LastElement(v, []) else MoreElements(v, [], [], Copies(v, n - 1))
  }

  lemma Times(n: nat, k: nat)
    requires n > 0
    ensures n * k == (n - 1) * k + k
  {
  }

  lemma {:induction false} CopiesOk(v: Node, n: nat)
    requires n > 0 && NodeOk(v) && Small(v)
    ensures ElementsOk(Copies(v, n)) && Length(Copies(v, n)) == n && ElementsSmall(Copies(v, n))
    ensures |ElementsText(Copies(v, n))| == n * (|Text(v)| + 1)
  {
    hide NodeOk, Text, Small;
    if n > 1 {
      CopiesOk(v, n - 1);
      Times(n, |Text(v)| + 1);
    }
  }

  /** An array of copies as a whole text. */
  lemma CopiesRead(v: Node, n: nat) returns (t: bytes)
    requires n > 0 && NodeOk(v) && Small(v)
    ensures ElementsOk(Copies(v, n)) && NodeOk(Array([], Copies(v, n)))
    ensures t == Text(Array([], Copies(v, n))) && |t| == 1 + n * (|Text(v)| + 1)
    ensures IsDocument(t, [], Array([], Copies(v, n)), [])
    ensures Parse(t, AcceptAll()) == Done(|t|, Events(Array([], Copies(v, n))))
    ensures Small(Array([], Copies(v, n))) <==> n < U32
    ensures Length(Copies(v, n)) == n
  {
    hide Parse, Events, ElementsText;
    var a := Array([], Copies(v, n));
    CopiesOk(v, n);
    t := Text(a);
    assert [] + ElementsText(a.elements) == ElementsText(a.elements);
    hide Text, Copies;
    assert [] + Text(a) + [] == t && t[0..|t|] == t;
    DocumentComplete(t, [], a, []);
  }

  /** The requests of an array of nulls are within the limit when the count it ends with is. */
  lemma {:induction false} NullsFit(n: nat, count: u32)
    requires n > 0 && VALUE_SIZE * Counted(count + n) <= Pool.LIMIT
    ensures ElementsOk(Copies(NullWord, n)) && AllFit(ElementsEvents(Copies(NullWord, n), count))
    decreases n
  {
    hide AllFit, Fits, Counted, Inc;
    NullOk();
    hide NodeOk;
    CopiesOk(NullWord, n);
    CountedWraps(count, n - 1);
    AllFitConcat([Null], AfterElementEvents(Copies(NullWord, n), Inc(count)));
    AllFitOne(Null);
    FitsIff(Null);
    if n == 1 {
      AllFitOne(EndArray(Inc(count)));
      FitsIff(EndArray(Inc(count)));
    } else {
      NullsFit(n - 1, Inc(count));
    }
  }

  lemma NullOk()
    ensures NodeOk(NullWord) && Events(NullWord) == [Null]
  {
  }

  /** An array of 2^32 elements is accepted, asks for no memory and leaves more than one value:
      the 32-bit count wraps to zero and the elements stay on the stack. */
  lemma TooManyElements() returns (t: bytes)
    ensures Parse(t, AcceptAll()).Done?
    ensures var r := Assembled([], Parse(t, AcceptAll()).log);
            r.Some? && |r.value| != 1
  {
    hide Parse, Build, ValueOf, Text, Copies, NodeOk, ElementsOk, AllFit, ElementsEvents;
    assert NodeOk(NullWord) by { NullOk(); }
    t := CopiesRead(NullWord, U32);
    var a := Array([], Copies(NullWord, U32));
    NodeLeaves([], a);
    NullsFit(U32, 0);
    AllFitConcat([StartArray], ElementsEvents(a.elements, 0));
    AllFitOne(StartArray);
    FitsIff(StartArray);
  }

  /** The digit zero as a value. */
  lemma ZeroOk()
    ensures NodeOk(Num([DIGIT0])) && Small(Num([DIGIT0])) && Text(Num([DIGIT0])) == [DIGIT0]
  {
    ZeroInt([DIGIT0], 0, false);
    assert ParseNumber([DIGIT0], 0) == Good(Uint(0), 1);
  }

  /** The bound on the length of a text is exact: an array of 178,956,971 digits has that length,
      is accepted, and asks the pool for 2^32 + 8 bytes, of which eight are set aside. */
  lemma TooMuchMemory() returns (t: bytes)
    ensures |t| == SHORTEST && Parse(t, AcceptAll()).Done?
    ensures Assembled([], Parse(t, AcceptAll()).log) == None
    ensures Pool.Align(VALUE_SIZE * 178_956_971) == 8
  {
    hide Parse, Build, Events, ValueOf, Text, NodeOk, AllFit, Received, Storable, Copies, ElementsOk;
    ZeroOk();
    t := CopiesRead(Num([DIGIT0]), 178_956_971);
    var a := Array([], Copies(Num([DIGIT0]), 178_956_971));
    NodeFits(a);
    if Storable(Received(ValueOf(a))) {
      LengthCounts(a);
    }
  }

  lemma LengthCounts(n: Node)
    requires n.Array? && NodeOk(n) && Storable(Received(ValueOf(n)))
    ensures VALUE_SIZE * Length(n.elements) <= Pool.LIMIT
  {
    hide ElementsOk, ElementValues;
    StorableArray(ReceivedAll(ElementValues(n.elements)));
  }

  /** The text of any string of 2^32 bytes is accepted and read as the empty string. */
  lemma LongStringReadsEmpty(s: bytes)
    requires |s| == U32
    ensures var r := Parse(JsonString.QuoteString(s), AcceptAll());
            r.Done? && Assembled([], r.log) == Some([StringValue([])])
  {
    hide JsonString.ScanString, JsonString.EscapeAll, JsonString.HandedOver, JsonString.Told, Build, AllFit, Fits;
    var t := JsonString.QuoteString(s);
    JsonString.StringRoundTrip(s, [QUOTE], []);
    assert t == [QUOTE] + JsonString.EscapeAll(s) + [QUOTE] + [];
    JsonString.LongStringLost(s);
    SkipSpaceUnique(t, 0, 0);
    SkipSpaceUnique(t, |t|, |t|);
    assert [] + [String([])] == [String([])];
    BuildOne([], String([]));
    AllFitOne(String([]));
    FitsIff(String([]));
    assert [] + [StringValue([])] == [StringValue([])];
  }
}
