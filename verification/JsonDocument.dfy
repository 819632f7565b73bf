/** Values and the document: a handler that builds a tree on a stack, and the traversal that
    feeds handlers. */
module JsonDocument {
  import opened Bytes
  import opened JsonEvents
  import Pool

  // ---------- numbers ----------

  const P31: int := 0x8000_0000
  const P63: int := 0x8000_0000_0000_0000

  /** The type flags of a number and the eight bytes of its payload, read as unsigned. */
  datatype Number =
    | Integer(isInt: bool, isUint: bool, isInt64: bool, isUint64: bool, bits: u64)
    | Floating(minus: bool, significand: nat, exponent: int)

  /** Storing a signed 64-bit value. */
  function Bits(v: int): u64
    requires -P63 <= v < U64
  {
    if v < 0 then v + U64 else v
  }

  /** The four integer constructors of GenericValue. */
  function OfInt(i: int): (n: Number)
    requires -P31 <= i < P31
  {
    Integer(true, i >= 0, true, i >= 0, Bits(i))
  }

  function OfUint(u: int): (n: Number)
    requires 0 <= u < U32
  {
    Integer(u < P31, true, true, true, Bits(u))
  }

  function OfInt64(i: int): (n: Number)
    requires -P63 <= i < P63
  {
    if i >= 0 then Integer(i < P31, i < U32, true, true, Bits(i))
    else Integer(i >= -P31, false, true, false, Bits(i))
  }

  function OfUint64(u: int): (n: Number)
    requires 0 <= u < U64
  {
    Integer(u < P31, u < U32, u < P63, true, Bits(u))
  }

  /** Reading the payload as a 32-bit or 64-bit signed integer. */
  function Low32(bits: u64): int {
    bits % U32
  }

  function LowInt(bits: u64): int {
    if Low32(bits) < P31 then Low32(bits) else Low32(bits) - U32
  }

  function SignedBits(bits: u64): int {
    if bits < P63 then bits else bits - U64
  }

  /** The number event Accept emits: the first flag in the order Int, Uint, Int64, Uint64. */
  function NumberEvent(n: Number): (e: Event) {
    match n
    case Integer(a, b, c, d, bits) =>
      if a then Int(LowInt(bits))
      else if b then Uint(Low32(bits))
      else if c then Int64(SignedBits(bits))
      else Uint64(bits)
    case Floating(m, s, x) => Double(m, s, x)
  }

  /** The flags and payload that belong to an integer value. */
  function Canonical(v: int): (n: Number)
    requires -P63 <= v < U64
  {
    Integer(-P31 <= v < P31, 0 <= v < U32, v < P63, 0 <= v, Bits(v))
  }

  /** Whichever constructor made it, a number is the canonical one of its value. */
  lemma ConstructorsAgree(v: int)
    ensures -P31 <= v < P31 ==> OfInt(v) == Canonical(v)
    ensures 0 <= v < U32 ==> OfUint(v) == Canonical(v)
    ensures -P63 <= v < P63 ==> OfInt64(v) == Canonical(v)
    ensures 0 <= v < U64 ==> OfUint64(v) == Canonical(v)
  {
  }

  // ---------- values ----------

  datatype Value =
    | NullValue
    | BoolValue(b: bool)
    | NumberValue(number: Number)
    | StringValue(str: bytes)
    | ArrayValue(elements: seq<Value>)
    | ObjectValue(members: seq<Member>)

  datatype Member = Member(name: Value, value: Value)

  /** Values as the library makes them: numbers canonical, names strings, sizes 32-bit. */
  predicate ValueOk(v: Value) {
    match v
    case NumberValue(n) => n.Integer? ==> n == Canonical(if n.isUint64 then n.bits else SignedBits(n.bits))
    case StringValue(s) => |s| < U32
    case ArrayValue(es) => |es| < U32 && forall i :: 0 <= i < |es| ==> ValueOk(es[i])
    case ObjectValue(ms) =>
      |ms| < U32
      && forall i :: 0 <= i < |ms| ==> ms[i].name.StringValue? && ValueOk(ms[i].name) && ValueOk(ms[i].value)
    case _ => true
  }

  /** The events of the traversal. */
  function Accept(v: Value): (es: seq<Event>)
    requires ValueOk(v)
    decreases v
  {
    match v
    case NullValue => [Null]
    case BoolValue(b) => [Bool(b)]
    case NumberValue(n) => [NumberEvent(n)]
    case StringValue(s) => [String(s)]
    case ArrayValue(es) => [StartArray] + AcceptElements(v, 0) + [EndArray(|es|)]
    case ObjectValue(ms) => [StartObject] + AcceptMembers(v, 0) + [EndObject(|ms|)]
  }

  /** The loop of the traversal over the elements from the k-th on. */
  function AcceptElements(v: Value, k: nat): (es: seq<Event>)
    requires v.ArrayValue? && ValueOk(v) && k <= |v.elements|
    decreases v, |v.elements| - k
  {
    if k == |v.elements| then [] else Accept(v.elements[k]) + AcceptElements(v, k + 1)
  }

  function AcceptMembers(v: Value, k: nat): (es: seq<Event>)
    requires v.ObjectValue? && ValueOk(v) && k <= |v.members|
    decreases v, |v.members| - k
  {
    if k == |v.members| then []
    else [Key(v.members[k].name.str)] + Accept(v.members[k].value) + AcceptMembers(v, k + 1)
  }

  // ---------- the builder ----------

  /** Reads stack slots pairwise as members. */
  function Pairs(s: seq<Value>): (ms: seq<Member>)
    decreases |s|
  {
    if |s| < 2 then [] else [Member(s[0], s[1])] + Pairs(s[2..])
  }

  /** The value an event pushes, for events that push one. */
  function Pushed(e: Event): Option<Value> {
    match e
    case Null => Some(NullValue)
    case Bool(b) => Some(BoolValue(b))
    case Int(i) => if -P31 <= i < P31 then Some(NumberValue(OfInt(i))) else None
    case Uint(u) => if 0 <= u < U32 then Some(NumberValue(OfUint(u))) else None
    case Int64(i) => if -P63 <= i < P63 then Some(NumberValue(OfInt64(i))) else None
    case Uint64(u) => if 0 <= u < U64 then Some(NumberValue(OfUint64(u))) else None
    case Double(m, s, x) => Some(NumberValue(Floating(m, s, x)))
    case String(s) => Some(StringValue(s))
    case Key(s) => Some(StringValue(s))
    case StartObject => Some(ObjectValue([]))
    case StartArray => Some(ArrayValue([]))
    case EndObject(_) => None
    case EndArray(_) => None
  }

  /** One handler call, memory aside; None where the stack's own assertions would fail. */
  function Handle(stack: seq<Value>, e: Event): (r: Option<seq<Value>>) {
    match e
    case EndObject(n) =>
      var top := |stack| - 2 * n;
      if top < 1 then None
      else Some(stack[..top - 1] + [ObjectValue(Pairs(stack[top..]))])
    case EndArray(n) =>
      var top := |stack| - n;
      if top < 1 then None
      else Some(stack[..top - 1] + [ArrayValue(stack[top..])])
    case _ =>
      match Pushed(e)
      case None => None
      case Some(v) => Some(stack + [v])
  }

  function Build(stack: seq<Value>, es: seq<Event>): (r: Option<seq<Value>>)
    decreases |es|
  {
    if es == [] then Some(stack)
    else
      match Handle(stack, es[0])
      case None => None
      case Some(next) => Build(next, es[1..])
  }

  lemma {:induction false} BuildConcat(stack: seq<Value>, xs: seq<Event>, ys: seq<Event>)
    requires Build(stack, xs).Some?
    ensures Build(stack, xs + ys) == Build(Build(stack, xs).value, ys)
    decreases |xs|
  {
    if xs == [] {
      assert [] + ys == ys;
    } else {
      assert (xs + ys)[1..] == xs[1..] + ys;
      BuildConcat(Handle(stack, xs[0]).value, xs[1..], ys);
    }
  }

  lemma BuildOne(stack: seq<Value>, e: Event)
    ensures Build(stack, [e]) == Handle(stack, e)
  {
    assert [e][1..] == [];
  }

  lemma HandleKey(stack: seq<Value>, s: bytes)
    ensures Handle(stack, Key(s)) == Some(stack + [StringValue(s)])
  {
  }

  /** The payload read in the way the first flag says is the value. */
  lemma PayloadBack(v: int)
    requires -P63 <= v < U64
    ensures -P31 <= v < P31 ==> LowInt(Bits(v)) == v
    ensures 0 <= v < U32 ==> Low32(Bits(v)) == v
    ensures v < P63 ==> SignedBits(Bits(v)) == v
    ensures 0 <= v ==> Bits(v) == v
  {
    if v < 0 {
      assert Bits(v) == v + U64;
      if -P31 <= v {
        assert (v + U64) % U32 == v + U32;
      }
    }
  }

  /** The event of a canonical number, and what the builder makes of it. */
  lemma CanonicalRebuilds(stack: seq<Value>, v: int)
    requires -P63 <= v < U64
    ensures Handle(stack, NumberEvent(Canonical(v))) == Some(stack + [NumberValue(Canonical(v))])
  {
    hide Bits, LowInt, Low32, SignedBits;
    PayloadBack(v);
    ConstructorsAgree(v);
  }

  lemma NumberRebuilds(stack: seq<Value>, n: Number)
    requires ValueOk(NumberValue(n))
    ensures Handle(stack, NumberEvent(n)) == Some(stack + [NumberValue(n)])
  {
    if n.Integer? {
      hide Handle, NumberEvent, Canonical;
      CanonicalRebuilds(stack, if n.isUint64 then n.bits else SignedBits(n.bits));
    }
  }

  /** Feeding a value's traversal to the builder pushes that value, whatever is on the stack. */
  lemma {:induction false} AcceptBuilds(stack: seq<Value>, v: Value)
    requires ValueOk(v)
    ensures Build(stack, Accept(v)) == Some(stack + [v])
    decreases v
  {
    match v
    case ArrayValue(es) =>
      ArrayBuilds(stack, v);
    case ObjectValue(ms) =>
      ObjectBuilds(stack, v);
    case NumberValue(n) =>
      BuildOne(stack, NumberEvent(n));
      NumberRebuilds(stack, n);
    case _ =>
      BuildOne(stack, Accept(v)[0]);
  }

  lemma {:induction false} ArrayBuilds(stack: seq<Value>, v: Value)
    requires v.ArrayValue? && ValueOk(v)
    ensures Build(stack, Accept(v)) == Some(stack + [v])
    decreases v, |v.elements| + 1
  {
    hide Build;
    var es := v.elements;
    var s := stack + [ArrayValue([])];
    BuildOne(stack, StartArray);
    ElementsBuild(s, v, 0);
    BuildConcat(stack, [StartArray], AcceptElements(v, 0));
    assert es[0..] == es;
    BuildConcat(stack, [StartArray] + AcceptElements(v, 0), [EndArray(|es|)]);
    BuildOne(s + es, EndArray(|es|));
    assert (s + es)[..|stack|] == stack;
    assert (s + es)[|stack| + 1..] == es;
  }

  lemma {:induction false} ElementsBuild(stack: seq<Value>, v: Value, k: nat)
    requires v.ArrayValue? && ValueOk(v) && k <= |v.elements|
    ensures Build(stack, AcceptElements(v, k)) == Some(stack + v.elements[k..])
    decreases v, |v.elements| - k
  {
    if k == |v.elements| {
      assert stack + v.elements[k..] == stack;
    } else {
      hide Handle;
      var e := v.elements[k];
      AcceptBuilds(stack, e);
      BuildConcat(stack, Accept(e), AcceptElements(v, k + 1));
      ElementsBuild(stack + [e], v, k + 1);
      assert stack + [e] + v.elements[k + 1..] == stack + v.elements[k..];
    }
  }

  /** The stack slots of members from the k-th on: names and values in turn. */
  function Flat(ms: seq<Member>, k: nat): (s: seq<Value>)
    requires k <= |ms|
    ensures |s| == 2 * (|ms| - k)
    decreases |ms| - k
  {
    if k == |ms| then [] else [ms[k].name, ms[k].value] + Flat(ms, k + 1)
  }

  lemma PairsCons(name: Value, value: Value, rest: seq<Value>)
    ensures Pairs([name, value] + rest) == [Member(name, value)] + Pairs(rest)
  {
    assert ([name, value] + rest)[2..] == rest;
  }

  lemma {:induction false} PairsFlat(ms: seq<Member>, k: nat)
    requires k <= |ms|
    ensures Pairs(Flat(ms, k)) == ms[k..]
    decreases |ms| - k
  {
    if k == |ms| {
      assert Flat(ms, k) == [];
    } else {
      hide Pairs;
      PairsFlat(ms, k + 1);
      PairsCons(ms[k].name, ms[k].value, Flat(ms, k + 1));
      assert ms[k..] == [ms[k]] + ms[k + 1..];
    }
  }

  lemma {:induction false} ObjectBuilds(stack: seq<Value>, v: Value)
    requires v.ObjectValue? && ValueOk(v)
    ensures Build(stack, Accept(v)) == Some(stack + [v])
    decreases v, |v.members| + 1
  {
    hide Build;
    var ms := v.members;
    var s := stack + [ObjectValue([])];
    BuildOne(stack, StartObject);
    MembersBuild(s, v, 0);
    BuildConcat(stack, [StartObject], AcceptMembers(v, 0));
    BuildConcat(stack, [StartObject] + AcceptMembers(v, 0), [EndObject(|ms|)]);
    BuildOne(s + Flat(ms, 0), EndObject(|ms|));
    assert (s + Flat(ms, 0))[..|stack|] == stack;
    assert (s + Flat(ms, 0))[|stack| + 1..] == Flat(ms, 0);
    PairsFlat(ms, 0);
    assert ms[0..] == ms;
  }

  lemma {:induction false} MembersBuild(stack: seq<Value>, v: Value, k: nat)
    requires v.ObjectValue? && ValueOk(v) && k <= |v.members|
    ensures Build(stack, AcceptMembers(v, k)) == Some(stack + Flat(v.members, k))
    decreases v, |v.members| - k
  {
    if k == |v.members| {
      assert stack + Flat(v.members, k) == stack;
    } else {
      hide Handle;
      var m := v.members[k];
      var key := [Key(m.name.str)];
      BuildOne(stack, key[0]);
      HandleKey(stack, m.name.str);
      AcceptBuilds(stack + [m.name], m.value);
      BuildConcat(stack, key, Accept(m.value));
      BuildConcat(stack, key + Accept(m.value), AcceptMembers(v, k + 1));
      MembersBuild(stack + [m.name, m.value], v, k + 1);
      assert stack + [m.name] + [m.value] == stack + [m.name, m.value];
      assert stack + [m.name, m.value] + Flat(v.members, k + 1) == stack + Flat(v.members, k);
    }
  }

  // ---------- memory ----------

  const VALUE_SIZE := 24
  const MEMBER_SIZE := 48
  const INLINE_MAX := 15

  /** The bytes that a string with its terminator takes in the pool; short ones are kept inline. */
  function StringSize(s: bytes): nat {
    if |s| <= INLINE_MAX then 0 else |s| + 1
  }

  /** How many bytes an event makes the document copy into memory of its pool. */
  function Copied(e: Event): nat {
    match e
    case String(s) => StringSize(s)
    case Key(s) => StringSize(s)
    case EndArray(n) => VALUE_SIZE * n
    case EndObject(n) => MEMBER_SIZE * n
    case _ => 0
  }

  /** How many it asks the pool for; a length is a 32-bit number, and so is one more than it. */
  function Asked(e: Event): nat {
    if e.String? || e.Key? then Copied(e) % U32 else Copied(e)
  }

  /** The copy stays inside the block that the pool sets aside. Otherwise what the document holds
      afterwards is undetermined. */
  predicate Fits(e: Event) {
    Copied(e) <= Pool.Align(Asked(e))
  }

  predicate AllFit(es: seq<Event>) {
    forall i :: 0 <= i < |es| ==> Fits(es[i])
  }

  /** The copy stays in its block if and only if it has at most 2^32 - 8 bytes. */
  lemma FitsIff(e: Event)
    requires Copied(e) <= U32 || !(e.String? || e.Key?)
    ensures Fits(e) <==> Copied(e) <= Pool.LIMIT
  {
    Pool.AlignCovers(Asked(e));
  }

  /** The largest array, object and string that the document can store. */
  lemma LargestStored(n: u32, s: bytes)
    requires |s| < U32
    ensures Fits(EndArray(n)) <==> n <= 178_956_970
    ensures Fits(EndObject(n)) <==> n <= 89_478_485
    ensures Fits(String(s)) <==> |s| <= 4_294_967_287
    ensures Fits(Key(s)) <==> |s| <= 4_294_967_287
    ensures Asked(String(s)) == 0 <==> |s| <= 15 || |s| == 4_294_967_295
  {
    hide Fits;
    FitsIff(EndArray(n));
    FitsIff(EndObject(n));
    FitsIff(String(s));
    FitsIff(Key(s));
  }

  /** What the document makes of a sequence of events; None where it is undetermined, or where
      an assertion fails. */
  function Assembled(stack: seq<Value>, es: seq<Event>): (r: Option<seq<Value>>) {
    if AllFit(es) then Build(stack, es) else None
  }

  /** Every request that storing a value makes is within the limit of the pool. */
  predicate Storable(v: Value) {
    match v
    case StringValue(s) => StringSize(s) <= Pool.LIMIT
    case ArrayValue(es) =>
      VALUE_SIZE * |es| <= Pool.LIMIT && forall i :: 0 <= i < |es| ==> Storable(es[i])
    case ObjectValue(ms) =>
      MEMBER_SIZE * |ms| <= Pool.LIMIT
      && forall i :: 0 <= i < |ms| ==> Storable(ms[i].name) && Storable(ms[i].value)
    case _ => true
  }

  lemma AllFitConcat(xs: seq<Event>, ys: seq<Event>)
    ensures AllFit(xs + ys) <==> AllFit(xs) && AllFit(ys)
  {
    hide Fits;
    if AllFit(xs + ys) {
      assert forall i :: 0 <= i < |xs| ==> (xs + ys)[i] == xs[i];
      assert forall i :: 0 <= i < |ys| ==> (xs + ys)[|xs| + i] == ys[i];
    }
  }

  lemma AllFitOne(e: Event)
    ensures AllFit([e]) <==> Fits(e)
  {
    hide Fits;
    assert [e][0] == e;
  }

  /** The traversal of a value makes the requests that storing it makes. */
  lemma {:induction false} AcceptFits(v: Value)
    requires ValueOk(v)
    ensures AllFit(Accept(v)) <==> Storable(v)
    decreases v
  {
    hide AllFit, Fits;
    match v
    case ArrayValue(es) =>
      ElementsFit(v, 0);
      AroundFits(StartArray, AcceptElements(v, 0), EndArray(|es|));
    case ObjectValue(ms) =>
      MembersFit(v, 0);
      AroundFits(StartObject, AcceptMembers(v, 0), EndObject(|ms|));
    case NumberValue(n) =>
      AllFitOne(NumberEvent(n));
      FitsIff(NumberEvent(n));
    case StringValue(s) =>
      AllFitOne(String(s));
      FitsIff(String(s));
    case BoolValue(b) =>
      AllFitOne(Bool(b));
      FitsIff(Bool(b));
    case NullValue =>
      AllFitOne(Null);
      FitsIff(Null);
  }

  /** An opening event asks for nothing. */
  lemma AroundFits(start: Event, es: seq<Event>, end: Event)
    requires (start == StartArray && end.EndArray?) || (start == StartObject && end.EndObject?)
    ensures AllFit([start] + es + [end]) <==> AllFit(es) && Copied(end) <= Pool.LIMIT
  {
    hide AllFit, Fits;
    AllFitConcat([start] + es, [end]);
    AllFitConcat([start], es);
    AllFitOne(start);
    AllFitOne(end);
    FitsIff(start);
    FitsIff(end);
  }

  lemma {:induction false} ElementsFit(v: Value, k: nat)
    requires v.ArrayValue? && ValueOk(v) && k <= |v.elements|
    ensures AllFit(AcceptElements(v, k)) <==> forall i :: k <= i < |v.elements| ==> Storable(v.elements[i])
    decreases v, |v.elements| - k
  {
    hide Fits;
    if k < |v.elements| {
      hide AllFit;
      AcceptFits(v.elements[k]);
      ElementsFit(v, k + 1);
      AllFitConcat(Accept(v.elements[k]), AcceptElements(v, k + 1));
    }
  }

  lemma {:induction false} MembersFit(v: Value, k: nat)
    requires v.ObjectValue? && ValueOk(v) && k <= |v.members|
    ensures AllFit(AcceptMembers(v, k)) <==>
              forall i :: k <= i < |v.members| ==> Storable(v.members[i].name) && Storable(v.members[i].value)
    decreases v, |v.members| - k
  {
    hide Fits;
    if k < |v.members| {
      hide AllFit;
      var m := v.members[k];
      var key := Key(m.name.str);
      AllFitOne(key);
      FitsIff(key);
      AcceptFits(m.value);
      MembersFit(v, k + 1);
      AllFitConcat([key] + Accept(m.value), AcceptMembers(v, k + 1));
      AllFitConcat([key], Accept(m.value));
    }
  }

  /** Feeding a value's traversal to the document pushes that value, whatever is on the stack, if
      and only if every request is within the limit of the pool. */
  lemma AcceptStores(stack: seq<Value>, v: Value)
    requires ValueOk(v)
    ensures Assembled(stack, Accept(v)) == if Storable(v) then Some(stack + [v]) else None
  {
    hide AllFit, Build, Storable, ValueOk;
    AcceptFits(v);
    AcceptBuilds(stack, v);
  }
}
