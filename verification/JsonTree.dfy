/** GenericDocument as it runs: a handler that builds values on a stack. */
module JsonTree {
  import opened Bytes
  import opened JsonEvents
  import opened JsonDocument
  import opened JsonReader
  import JsonRecursive
  import JsonGrammar
  import JsonRoot
  import JsonBuilding
  import JsonPrinter
  import JsonPrinted
  import JsonRoundTrip
  import JsonWriter
  import Pool

  class Document {
    var root: Value
    var stack: seq<Value>
    const pool: Pool.MemoryPoolAllocator

    constructor ()
      ensures root == NullValue && stack == []
      ensures fresh(pool) && pool.Valid() && pool.chunks == [] && pool.chunkCapacity == 65536
    {
      root, stack := NullValue, [];
      pool := new Pool.MemoryPoolAllocator(Pool.DEFAULT_CAPACITY);
    }

    constructor Using(allocator: Pool.MemoryPoolAllocator)
      ensures root == NullValue && stack == [] && pool == allocator
    {
      root, stack, pool := NullValue, [], allocator;
    }

    /** Any handler event. What is copied stays inside the block set aside for it if and only if
        `kept`; otherwise the source leaves its memory and nothing is said about the stack. */
    method Handle(e: Event) returns (kept: bool)
      requires pool.Valid() && JsonDocument.Handle(stack, e).Some?
      modifies `stack, pool, pool.chunks
      ensures kept == Fits(e)
      ensures kept ==> Some(stack) == JsonDocument.Handle(old(stack), e)
      ensures pool.Valid() && Grown(pool)
      ensures if Asked(e) == 0 then pool.blocks == old(pool.blocks)
              else && |pool.blocks| == |old(pool.blocks)| + 1 && old(pool.blocks) <= pool.blocks
                   && pool.blocks[|old(pool.blocks)|].size == Asked(e)
                   && (kept <==> Copied(e) <= pool.blocks[|old(pool.blocks)|].room)
    {
      hide Asked, Copied, Pool.Align, JsonDocument.Handle;
      var block := pool.Malloc(Asked(e));
      kept := Fits(e);
      if kept {
        Place(e);
      }
    }

    /** What an event does to the stack. */
    method Place(e: Event)
      requires JsonDocument.Handle(stack, e).Some?
      modifies `stack
      ensures Some(stack) == JsonDocument.Handle(old(stack), e)
    {
      match e
      case EndObject(memberCount) =>
        var top := |stack| - 2 * memberCount;
        var members := Pairs(stack[top..]);
        stack := stack[..top - 1] + [ObjectValue(members)];
      case EndArray(elementCount) =>
        var top := |stack| - elementCount;
        var elements := stack[top..];
        stack := stack[..top - 1] + [ArrayValue(elements)];
      case _ =>
        stack := stack + [Pushed(e).value];
    }

    /** The traversal of a value, with this document as its handler: whatever is on the stack,
        a copy of the value is pushed if and only if the pool can store it. */
    method Accept(v: Value) returns (kept: bool)
      requires ValueOk(v) && pool.Valid()
      modifies `stack, pool, pool.chunks
      ensures kept == Storable(v)
      ensures kept ==> stack == old(stack) + [v]
      ensures pool.Valid() && Grown(pool)
      decreases v
    {
      hide Fits;
      match v
      case ArrayValue(es) =>
        kept := AcceptElements(v);
      case ObjectValue(ms) =>
        kept := AcceptMembers(v);
      case NumberValue(n) =>
        NumberRebuilds(stack, n);
        FitsIff(NumberEvent(n));
        kept := Handle(NumberEvent(n));
      case NullValue =>
        FitsIff(Null);
        kept := Handle(Null);
      case BoolValue(b) =>
        FitsIff(Bool(b));
        kept := Handle(Bool(b));
      case StringValue(s) =>
        FitsIff(String(s));
        kept := Handle(String(s));
    }

    method AcceptElements(v: Value) returns (kept: bool)
      requires v.ArrayValue? && ValueOk(v) && pool.Valid()
      modifies `stack, pool, pool.chunks
      ensures kept == Storable(v)
      ensures kept ==> stack == old(stack) + [v]
      ensures pool.Valid() && Grown(pool)
      decreases v, 1
    {
      hide JsonDocument.Handle, Flat, Fits, Asked, Copied, ValueOk, Storable, JsonRoot.AllStorable;
      hide Pool.MemoryPoolAllocator.Valid;
      ArrayCalls(stack, v);
      kept := Handle(StartArray);
      kept := PushElements(v);
      if kept {
        kept := Handle(EndArray(|v.elements|));
      }
    }

    method PushElements(v: Value) returns (kept: bool)
      requires v.ArrayValue? && ValueOk(v) && pool.Valid()
      modifies `stack, pool, pool.chunks
      ensures kept == JsonRoot.AllStorable(v.elements)
      ensures kept ==> stack == old(stack) + v.elements
      ensures pool.Valid() && Grown(pool)
      decreases v, 0
    {
      hide Storable, Pool.MemoryPoolAllocator.Valid;
      var es := v.elements;
      var i := 0;
      while i < |es|
        invariant i <= |es| && pool.Valid() && Grown(pool)
        invariant stack == old(stack) + es[..i]
        invariant forall j :: 0 <= j < i ==> Storable(es[j])
      {
        assert es[i] < v;
        kept := Accept(es[i]);
        if !kept {
          return;
        }
        i := i + 1;
      }
      kept := true;
    }

    method AcceptMembers(v: Value) returns (kept: bool)
      requires v.ObjectValue? && ValueOk(v) && pool.Valid()
      modifies `stack, pool, pool.chunks
      ensures kept == Storable(v)
      ensures kept ==> stack == old(stack) + [v]
      ensures pool.Valid() && Grown(pool)
      decreases v, 1
    {
      hide JsonDocument.Handle, Flat, Fits, Asked, Copied, ValueOk, Storable, JsonRoot.MembersStorable;
      hide Pool.MemoryPoolAllocator.Valid;
      ObjectCalls(stack, v);
      kept := Handle(StartObject);
      kept := PushMembers(v);
      if kept {
        kept := Handle(EndObject(|v.members|));
      }
    }

    method PushMembers(v: Value) returns (kept: bool)
      requires v.ObjectValue? && ValueOk(v) && pool.Valid()
      modifies `stack, pool, pool.chunks
      ensures kept == JsonRoot.MembersStorable(v.members)
      ensures kept ==> stack == old(stack) + Flat(v.members, 0)
      ensures pool.Valid() && Grown(pool)
      decreases v, 0
    {
      hide Flat, Storable, Pool.MemoryPoolAllocator.Valid;
      var ms := v.members;
      var i := 0;
      FlatPrefix(ms, 0);
      while i < |ms|
        invariant i <= |ms| && pool.Valid() && Grown(pool)
        invariant stack == old(stack) + Flat(ms[..i], 0)
        invariant forall j :: 0 <= j < i ==> Storable(ms[j].name) && Storable(ms[j].value)
      {
        assert ms[i] in ms && ms[i].value < v;
        kept := AcceptMember(ms[i]);
        if !kept {
          return;
        }
        FlatPrefix(ms, i);
        i := i + 1;
      }
      assert ms[..i] == ms;
      kept := true;
    }

    method AcceptMember(m: Member) returns (kept: bool)
      requires m.name.StringValue? && ValueOk(m.name) && ValueOk(m.value) && pool.Valid()
      modifies `stack, pool, pool.chunks
      ensures kept == (Storable(m.name) && Storable(m.value))
      ensures kept ==> stack == old(stack) + [m.name, m.value]
      ensures pool.Valid() && Grown(pool)
      decreases m
    {
      hide Fits;
      HandleKey(stack, m.name.str);
      FitsIff(Key(m.name.str));
      kept := Handle(Key(m.name.str));
      if kept {
        kept := Accept(m.value);
      }
    }

    /** The deep copy constructor: the copy equals its source if and only if the pool can store
        it. */
    static method CopyOf(v: Value, allocator: Pool.MemoryPoolAllocator) returns (copy: Option<Value>)
      requires ValueOk(v) && allocator.Valid()
      modifies allocator, allocator.chunks
      ensures copy == if Storable(v) then Some(v) else None
      ensures allocator.Valid() && Grown(allocator)
    {
      if v.ObjectValue? || v.ArrayValue? {
        var d := new Document.Using(allocator);
        var kept := d.Accept(v);
        copy := if kept then Some(d.stack[|d.stack| - 1]) else None;
      } else if v.StringValue? {
        FitsIff(String(v.str));
        hide Pool.Align;
        var block := allocator.Malloc(Asked(String(v.str)));
        copy := if Fits(String(v.str)) then Some(v) else None;
      } else {
        copy := Some(v);
      }
    }

    /** Reads a text; `kept` as for Handle, and `single` is the assertion that exactly one root
        was left. */
    method ParseStream(t: bytes) returns (result: Outcome, kept: bool, single: bool)
      requires pool.Valid()
      modifies this, pool, pool.chunks
      ensures result == JsonRecursive.Parse(t, AcceptAll()) && kept == AllFit(result.log)
      ensures kept ==> stack == []
      ensures kept && result.Fail? && result.code != Undetermined ==> root == NullValue
      ensures kept && result.Done? ==>
                var left := Assembled([], result.log);
                && left.Some?
                && single == (|left.value| == 1)
                && (single ==> root == left.value[0])
      ensures single ==> kept && result.Done?
      ensures pool.Valid() && Grown(pool)
    {
      hide JsonRecursive.Parse, Build, AllFit;
      root, stack := NullValue, [];
      var reader := new Reader(t, AcceptAll());
      reader.Parse();
      result := if reader.error == None then Done(reader.pos, reader.log) else Fail(reader.error.value, reader.log);
      JsonBuilding.BuilderNeverFails(t);
      kept := Feed(reader.log);
      single := false;
      if kept && result.Done? {
        single := |stack| == 1;
        if single {
          root := stack[0];
        }
      }
      stack := [];
    }

    /** The handler calls of one parse. */
    method Feed(es: seq<Event>) returns (kept: bool)
      requires pool.Valid() && Build(stack, es).Some?
      modifies `stack, pool, pool.chunks
      ensures kept == AllFit(es)
      ensures kept ==> Some(stack) == Build(old(stack), es)
      ensures pool.Valid() && Grown(pool)
    {
      hide JsonDocument.Handle, Fits;
      kept := true;
      var i := 0;
      assert es[0..] == es;
      while i < |es|
        invariant i <= |es| && pool.Valid() && Grown(pool) && kept
        invariant Build(stack, es[i..]) == Build(old(stack), es)
        invariant forall j :: 0 <= j < i ==> Fits(es[j])
      {
        assert es[i..][1..] == es[i + 1..];
        kept := Handle(es[i]);
        if !kept {
          return;
        }
        i := i + 1;
      }
    }
  }

  /** What the calls for an array and for its end do. */
  lemma ArrayCalls(stack: seq<Value>, v: Value)
    requires v.ArrayValue? && ValueOk(v)
    ensures |v.elements| < U32 && Fits(StartArray)
    ensures JsonDocument.Handle(stack, StartArray) == Some(stack + [ArrayValue([])])
    ensures JsonDocument.Handle(stack + [ArrayValue([])] + v.elements, EndArray(|v.elements|)) == Some(stack + [v])
    ensures Storable(v) <==> JsonRoot.AllStorable(v.elements) && Fits(EndArray(|v.elements|))
  {
    assert |v.elements| < U32;
    hide JsonDocument.Handle, Fits, Storable, ValueOk;
    JsonRoot.StorableArray(v.elements);
    JsonRoot.PushStart(stack, StartArray);
    JsonRoot.CloseArray(stack, v.elements);
    FitsIff(StartArray);
    FitsIff(EndArray(|v.elements|));
  }

  /** The same for an object. */
  lemma ObjectCalls(stack: seq<Value>, v: Value)
    requires v.ObjectValue? && ValueOk(v)
    ensures |v.members| < U32 && Fits(StartObject)
    ensures JsonDocument.Handle(stack, StartObject) == Some(stack + [ObjectValue([])])
    ensures JsonDocument.Handle(stack + [ObjectValue([])] + Flat(v.members, 0), EndObject(|v.members|))
         == Some(stack + [v])
    ensures Storable(v) <==> JsonRoot.MembersStorable(v.members) && Fits(EndObject(|v.members|))
  {
    assert |v.members| < U32;
    hide JsonDocument.Handle, Fits, Storable, ValueOk, Flat;
    JsonRoot.StorableObject(v.members);
    JsonRoot.PushStart(stack, StartObject);
    JsonRoot.CloseObject(stack, v.members);
    FitsIff(StartObject);
    FitsIff(EndObject(|v.members|));
  }

  /** Chunks are only added to a pool. */
  twostate predicate Grown(pool: Pool.MemoryPoolAllocator)
    reads pool
  {
    forall i :: 0 <= i < |pool.chunks| ==> pool.chunks[i] in old(pool.chunks) || fresh(pool.chunks[i])
  }

  /** A value written by a Writer and read back into a Document is the same value if and only if
      the document's pool can store it. */
  method WriteThenRead(v: Value) returns (d: Document, sound: bool)
    requires ValueOk(v) && JsonRoundTrip.Exact(v)
    ensures sound == Storable(v)
    ensures sound ==> d.root == v && d.stack == []
  {
    hide JsonDocument.Accept, JsonPrinter.Legal, JsonPrinter.Print, Build, JsonRecursive.Parse, Storable, AllFit;
    JsonRoundTrip.ValueFaithful(JsonPrinter.BLANK, v);
    JsonRoundTrip.RoundTrip(JsonPrinter.Compact, v);
    var w := new JsonWriter.Writer();
    w.HandleAll(JsonDocument.Accept(v));
    assert w.out == JsonRoundTrip.TextOf(JsonPrinter.Compact, v);
    d := new Document();
    var result, kept, single := d.ParseStream(w.out);
    sound := single;
  }

  lemma FlatPrefix(ms: seq<Member>, i: nat)
    requires i <= |ms|
    ensures i == 0 ==> Flat(ms[..i], 0) == []
    ensures i < |ms| ==> Flat(ms[..i + 1], 0) == Flat(ms[..i], 0) + [ms[i].name, ms[i].value]
  {
    if i < |ms| {
      assert ms[..i + 1] == ms[..i] + [ms[i]];
      JsonRoot.FlatSnoc(ms[..i], ms[i], 0);
    }
  }
}
