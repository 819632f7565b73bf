/** Values as they come out of the reader: strings and names as the handler was given them. */
module JsonReceived {
  import opened Bytes
  import opened JsonString
  import opened JsonDocument

  function Received(v: Value): (r: Value) {
    match v
    case StringValue(s) => StringValue(HandedOver(s))
    case ArrayValue(es) => ArrayValue(ReceivedAll(es))
    case ObjectValue(ms) => ObjectValue(ReceivedMembers(ms))
    case _ => v
  }

  function ReceivedAll(es: seq<Value>): (r: seq<Value>)
    ensures |r| == |es|
  {
    seq(|es|, i requires 0 <= i < |es| => Received(es[i]))
  }

  function ReceivedMember(m: Member): Member {
    Member(Received(m.name), Received(m.value))
  }

  function ReceivedMembers(ms: seq<Member>): (r: seq<Member>)
    ensures |r| == |ms|
  {
    seq(|ms|, i requires 0 <= i < |ms| => ReceivedMember(ms[i]))
  }

  /** Every string and name has fewer than 2^32 - 1 bytes. */
  predicate Short(v: Value) {
    match v
    case StringValue(s) => |s| < U32 - 1
    case ArrayValue(es) => forall i :: 0 <= i < |es| ==> Short(es[i])
    case ObjectValue(ms) => forall i :: 0 <= i < |ms| ==> Short(ms[i].name) && Short(ms[i].value)
    case _ => true
  }

  /** A value comes out of the reader unchanged if and only if its strings are short. */
  lemma {:induction false} ReceivedWhole(v: Value)
    ensures Received(v) == v <==> Short(v)
    decreases v
  {
    hide HandedOver;
    match v
    case StringValue(s) => HandedWhole(s);
    case ArrayValue(es) =>
      forall i | 0 <= i < |es| ensures ReceivedAll(es)[i] == es[i] <==> Short(es[i]) {
        ReceivedWhole(es[i]);
      }
    case ObjectValue(ms) =>
      forall i | 0 <= i < |ms|
        ensures ReceivedMembers(ms)[i] == ms[i] <==> Short(ms[i].name) && Short(ms[i].value)
      {
        ReceivedWhole(ms[i].name);
        ReceivedWhole(ms[i].value);
      }
    case _ =>
  }

  /** What can be stored has short strings. */
  lemma {:induction false} StorableIsShort(v: Value)
    requires Storable(v)
    ensures Short(v)
    decreases v
  {
    match v
    case ArrayValue(es) =>
      forall i | 0 <= i < |es| ensures Short(es[i]) {
        StorableIsShort(es[i]);
      }
    case ObjectValue(ms) =>
      forall i | 0 <= i < |ms| ensures Short(ms[i].name) && Short(ms[i].value) {
        StorableIsShort(ms[i].name);
        StorableIsShort(ms[i].value);
      }
    case _ =>
  }
}
