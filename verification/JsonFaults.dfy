/** What the reader says of a text that breaks off from the grammar between its tokens: each place
    has a code of its own. */
module JsonFaults {
  import opened Bytes
  import opened JsonEvents
  import opened JsonString
  import opened JsonRecursive
  import opened JsonLocality
  import opened JsonGrammar

  /** White space, and then a byte that is none, at `q`. */
  predicate SpaceTo(t: bytes, p: nat, q: nat) {
    p <= q <= |t| && (forall i :: p <= i < q ==> IsSpace(t[i])) && !IsSpace(Peek(t, q))
  }

  /** A value ends at `p`, and what follows does not continue a number. */
  predicate EndsAt(t: bytes, s: nat, n: Node, p: nat) {
    NodeOk(n) && Holds(t, s, Text(n)) && p == s + |Text(n)| && EndsNumber(Peek(t, p))
  }

  /** A text of nothing but white space, and a text with something behind its value. */
  lemma DocumentFaults(t: bytes, s: nat, n: Node, p: nat, q: nat)
    requires SpaceTo(t, 0, s)
    ensures Peek(t, s) == 0 ==> Parse(t, AcceptAll()) == Fail(DocumentEmpty, [])
    ensures EndsAt(t, s, n, p) && SpaceTo(t, p, q) && Peek(t, q) != 0 ==>
              Parse(t, AcceptAll()) == Fail(DocumentRootNotSingular, Events(n))
  {
    hide ParseValue, SkipSpace, Text, Events, NodeOk, Shaped;
    SkipSpaceUnique(t, 0, s);
    if EndsAt(t, s, n, p) && SpaceTo(t, p, q) && Peek(t, q) != 0 {
      NodeReads(t, s, n, []);
      SkipSpaceUnique(t, p, q);
      OkShaped(n);
      TextStarts(n);
      HoldsFirst(t, s, Text(n));
      assert [] + Events(n) == Events(n);
    }
  }

  /** Behind an element, where neither a comma nor a bracket stands. */
  lemma ArrayFaults(t: bytes, s: nat, n: Node, p: nat, q: nat, log: seq<Event>, count: u32)
    requires EndsAt(t, s, n, p) && SpaceTo(t, p, q) && Peek(t, q) !in {',' as int, ']' as int}
    ensures ParseElements(t, s, AcceptAll(), log, count) == Fail(ArrayMissCommaOrSquareBracket, log + Events(n))
  {
    hide ParseValue, SkipSpace, Text, Events, NodeOk;
    NodeReads(t, s, n, log);
    SkipSpaceUnique(t, p, q);
  }

  /** Where a name has to stand, and behind a name where no colon stands. */
  lemma NameFaults(t: bytes, s: nat, key: seq<Char>, p: nat, q: nat, log: seq<Event>, count: u32)
    requires s <= |t|
    ensures Peek(t, s) != '"' as int ==> ParseMembers(t, s, AcceptAll(), log, count) == Fail(ObjectMissName, log)
    ensures StrOk(key) && Holds(t, s, Quoted(key)) && p == s + |Quoted(key)|
            && SpaceTo(t, p, q) && Peek(t, q) != ':' as int ==>
              ParseMembers(t, s, AcceptAll(), log, count)
              == Fail(ObjectMissColon, log + [Key(HandedOver(StrBytes(key)))])
  {
    hide ScanString, SkipSpace, Quoted, StrBytes, HandedOver, Told;
    if StrOk(key) && Holds(t, s, Quoted(key)) && p == s + |Quoted(key)| && SpaceTo(t, p, q) && Peek(t, q) != ':' as int {
      assert Told(StrBytes(key)) by { QuotedReads(t, s, key); }
      hide StrOk;
      QuotedReads(t, s, key);
      SkipSpaceUnique(t, p, q);
    }
  }

  /** Behind a member, where neither a comma nor a brace stands; `c` is the place of the colon. */
  lemma MemberFaults(t: bytes, p: nat, c: nat, s: nat, n: Node, e: nat, q: nat, log: seq<Event>, count: u32)
    requires SpaceTo(t, p, c) && Peek(t, c) == ':' as int && SpaceTo(t, c + 1, s)
    requires EndsAt(t, s, n, e) && SpaceTo(t, e, q) && Peek(t, q) !in {',' as int, '}' as int}
    ensures AfterKey(t, p, AcceptAll(), log, count) == Fail(ObjectMissCommaOrCurlyBracket, log + Events(n))
  {
    hide ParseValue, SkipSpace, Text, Events, NodeOk;
    SkipSpaceUnique(t, p, c);
    SkipSpaceUnique(t, c + 1, s);
    NodeReads(t, s, n, log);
    SkipSpaceUnique(t, e, q);
  }
}
