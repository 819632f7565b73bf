/** The texts of the grammar that the reader does not accept: which they are, and why. */
module JsonExact {
  import opened Bytes
  import opened JsonEvents
  import opened JsonNumber
  import opened JsonString
  import opened JsonRecursive
  import opened JsonLocality
  import opened JsonGrammar

  /** A text of RFC 4627, section 2: any escape of four hexadecimal digits and a number of any
      size are allowed. */
  predicate NodeWell(n: Node) {
    match n
    case Str(cs) => CharsOk(cs)
    case Num(s) => Shaped(n)
    case EmptyArray(pad) => AllSpace(pad)
    case Array(lead, es) => AllSpace(lead) && ElementsWell(es)
    case EmptyObject(pad) => AllSpace(pad)
    case Object(lead, ms) => AllSpace(lead) && MembersWell(ms)
    case _ => true
  }

  predicate ElementsWell(es: Elements) {
    && NodeWell(es.value) && AllSpace(es.trail)
    && (es.MoreElements? ==> AllSpace(es.lead) && ElementsWell(es.rest))
  }

  predicate MembersWell(ms: Members) {
    && CharsOk(ms.key)
    && AllSpace(ms.gap) && AllSpace(ms.lead) && NodeWell(ms.value) && AllSpace(ms.trail)
    && (ms.MoreMembers? ==> AllSpace(ms.next) && MembersWell(ms.rest))
  }

  predicate IsText(t: bytes, lead: bytes, n: Node, trail: bytes) {
    && NodeWell(n) && AllSpace(lead) && AllSpace(trail)
    && Holds(t, 0, lead + Text(n) + trail)
    && Peek(t, |lead + Text(n) + trail|) == NUL
  }

  /** What the reader says of such a text: a number is out of range, or an escaped high surrogate
      stands alone. */
  predicate IsRefusal(code: ErrorCode) {
    IsRange(code) || code == StringUnicodeSurrogateInvalid
  }

  predicate Refused(o: Outcome) {
    o.Fail? && IsRefusal(o.code)
  }

  // ---------- tokens ----------

  lemma {:induction false} DigitsWithin(t: bytes, p: nat, u: bytes, r: nat, n: nat)
    requires Mirrors(t, p, u, r, n) && DigitsEnd(t, p) <= p + n
    ensures DigitsEnd(u, r) == r + DigitsEnd(t, p) - p
    decreases n
  {
    if n > 0 {
      MirrorsNext(t, p, u, r, n);
      if IsDigit(Peek(t, p)) {
        DigitsWithin(t, p + 1, u, r + 1, n - 1);
      }
    }
  }

  lemma ExponentMoves(t: bytes, p: nat, u: bytes, r: nat, n: nat)
    requires Mirrors(t, p, u, r, n) && EndsNumber(Peek(u, r + n)) && ExponentEnd(t, p) == Some(p + n)
    ensures ExponentEnd(u, r) == Some(r + n)
  {
    hide Mirrors, DigitsEnd;
    if n > 0 {
      MirrorsAt(t, p, u, r, n, 0);
      var k := if Peek(t, p + 1) == PLUS || Peek(t, p + 1) == MINUS then 2 else 1;
      MirrorsAt(t, p, u, r, n, 1);
      MirrorsAt(t, p, u, r, n, k);
      DigitsWithin(t, p + k, u, r + k, n - k);
    }
    assert r + n <= |u| by { MirrorsFits(t, p, u, r, n); }
  }

  lemma MirrorsFits(t: bytes, p: nat, u: bytes, r: nat, n: nat)
    requires Mirrors(t, p, u, r, n)
    ensures p + n <= |t| && r + n <= |u|
  {
  }

  lemma FractionMoves(t: bytes, p: nat, u: bytes, r: nat, n: nat)
    requires Mirrors(t, p, u, r, n) && EndsNumber(Peek(u, r + n)) && FractionEnd(t, p) == Some(p + n)
    ensures r <= |u| && FractionEnd(u, r) == Some(r + n)
  {
    hide Mirrors, DigitsEnd, ExponentEnd;
    MirrorsFits(t, p, u, r, n);
    ExponentAfter(t, p);
    MirrorsAt(t, p, u, r, n, 0);
    if Peek(t, p) == DOT {
      var q := DigitsEnd(t, p + 1);
      ExponentAfter(t, q);
      MirrorsAt(t, p, u, r, n, 1);
      DigitsWithin(t, p + 1, u, r + 1, n - 1);
      MirrorsAt(t, p, u, r, n, q - p);
      ExponentMoves(t, q, u, r + q - p, p + n - q);
    } else {
      ExponentMoves(t, p, u, r, n);
    }
  }

  lemma ExponentAfter(t: bytes, p: nat)
    requires p <= |t|
    ensures ExponentEnd(t, p).Some? ==> p <= ExponentEnd(t, p).value
  {
  }

  lemma FractionAfter(t: bytes, p: nat)
    requires p <= |t|
    ensures FractionEnd(t, p).Some? ==> p <= FractionEnd(t, p).value
  {
    hide DigitsEnd, ExponentEnd;
    ExponentAfter(t, p);
    if Peek(t, p) == DOT {
      ExponentAfter(t, DigitsEnd(t, p + 1));
    }
  }

  /** A number of the grammar ends where it does, wherever it stands. */
  lemma NumberEndMoves(t: bytes, p: nat, s: bytes)
    requires NumberEnd(s, 0) == Some(|s|) && Holds(t, p, s) && EndsNumber(Peek(t, p + |s|))
    ensures NumberEnd(t, p) == Some(p + |s|)
  {
    hide DigitsEnd, ExponentEnd, FractionEnd, Mirrors, Holds, EndsNumber;
    Mirrored(t, p, s);
    MirrorsAt(s, 0, t, p, |s|, 0);
    var m := if Peek(s, 0) == MINUS then 1 else 0;
    MirrorsAt(s, 0, t, p, |s|, m);
    IntegerMoves(s, m, t, p + m, |s| - m);
  }

  /** The integer part and what follows it, in `n` bytes. */
  lemma IntegerMoves(t: bytes, p: nat, u: bytes, r: nat, n: nat)
    requires Mirrors(t, p, u, r, n) && EndsNumber(Peek(u, r + n)) && 0 < n && IsDigit(Peek(t, p))
    requires p < |t| && FractionEnd(t, if Peek(t, p) == DIGIT0 then p + 1 else DigitsEnd(t, p)) == Some(p + n)
    ensures r < |u| && Peek(u, r) == Peek(t, p)
    ensures FractionEnd(u, if Peek(u, r) == DIGIT0 then r + 1 else DigitsEnd(u, r)) == Some(r + n)
  {
    hide DigitsEnd, ExponentEnd, FractionEnd, Mirrors, EndsNumber;
    MirrorsFits(t, p, u, r, n);
    MirrorsAt(t, p, u, r, n, 0);
    if Peek(t, p) == DIGIT0 {
      FractionPart(t, p, u, r, n, 1);
    } else {
      var k := DigitsEnd(t, p) - p;
      FractionAfter(t, p + k);
      DigitsWithin(t, p, u, r, n);
      FractionPart(t, p, u, r, n, k);
    }
  }

  lemma FractionPart(t: bytes, p: nat, u: bytes, r: nat, n: nat, k: nat)
    requires Mirrors(t, p, u, r, n) && EndsNumber(Peek(u, r + n)) && p + k <= |t|
    requires FractionEnd(t, p + k) == Some(p + n)
    ensures k <= n && r + k <= |u| && FractionEnd(u, r + k) == Some(r + n)
  {
    hide FractionEnd, Mirrors, EndsNumber;
    FractionAfter(t, p + k);
    MirrorsAt(t, p, u, r, n, k);
    FractionMoves(t, p + k, u, r + k, n - k);
  }

  lemma Mirrored(t: bytes, p: nat, s: bytes)
    requires Holds(t, p, s) && EndsNumber(Peek(t, p + |s|))
    ensures Mirrors(s, 0, t, p, |s|)
  {
    assert s[0..|s|] == s;
  }

  lemma NumRefused(t: bytes, p: nat, s: bytes)
    requires NumberEnd(s, 0) == Some(|s|) && !NumOk(s) && Holds(t, p, s) && EndsNumber(Peek(t, p + |s|))
    ensures p < |t| && ParseNumber(t, p).Bad? && IsRefusal(ParseNumber(t, p).code)
    ensures t[p] == MINUS || IsDigit(t[p])
  {
    hide ParseNumber, DigitsEnd, FractionEnd;
    assert |s| > 0 && (s[0] == MINUS || IsDigit(s[0]));
    HoldsFirst(t, p, s);
    hide NumberEnd;
    NumberEndMoves(t, p, s);
    NumberGrammar(t, p);
    if ParseNumber(t, p).Good? {
      NumSound(t, p);
    }
  }

  lemma StrRefused(t: bytes, p: nat, cs: seq<Char>, isKey: bool)
    requires CharsOk(cs) && !StrOk(cs) && Holds(t, p, Quoted(cs))
    ensures p < |t| && t[p] == QUOTE
    ensures ParseString(t, p, isKey).Bad? && IsRefusal(ParseString(t, p, isKey).code)
  {
    hide ScanString, CharsText, CharsBytes, Told, Paired, CharsOk;
    HoldsFirst(t, p, Quoted(cs));
    Around(t, p, CharsText(cs));
    StringComplete(cs, t[..p + 1], t[p + |CharsText(cs)| + 2..]);
  }

  // ---------- values ----------

  lemma WellShaped(n: Node)
    requires NodeWell(n)
    ensures Shaped(n)
  {
  }

  lemma {:induction false} NodeRefused(t: bytes, p: nat, n: Node, log: seq<Event>)
    requires NodeWell(n) && !NodeOk(n) && Holds(t, p, Text(n)) && EndsNumber(Peek(t, p + |Text(n)|))
    ensures Refused(ParseValue(t, p, AcceptAll(), log))
    decreases n, 1
  {
    hide ParseNumber, ParseString, NumOk, StrOk, CharsOk, EndsNumber, Holds, IsRefusal, Quoted;
    hide ElementsText, MembersText, ParseElements, ParseMembers, NumberEnd;
    match n
    case Array(lead, es) => ArrayRefused(t, p, n, log);
    case Object(lead, ms) => ObjectRefused(t, p, n, log);
    case Str(cs) => StrRefused(t, p, cs, false);
    case Num(s) => NumRefused(t, p, s);
  }

  lemma ElementsParts(es: Elements)
    requires ElementsWell(es)
    ensures NodeWell(es.value)
  {
  }

  lemma {:induction false} ArrayRefused(t: bytes, p: nat, n: Node, log: seq<Event>)
    requires n.Array? && NodeWell(n) && !NodeOk(n) && Holds(t, p, Text(n))
    ensures Refused(ParseValue(t, p, AcceptAll(), log))
    decreases n, 0
  {
    hide ParseElements, ElementsText, SkipSpace, Shaped, AllSpace, IsRefusal, ElementsOk, ElementsWell;
    assert ElementsWell(n.elements) && !ElementsOk(n.elements);
    assert NodeWell(n.elements.value) by { ElementsParts(n.elements); }
    hide NodeWell, NodeOk, Holds;
    WellShaped(n.elements.value);
    ElementsStart(n.elements);
    CommaThen(t, p, LBRACKET, n.lead, ElementsText(n.elements));
    ElementsRefused(t, p + 1 + |n.lead|, n.elements, log + [StartArray], 0);
  }

  lemma {:induction false} ElementsRefused(t: bytes, p: nat, es: Elements, log: seq<Event>, count: u32)
    requires ElementsWell(es) && !ElementsOk(es) && Holds(t, p, ElementsText(es))
    ensures Refused(ParseElements(t, p, AcceptAll(), log, count))
    decreases es, 1
  {
    hide ParseValue, AfterElement, Text, AfterElementText, Events, NodeOk, NodeWell;
    HoldsSplit(t, p, Text(es.value), AfterElementText(es));
    var q := p + |Text(es.value)|;
    AfterElementEnds(t, q, es);
    if NodeOk(es.value) {
      NodeReads(t, p, es.value, log);
      MoreElementsRefused(t, q, es, log + Events(es.value), Inc(count));
    } else {
      NodeRefused(t, p, es.value, log);
    }
  }

  lemma {:induction false} MoreElementsRefused(t: bytes, p: nat, es: Elements, log: seq<Event>, count: u32)
    requires ElementsWell(es) && es.MoreElements? && !ElementsOk(es.rest) && Holds(t, p, AfterElementText(es))
    ensures Refused(AfterElement(t, p, AcceptAll(), log, count))
    decreases es, 0
  {
    hide SkipSpace, ParseElements, ElementsText, AllSpace, NodeOk, NodeWell, Holds;
    AfterElementEnds(t, p, es);
    var x := ElementsText(es.rest);
    HoldsSplit(t, p, es.trail, [COMMA] + (es.lead + x));
    WellShaped(es.rest.value);
    ElementsStart(es.rest);
    CommaThen(t, p + |es.trail|, COMMA, es.lead, x);
    ElementsRefused(t, p + |es.trail| + 1 + |es.lead|, es.rest, log, count);
  }

  lemma {:induction false} ObjectRefused(t: bytes, p: nat, n: Node, log: seq<Event>)
    requires n.Object? && NodeWell(n) && !NodeOk(n) && Holds(t, p, Text(n))
    ensures Refused(ParseValue(t, p, AcceptAll(), log))
    decreases n, 0
  {
    hide ParseMembers, MembersText, SkipSpace, AllSpace, IsRefusal, MembersOk, MembersWell;
    assert MembersWell(n.members) && !MembersOk(n.members);
    hide NodeWell, NodeOk, Holds;
    MembersStart(n.members);
    CommaThen(t, p, LBRACE, n.lead, MembersText(n.members));
    MembersRefused(t, p + 1 + |n.lead|, n.members, log + [StartObject], 0);
  }

  lemma {:induction false} MembersRefused(t: bytes, p: nat, ms: Members, log: seq<Event>, count: u32)
    requires MembersWell(ms) && !MembersOk(ms) && Holds(t, p, MembersText(ms))
    ensures Refused(ParseMembers(t, p, AcceptAll(), log, count))
    decreases ms, 2
  {
    hide AfterKey, ScanString, Quoted, AfterKeyText, HandedOver, StrOk, CharsOk, NodeOk, NodeWell;
    HoldsSplit(t, p, Quoted(ms.key), AfterKeyText(ms));
    if StrOk(ms.key) {
      QuotedReads(t, p, ms.key);
      AfterKeyRefused(t, p + |Quoted(ms.key)|, ms, log + [Key(HandedOver(StrBytes(ms.key)))], count);
    } else {
      StrRefused(t, p, ms.key, true);
    }
  }

  lemma {:induction false} AfterKeyRefused(t: bytes, p: nat, ms: Members, log: seq<Event>, count: u32)
    requires MembersWell(ms) && !MembersOk(ms) && StrOk(ms.key) && Holds(t, p, AfterKeyText(ms))
    ensures Refused(AfterKey(t, p, AcceptAll(), log, count))
    decreases ms, 1
  {
    hide ParseValue, AfterMember, Text, AfterMemberText, Events, SkipSpace, AfterKeyText;
    hide Holds, StrOk, CharsOk, NodeOk, NodeWell, Shaped;
    WellShaped(ms.value);
    var v := ColonPlaces(t, p, ms);
    var q := v + |Text(ms.value)|;
    AfterMemberEnds(t, q, ms);
    if NodeOk(ms.value) {
      NodeReads(t, v, ms.value, log);
      MoreMembersRefused(t, q, ms, log + Events(ms.value), Inc(count));
    } else {
      NodeRefused(t, v, ms.value, log);
    }
  }

  lemma {:induction false} MoreMembersRefused(t: bytes, p: nat, ms: Members, log: seq<Event>, count: u32)
    requires MembersWell(ms) && ms.MoreMembers? && !MembersOk(ms.rest) && Holds(t, p, AfterMemberText(ms))
    ensures Refused(AfterMember(t, p, AcceptAll(), log, count))
    decreases ms, 0
  {
    hide SkipSpace, ParseMembers, MembersText, AllSpace, NodeOk, NodeWell, StrOk, CharsOk, Holds;
    AfterMemberEnds(t, p, ms);
    var x := MembersText(ms.rest);
    HoldsSplit(t, p, ms.trail, [COMMA] + (ms.next + x));
    MembersStart(ms.rest);
    CommaThen(t, p + |ms.trail|, COMMA, ms.next, x);
    MembersRefused(t, p + |ms.trail| + 1 + |ms.next|, ms.rest, log, count);
  }

  /** Which texts of the grammar are accepted, strings of any length and numbers of any size
      included: those in which every escaped high surrogate is directly followed by an escaped low
      one, no string has a length of 2^32 - 1 modulo 2^32 and no number is out of range. The
      others fail with the code for that. */
  lemma AcceptedIff(t: bytes, lead: bytes, n: Node, trail: bytes)
    requires IsText(t, lead, n, trail)
    ensures Parse(t, AcceptAll()).Done? <==> NodeOk(n)
    ensures Parse(t, AcceptAll()).Fail? ==> Refused(Parse(t, AcceptAll()))
  {
    hide ParseValue, SkipSpace, Text, NodeOk, NodeWell, Holds, Shaped, AllSpace, IsRefusal;
    if NodeOk(n) {
      DocumentComplete(t, lead, n, trail);
    } else {
      WellShaped(n);
      var p := DocumentParts(t, lead, n, trail);
      NodeRefused(t, p, n, []);
    }
  }
}
