/** What a handler can do to a parse: nothing but cut the event stream short. */
module JsonHandlers {
  import opened Bytes
  import opened JsonEvents
  import opened JsonRecursive

  /** `r` is the outcome `full` of a handler that accepts everything, cut at the first event
      after `log` that `h` refuses. */
  ghost predicate Cut(h: Handler, log: seq<Event>, full: Outcome, r: Outcome) {
    && log <= full.log
    && ((forall k :: |log| < k <= |full.log| ==> h(full.log[..k])) ==> r == full)
    && (forall k: nat :: Refuses(h, log, full.log, k) ==> r == Fail(Termination, full.log[..k]))
  }

  /** The k-th event is the first one after `log` that h refuses. */
  ghost predicate Refuses(h: Handler, log: seq<Event>, all: seq<Event>, k: nat) {
    && |log| < k <= |all|
    && !h(all[..k])
    && (forall j :: |log| < j < k ==> h(all[..j]))
  }

  /** The first refused length, if any. */
  lemma {:induction false} FirstRefusal(h: Handler, log: seq<Event>, from: nat) returns (k: nat)
    requires from <= |log|
    ensures from < k <= |log| + 1
    ensures forall j :: from < j < k ==> h(log[..j])
    ensures k <= |log| ==> !h(log[..k])
    decreases |log| - from
  {
    if from == |log| || !h(log[..from + 1]) {
      k := from + 1;
    } else {
      k := FirstRefusal(h, log, from + 1);
    }
  }

  /** Cutting a part and then the rest is cutting the whole. */
  lemma CutThen(h: Handler, log: seq<Event>, full1: Outcome, r1: Outcome, full2: Outcome, r2: Outcome)
    requires Cut(h, log, full1, r1) && full1.Done?
    requires Cut(h, full1.log, full2, r2)
    ensures r1.Done? ==> r1 == full1
    ensures Cut(h, log, full2, if r1.Fail? then r1 else r2)
  {
    var k := FirstRefusal(h, full1.log, |log|);
    assert forall i :: 0 <= i <= |full1.log| ==> full2.log[..i] == full1.log[..i];
    if k <= |full1.log| {
      assert Refuses(h, log, full1.log, k);
      assert Refuses(h, log, full2.log, k);
    } else {
      assert r1 == full1;
      var m := FirstRefusal(h, full2.log, |full1.log|);
      assert m <= |full2.log| ==> Refuses(h, full1.log, full2.log, m);
      forall n: nat | Refuses(h, log, full2.log, n)
        ensures Refuses(h, full1.log, full2.log, n)
      {
      }
    }
  }

  /** A failure without a further event cannot be cut. */
  lemma FailCut(h: Handler, log: seq<Event>, code: ErrorCode)
    ensures Cut(h, log, Fail(code, log), Fail(code, log))
  {
  }

  /** If the full parse fails and the cut one does not, they cannot differ. */
  lemma CutFails(h: Handler, log: seq<Event>, full: Outcome, r: Outcome)
    requires Cut(h, log, full, r) && full.Fail?
    ensures r.Fail?
  {
    var k := FirstRefusal(h, full.log, |log|);
    assert k <= |full.log| ==> Refuses(h, log, full.log, k);
  }

  lemma DeliverCut(h: Handler, log: seq<Event>, e: Event, next: nat)
    ensures Cut(h, log, Deliver(AcceptAll(), log, e, next), Deliver(h, log, e, next))
  {
    var full := log + [e];
    assert full[..|log| + 1] == full;
    assert forall k: nat :: Refuses(h, log, full, k) ==> k == |log| + 1;
  }

  lemma TokenCut(h: Handler, log: seq<Event>, k: Token)
    ensures Cut(h, log, DeliverToken(AcceptAll(), log, k), DeliverToken(h, log, k))
  {
    if k.Good? {
      DeliverCut(h, log, k.event, k.next);
    }
  }

  lemma {:induction false} ValueCut(t: bytes, p: nat, h: Handler, log: seq<Event>)
    requires p <= |t|
    ensures Cut(h, log, ParseValue(t, p, AcceptAll(), log), ParseValue(t, p, h, log))
    decreases |t| - p, 1
  {
    hide Cut;
    if Peek(t, p) == LBRACE {
      ObjectCut(t, p, h, log);
    } else if Peek(t, p) == LBRACKET {
      ArrayCut(t, p, h, log);
    } else {
      TokenCut(h, log, ParseToken(t, p));
    }
  }

  lemma {:induction false} ObjectCut(t: bytes, p: nat, h: Handler, log: seq<Event>)
    requires p < |t| && t[p] == LBRACE
    ensures Cut(h, log, ParseObject(t, p, AcceptAll(), log), ParseObject(t, p, h, log))
    decreases |t| - p, 0
  {
    hide Cut, ParseMembers, SkipSpace;
    var all := AcceptAll();
    var full := Deliver(all, log, StartObject, p + 1);
    DeliverCut(h, log, StartObject, p + 1);
    var q := SkipSpace(t, p + 1);
    if Peek(t, q) == RBRACE {
      DeliverCut(h, full.log, EndObject(0), q + 1);
      CutThen(h, log, full, Deliver(h, log, StartObject, p + 1),
              Deliver(all, full.log, EndObject(0), q + 1), Deliver(h, full.log, EndObject(0), q + 1));
    } else {
      MembersCut(t, q, h, full.log, 0);
      CutThen(h, log, full, Deliver(h, log, StartObject, p + 1),
              ParseMembers(t, q, all, full.log, 0), ParseMembers(t, q, h, full.log, 0));
    }
  }

  lemma {:induction false} MembersCut(t: bytes, p: nat, h: Handler, log: seq<Event>, count: u32)
    requires p <= |t|
    ensures Cut(h, log, ParseMembers(t, p, AcceptAll(), log, count), ParseMembers(t, p, h, log, count))
    decreases |t| - p, 0
  {
    hide Cut, AfterKey;
    FailCut(h, log, ObjectMissName);
    if Peek(t, p) == QUOTE {
      var k := ParseString(t, p, true);
      TokenCut(h, log, k);
      var full := DeliverToken(AcceptAll(), log, k);
      if full.Done? {
        AfterKeyCut(t, full.next, h, full.log, count);
        CutThen(h, log, full, DeliverToken(h, log, k),
                AfterKey(t, full.next, AcceptAll(), full.log, count), AfterKey(t, full.next, h, full.log, count));
      } else {
        CutFails(h, log, full, DeliverToken(h, log, k));
      }
    }
  }

  lemma {:induction false} AfterKeyCut(t: bytes, p: nat, h: Handler, log: seq<Event>, count: u32)
    requires p <= |t|
    ensures Cut(h, log, AfterKey(t, p, AcceptAll(), log, count), AfterKey(t, p, h, log, count))
    decreases |t| - p, 0
  {
    hide Cut, ParseValue, AfterMember, SkipSpace;
    FailCut(h, log, ObjectMissColon);
    var c := SkipSpace(t, p);
    if Peek(t, c) == COLON {
      var v := SkipSpace(t, c + 1);
      ValueCut(t, v, h, log);
      var full := ParseValue(t, v, AcceptAll(), log);
      if full.Done? {
        AfterMemberCut(t, full.next, h, full.log, Inc(count));
        CutThen(h, log, full, ParseValue(t, v, h, log),
                AfterMember(t, full.next, AcceptAll(), full.log, Inc(count)),
                AfterMember(t, full.next, h, full.log, Inc(count)));
      } else {
        CutFails(h, log, full, ParseValue(t, v, h, log));
      }
    }
  }

  lemma {:induction false} AfterMemberCut(t: bytes, p: nat, h: Handler, log: seq<Event>, count: u32)
    requires p <= |t|
    ensures Cut(h, log, AfterMember(t, p, AcceptAll(), log, count), AfterMember(t, p, h, log, count))
    decreases |t| - p, 0
  {
    hide Cut, ParseMembers, SkipSpace;
    FailCut(h, log, ObjectMissCommaOrCurlyBracket);
    var x := SkipSpace(t, p);
    if Peek(t, x) == COMMA {
      MembersCut(t, SkipSpace(t, x + 1), h, log, count);
    } else if Peek(t, x) == RBRACE {
      DeliverCut(h, log, EndObject(count), x + 1);
    }
  }

  lemma {:induction false} ArrayCut(t: bytes, p: nat, h: Handler, log: seq<Event>)
    requires p < |t| && t[p] == LBRACKET
    ensures Cut(h, log, ParseArray(t, p, AcceptAll(), log), ParseArray(t, p, h, log))
    decreases |t| - p, 0
  {
    hide Cut, ParseElements, SkipSpace;
    var all := AcceptAll();
    var full := Deliver(all, log, StartArray, p + 1);
    DeliverCut(h, log, StartArray, p + 1);
    var q := SkipSpace(t, p + 1);
    if Peek(t, q) == RBRACKET {
      DeliverCut(h, full.log, EndArray(0), q + 1);
      CutThen(h, log, full, Deliver(h, log, StartArray, p + 1),
              Deliver(all, full.log, EndArray(0), q + 1), Deliver(h, full.log, EndArray(0), q + 1));
    } else {
      ElementsCut(t, q, h, full.log, 0);
      CutThen(h, log, full, Deliver(h, log, StartArray, p + 1),
              ParseElements(t, q, all, full.log, 0), ParseElements(t, q, h, full.log, 0));
    }
  }

  lemma {:induction false} ElementsCut(t: bytes, p: nat, h: Handler, log: seq<Event>, count: u32)
    requires p <= |t|
    ensures Cut(h, log, ParseElements(t, p, AcceptAll(), log, count), ParseElements(t, p, h, log, count))
    decreases |t| - p, 2
  {
    hide Cut, ParseValue, AfterElement;
    ValueCut(t, p, h, log);
    var full := ParseValue(t, p, AcceptAll(), log);
    if full.Done? {
      AfterElementCut(t, full.next, h, full.log, Inc(count));
      CutThen(h, log, full, ParseValue(t, p, h, log),
              AfterElement(t, full.next, AcceptAll(), full.log, Inc(count)),
              AfterElement(t, full.next, h, full.log, Inc(count)));
    } else {
      CutFails(h, log, full, ParseValue(t, p, h, log));
    }
  }

  lemma {:induction false} AfterElementCut(t: bytes, p: nat, h: Handler, log: seq<Event>, count: u32)
    requires p <= |t|
    ensures Cut(h, log, AfterElement(t, p, AcceptAll(), log, count), AfterElement(t, p, h, log, count))
    decreases |t| - p, 0
  {
    hide Cut, ParseElements, SkipSpace;
    FailCut(h, log, ArrayMissCommaOrSquareBracket);
    var x := SkipSpace(t, p);
    if Peek(t, x) == COMMA {
      ElementsCut(t, SkipSpace(t, x + 1), h, log, count);
    } else if Peek(t, x) == RBRACKET {
      DeliverCut(h, log, EndArray(count), x + 1);
    }
  }

  /** Whatever the handler, Parse delivers the events an always-accepting handler would get,
      up to and including the first one refused; a refusal is reported as Termination. */
  lemma HandlerOnlyCuts(t: bytes, h: Handler)
    ensures Cut(h, [], Parse(t, AcceptAll()), Parse(t, h))
  {
    hide ParseValue, SkipSpace;
    var p := SkipSpace(t, 0);
    if Peek(t, p) != NUL {
      ValueCut(t, p, h, []);
      var full := ParseValue(t, p, AcceptAll(), []);
      if full.Done? {
        var k := FirstRefusal(h, full.log, 0);
        assert k <= |full.log| ==> Refuses(h, [], full.log, k);
      }
    }
  }
}
