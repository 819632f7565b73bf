/** memmem: search for a byte string with a rolling additive hash. */
module Memmem {
  import opened Bytes

  /** A char as a signed number. */
  function Char(b: byte): int {
    if b < 128 then b else b - 256
  }

  /** What a 32-bit int keeps of a sum. */
  function Wrap(x: int): int {
    x % U32
  }

  function Sum(s: bytes): int {
    if s == [] then 0 else Sum(s[..|s| - 1]) + Char(s[|s| - 1])
  }

  predicate Occurs(haystack: bytes, needle: bytes, i: nat) {
    i + |needle| <= |haystack| && haystack[i..i + |needle|] == needle
  }

  lemma {:induction false} SumConcat(a: bytes, b: bytes)
    ensures Sum(a + b) == Sum(a) + Sum(b)
    decreases |b|
  {
    if b == [] {
      assert a + b == a;
    } else {
      assert (a + b)[..|a + b| - 1] == a + b[..|b| - 1];
      SumConcat(a, b[..|b| - 1]);
    }
  }

  lemma SumOne(b: byte)
    ensures Sum([b]) == Char(b)
  {
    assert [b][..0] == [];
  }

  /** Moving the window by one byte: one char leaves, one comes in. */
  lemma Rolls(h: bytes, i: nat, m: nat)
    requires 0 < m && i + m < |h|
    ensures Sum(h[i + 1..i + 1 + m]) == Sum(h[i..i + m]) - Char(h[i]) + Char(h[i + m])
  {
    var inner := h[i + 1..i + m];
    assert h[i..i + m] == [h[i]] + inner;
    assert h[i + 1..i + 1 + m] == inner + [h[i + m]];
    SumConcat([h[i]], inner);
    SumConcat(inner, [h[i + m]]);
    SumOne(h[i]);
    SumOne(h[i + m]);
  }

  lemma WrapAdds(x: int, y: int)
    ensures Wrap(Wrap(x) + y) == Wrap(x + y)
  {
  }

  /** So does its 32-bit hash. */
  lemma HashRolls(h: bytes, i: nat, m: nat)
    requires 0 < m && i + m < |h|
    ensures Wrap(Wrap(Wrap(Sum(h[i..i + m])) - Char(h[i])) + Char(h[i + m])) == Wrap(Sum(h[i + 1..i + 1 + m]))
  {
    hide Wrap, Sum;
    Rolls(h, i, m);
    WrapAdds(Sum(h[i..i + m]), -Char(h[i]));
    WrapAdds(Sum(h[i..i + m]) - Char(h[i]), Char(h[i + m]));
  }

  /** An occurrence is never rejected by the hash or by the first byte. */
  lemma MatchPasses(h: bytes, needle: bytes, i: nat)
    requires needle != [] && i + |needle| <= |h|
    ensures Occurs(h, needle, i) ==> Wrap(Sum(h[i..i + |needle|])) == Wrap(Sum(needle)) && h[i] == needle[0]
  {
    assert h[i] == h[i..i + |needle|][0];
  }

  /** The hashes of the needle and of the first window. */
  method Initialize(haystack: bytes, needle: bytes) returns (hash: int, hayHash: int)
    requires |needle| <= |haystack|
    ensures hash == Wrap(Sum(needle)) && hayHash == Wrap(Sum(haystack[..|needle|]))
  {
    hash, hayHash := 0, 0;
    var k := 0;
    while k < |needle|
      invariant k <= |needle|
      invariant hash == Wrap(Sum(needle[..k])) && hayHash == Wrap(Sum(haystack[..k]))
    {
      assert needle[..k + 1][..k] == needle[..k] && haystack[..k + 1][..k] == haystack[..k];
      WrapAdds(Sum(needle[..k]), Char(needle[k]));
      WrapAdds(Sum(haystack[..k]), Char(haystack[k]));
      hash := Wrap(hash + Char(needle[k]));
      hayHash := Wrap(hayHash + Char(haystack[k]));
      k := k + 1;
    }
    assert needle[..k] == needle;
  }

  /** memmem. `beyond` is whatever byte lies behind the haystack: it is rolled in after the last
      window and cannot matter. The result is the first occurrence, or none. */
  method Find(haystack: bytes, needle: bytes, beyond: byte) returns (r: Option<nat>)
    ensures match r
            case Some(i) => Occurs(haystack, needle, i) && forall j: nat :: j < i ==> !Occurs(haystack, needle, j)
            case None => forall j: nat :: !Occurs(haystack, needle, j)
  {
    hide Sum, Wrap, Char;
    var m := |needle|;
    if |haystack| < m {
      return None;
    }
    if m == 0 {
      return Some(0);
    }
    var hash, hayHash := Initialize(haystack, needle);
    var last := |haystack| - m + 1;
    var i := 0;
    assert haystack[0..m] == haystack[..m];
    while i < last
      invariant i <= last
      invariant i < last ==> hayHash == Wrap(Sum(haystack[i..i + m]))
      invariant forall j: nat :: j < i ==> !Occurs(haystack, needle, j)
    {
      if hash == hayHash && haystack[i] == needle[0] && haystack[i..i + m] == needle {
        return Some(i);
      }
      MatchPasses(haystack, needle, i);
      var next := if i + m < |haystack| then haystack[i + m] else beyond;
      if i + m < |haystack| {
        HashRolls(haystack, i, m);
      }
      hayHash := Wrap(hayHash - Char(haystack[i]));
      hayHash := Wrap(hayHash + Char(next));
      i := i + 1;
    }
    r := None;
  }
}
