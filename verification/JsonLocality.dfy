/** A token is read the same wherever its text stands: what precedes it never matters, and
    what follows it matters only to a number, which must not be continued. */
module JsonLocality {
  import opened Bytes
  import opened JsonEvents
  import opened Doubles
  import opened JsonNumber
  import opened JsonString
  import opened JsonRecursive

  /** A byte that cannot continue a number. */
  predicate EndsNumber(b: byte) {
    !IsDigit(b) && b != DOT && !IsExpLetter(b)
  }

  /** The text u shows at r the n bytes that t shows at p, and no digit after them. */
  predicate Mirrors(t: bytes, p: nat, u: bytes, r: nat, n: nat) {
    && p + n <= |t| && r + n <= |u|
    && t[p..p + n] == u[r..r + n]
    && !IsDigit(Peek(u, r + n))
  }

  lemma MirrorsAt(t: bytes, p: nat, u: bytes, r: nat, n: nat, k: nat)
    requires Mirrors(t, p, u, r, n) && k <= n
    ensures Mirrors(t, p + k, u, r + k, n - k)
    ensures k < n ==> Peek(t, p + k) == Peek(u, r + k)
  {
    assert t[p + k..p + n] == t[p..p + n][k..];
    assert u[r + k..r + n] == u[r..r + n][k..];
    if k < n {
      assert t[p + k] == t[p..p + n][k];
      assert u[r + k] == u[r..r + n][k];
    }
  }

  lemma MirrorsNext(t: bytes, p: nat, u: bytes, r: nat, n: nat)
    requires Mirrors(t, p, u, r, n) && n > 0
    ensures Peek(t, p) == Peek(u, r) && Mirrors(t, p + 1, u, r + 1, n - 1)
  {
    MirrorsAt(t, p, u, r, n, 0);
    MirrorsAt(t, p, u, r, n, 1);
  }

  lemma {:induction false} DigitsEndMoves(t: bytes, p: nat, u: bytes, r: nat)
    requires p <= |t| && Mirrors(t, p, u, r, DigitsEnd(t, p) - p)
    ensures DigitsEnd(u, r) == r + DigitsEnd(t, p) - p
    decreases |t| - p
  {
    if IsDigit(Peek(t, p)) {
      MirrorsNext(t, p, u, r, DigitsEnd(t, p) - p);
      DigitsEndMoves(t, p + 1, u, r + 1);
    }
  }

  /** A scan that stops at a digit stops there in u too; one that runs out of digits at the
      end of the mirrored bytes runs out in u too. */
  lemma {:induction false} ScanIntMoves(t: bytes, p: nat, u: bytes, r: nat, n: nat, i: nat, limit: nat, last: nat)
    requires p <= |t| && Mirrors(t, p, u, r, n)
    requires var a := ScanInt(t, p, i, limit, last);
             if a.full then a.next < p + n else a.next <= p + n
    ensures var a := ScanInt(t, p, i, limit, last);
            ScanInt(u, r, i, limit, last) == IntScan(a.value, r + a.next - p, a.full)
    decreases |t| - p
  {
    if n > 0 {
      MirrorsNext(t, p, u, r, n);
      if IsDigit(Peek(t, p)) && !(i >= limit && (i != limit || DigitAt(t, p) > last)) {
        ScanIntMoves(t, p + 1, u, r + 1, n - 1, i * 10 + DigitAt(t, p), limit, last);
      }
    }
  }

  lemma {:induction false} ScanBigMoves(t: bytes, p: nat, u: bytes, r: nat, n: nat, d: nat)
    requires p <= |t| && Mirrors(t, p, u, r, n)
    requires ScanBig(t, p, d).BigScan? && ScanBig(t, p, d).next <= p + n
    ensures ScanBig(u, r, d) == BigScan(ScanBig(t, p, d).d, r + ScanBig(t, p, d).next - p)
    decreases |t| - p
  {
    hide DBL_MAX_10, Append;
    if n > 0 {
      MirrorsNext(t, p, u, r, n);
      if IsDigit(Peek(t, p)) {
        ScanBigMoves(t, p + 1, u, r + 1, n - 1, Append(d, DigitAt(t, p)));
      }
    }
  }

  lemma {:induction false} FracFastMoves(t: bytes, p: nat, u: bytes, r: nat, n: nat, i64: nat, expFrac: int, sig: nat)
    requires p <= |t| && Mirrors(t, p, u, r, n)
    requires ScanFracFast(t, p, i64, expFrac, sig).next <= p + n
    ensures var a := ScanFracFast(t, p, i64, expFrac, sig);
            ScanFracFast(u, r, i64, expFrac, sig) == a.(next := r + a.next - p)
    decreases |t| - p
  {
    if n > 0 {
      MirrorsNext(t, p, u, r, n);
      if IsDigit(Peek(t, p)) && i64 <= FAST {
        var j := i64 * 10 + DigitAt(t, p);
        FracFastMoves(t, p + 1, u, r + 1, n - 1, j, expFrac - 1, if j != 0 then sig + 1 else sig);
      }
    }
  }

  lemma {:induction false} FracSlowMoves(t: bytes, p: nat, u: bytes, r: nat, n: nat, d: nat, expFrac: int, sig: nat)
    requires p <= |t| && Mirrors(t, p, u, r, n)
    requires ScanFracSlow(t, p, d, expFrac, sig).next <= p + n
    ensures var a := ScanFracSlow(t, p, d, expFrac, sig);
            ScanFracSlow(u, r, d, expFrac, sig) == a.(next := r + a.next - p)
    decreases |t| - p
  {
    hide Append;
    if n > 0 {
      MirrorsNext(t, p, u, r, n);
      if IsDigit(Peek(t, p)) {
        if sig < 17 {
          var e := Append(d, DigitAt(t, p));
          FracSlowMoves(t, p + 1, u, r + 1, n - 1, e, expFrac - 1, if e > 0 then sig + 1 else sig);
        } else {
          FracSlowMoves(t, p + 1, u, r + 1, n - 1, d, expFrac, sig);
        }
      }
    }
  }

  lemma {:induction false} ExpMinusMoves(t: bytes, p: nat, u: bytes, r: nat, n: nat, exp: nat)
    requires p <= |t| && Mirrors(t, p, u, r, n)
    requires ScanExpMinus(t, p, exp).next == p + n
    ensures ScanExpMinus(u, r, exp) == ExpScan(ScanExpMinus(t, p, exp).exp, r + n)
    decreases |t| - p
  {
    if n > 0 {
      MirrorsNext(t, p, u, r, n);
      if IsDigit(Peek(t, p)) {
        var e := exp * 10 + DigitAt(t, p);
        if e >= LIMIT_INT {
          DigitsEndMoves(t, p + 1, u, r + 1);
        } else {
          ExpMinusMoves(t, p + 1, u, r + 1, n - 1, e);
        }
      }
    }
  }

  lemma {:induction false} ExpPlusMoves(t: bytes, p: nat, u: bytes, r: nat, n: nat, exp: nat, maxExp: int)
    requires p <= |t| && Mirrors(t, p, u, r, n)
    requires ScanExpPlus(t, p, exp, maxExp).ExpScan? && ScanExpPlus(t, p, exp, maxExp).next == p + n
    ensures ScanExpPlus(u, r, exp, maxExp) == ExpScan(ScanExpPlus(t, p, exp, maxExp).exp, r + n)
    decreases |t| - p
  {
    if n > 0 {
      MirrorsNext(t, p, u, r, n);
      if IsDigit(Peek(t, p)) {
        ExpPlusMoves(t, p + 1, u, r + 1, n - 1, exp * 10 + DigitAt(t, p), maxExp);
      }
    }
  }

  lemma ScanIntAdvances(t: bytes, p: nat, i: nat, limit: nat, last: nat)
    requires p <= |t| && IsDigit(Peek(t, p))
    requires !ScanInt(t, p, i, limit, last).full
    ensures ScanInt(t, p, i, limit, last).next > p
  {
  }

  lemma ScanBigAdvances(t: bytes, p: nat, d: nat)
    requires p <= |t| && IsDigit(Peek(t, p))
    ensures ScanBig(t, p, d).BigScan? ==> ScanBig(t, p, d).next > p
  {
  }

  lemma ScanFullAtDigit(t: bytes, p: nat, i: nat, limit: nat, last: nat)
    requires p <= |t| && ScanInt(t, p, i, limit, last).full
    ensures IsDigit(Peek(t, ScanInt(t, p, i, limit, last).next))
    decreases |t| - p
  {
  }

  /** The 32-bit scan and the 64-bit scan. */
  lemma ScansMove(t: bytes, p: nat, u: bytes, r: nat, n: nat, i: nat, l32: nat, l64: nat, last: nat)
    requires Mirrors(t, p, u, r, n)
    requires var a := ScanInt(t, p, i, l32, last);
             var b := ScanInt(t, a.next, a.value, l64, last);
             a.full && if b.full then b.next < p + n else b.next <= p + n
    ensures var a := ScanInt(t, p, i, l32, last);
            var b := ScanInt(t, a.next, a.value, l64, last);
            && ScanInt(u, r, i, l32, last) == IntScan(a.value, r + a.next - p, true)
            && ScanInt(u, r + a.next - p, a.value, l64, last) == IntScan(b.value, r + b.next - p, b.full)
  {
    hide ScanInt, Mirrors;
    var a := ScanInt(t, p, i, l32, last);
    var b := ScanInt(t, a.next, a.value, l64, last);
    ScanFullAtDigit(t, p, i, l32, last);
    if !b.full {
      ScanIntAdvances(t, a.next, a.value, l64, last);
    }
    ScanIntMoves(t, p, u, r, n, i, l32, last);
    var k := a.next - p;
    MirrorsAt(t, p, u, r, n, k);
    ScanIntMoves(t, a.next, u, r + k, n - k, a.value, l64, last);
  }

  lemma ParseIntMoves(t: bytes, p: nat, u: bytes, r: nat, n: nat, minus: bool)
    requires Mirrors(t, p, u, r, n)
    requires ParseInt(t, p, minus).IntPart? && ParseInt(t, p, minus).next <= p + n
    ensures var a := ParseInt(t, p, minus);
            ParseInt(u, r, minus) == a.(next := r + a.next - p)
  {
    hide ScanInt, ScanBig, Mirrors;
    MirrorsNext(t, p, u, r, n);
    if Peek(t, p) != DIGIT0 {
      var l32, l64, last := Limit32(minus), Limit64(minus), Last(minus);
      var a := ScanInt(t, p + 1, DigitAt(t, p), l32, last);
      if !a.full {
        ScanIntMoves(t, p + 1, u, r + 1, n - 1, DigitAt(t, p), l32, last);
      } else {
        WideMoves(t, p, u, r, n, minus);
      }
    }
  }

  lemma WideMoves(t: bytes, p: nat, u: bytes, r: nat, n: nat, minus: bool)
    requires Mirrors(t, p, u, r, n) && IsDigit(Peek(t, p)) && Peek(t, p) != DIGIT0
    requires ParseInt(t, p, minus).IntPart? && ParseInt(t, p, minus).next <= p + n
    requires ScanInt(t, p + 1, DigitAt(t, p), Limit32(minus), Last(minus)).full
    ensures var a := ParseInt(t, p, minus);
            ParseInt(u, r, minus) == a.(next := r + a.next - p)
  {
    hide ScanInt, ScanBig, Mirrors, Round;
    MirrorsNext(t, p, u, r, n);
    var l32, l64, last := Limit32(minus), Limit64(minus), Last(minus);
    var a := ScanInt(t, p + 1, DigitAt(t, p), l32, last);
    var b := ScanInt(t, a.next, a.value, l64, last);
    if b.full {
      ScanFullAtDigit(t, a.next, a.value, l64, last);
      ScanBigAdvances(t, b.next, Round(b.value));
    }
    ScansMove(t, p + 1, u, r + 1, n - 1, DigitAt(t, p), l32, l64, last);
    if b.full {
      var m := b.next - p;
      MirrorsAt(t, p, u, r, n, m);
      ScanBigMoves(t, b.next, u, r + m, n - m, Round(b.value));
    }
  }

  lemma ParseFracMoves(t: bytes, p: nat, u: bytes, r: nat, n: nat, held: Held, sig: nat)
    requires Mirrors(t, p, u, r, n)
    requires ParseFrac(t, p, held, sig).next <= p + n
    ensures var a := ParseFrac(t, p, held, sig);
            ParseFrac(u, r, held, sig) == a.(next := r + a.next - p)
  {
    match held
    case Big(d) => FracSlowMoves(t, p, u, r, n, d, 0, sig);
    case Small(i) => FastSlowMoves(t, p, u, r, n, i, sig);
    case Wide(i) => FastSlowMoves(t, p, u, r, n, i, sig);
  }

  lemma FastSlowMoves(t: bytes, p: nat, u: bytes, r: nat, n: nat, i: nat, sig: nat)
    requires Mirrors(t, p, u, r, n)
    requires var f := ScanFracFast(t, p, i, 0, sig);
             ScanFracSlow(t, f.next, Round(f.significand), f.expFrac, f.significandDigit).next <= p + n
    ensures var f := ScanFracFast(t, p, i, 0, sig);
            var s := ScanFracSlow(t, f.next, Round(f.significand), f.expFrac, f.significandDigit);
            var g := ScanFracFast(u, r, i, 0, sig);
            ScanFracSlow(u, g.next, Round(g.significand), g.expFrac, g.significandDigit) == s.(next := r + s.next - p)
  {
    hide ScanFracFast, ScanFracSlow, Mirrors, Round;
    var f := ScanFracFast(t, p, i, 0, sig);
    FracFastMoves(t, p, u, r, n, i, 0, sig);
    var k := f.next - p;
    MirrorsAt(t, p, u, r, n, k);
    FracSlowMoves(t, f.next, u, r + k, n - k, Round(f.significand), f.expFrac, f.significandDigit);
  }

  lemma ParseExpMoves(t: bytes, p: nat, u: bytes, r: nat, n: nat, expFrac: int)
    requires Mirrors(t, p, u, r, n)
    requires ParseExp(t, p, expFrac).ExpScan? && ParseExp(t, p, expFrac).next == p + n
    ensures ParseExp(u, r, expFrac) == ExpScan(ParseExp(t, p, expFrac).exp, r + n)
  {
    hide ScanExpMinus, ScanExpPlus, Mirrors;
    MirrorsNext(t, p, u, r, n);
    var k := if Peek(t, p) == PLUS || Peek(t, p) == MINUS then 1 else 0;
    assert n > k;
    MirrorsAt(t, p, u, r, n, k);
    MirrorsAt(t, p, u, r, n, k + 1);
    var q := p + k;
    if Peek(t, p) == MINUS {
      ExpMinusMoves(t, q + 1, u, r + k + 1, n - k - 1, DigitAt(t, q));
    } else {
      ExpPlusMoves(t, q + 1, u, r + k + 1, n - k - 1, DigitAt(t, q), 308 - expFrac);
    }
  }

  lemma FinishRealMoves(t: bytes, p: nat, u: bytes, r: nat, n: nat, minus: bool, d: nat, expFrac: int)
    requires Mirrors(t, p, u, r, n) && EndsNumber(Peek(u, r + n))
    requires FinishReal(t, p, minus, d, expFrac).Good? && FinishReal(t, p, minus, d, expFrac).next == p + n
    ensures FinishReal(u, r, minus, d, expFrac) == Good(FinishReal(t, p, minus, d, expFrac).event, r + n)
  {
    if n > 0 {
      MirrorsNext(t, p, u, r, n);
      ParseExpMoves(t, p + 1, u, r + 1, n - 1, expFrac);
    }
  }

  lemma FractionMoves(t: bytes, u: bytes, r: nat, n: nat, minus: bool, a: IntPart)
    requires a.IntPart? && Mirrors(t, a.next, u, r, n) && EndsNumber(Peek(u, r + n)) && Peek(t, a.next) == DOT
    requires ParseRest(t, minus, a).Good? && ParseRest(t, minus, a).next == a.next + n
    ensures ParseRest(u, minus, a.(next := r)) == Good(ParseRest(t, minus, a).event, r + n)
  {
    hide ParseFrac, FinishReal, Mirrors, HeldDouble, EndsNumber;
    var p := a.next;
    var f := ParseFrac(t, p + 1, a.held, a.significandDigit);
    assert n > 1 by { FracAdvances(t, p + 1, a.held, a.significandDigit); }
    MirrorsNext(t, p, u, r, n);
    MirrorsNext(t, p + 1, u, r + 1, n - 1);
    ParseFracMoves(t, p + 1, u, r + 1, n - 1, a.held, a.significandDigit);
    var k := f.next - p;
    MirrorsAt(t, p, u, r, n, k);
    FinishRealMoves(t, f.next, u, r + k, n - k, minus, f.d, f.expFrac);
  }

  lemma ParseRestMoves(t: bytes, u: bytes, r: nat, n: nat, minus: bool, a: IntPart)
    requires a.IntPart? && Mirrors(t, a.next, u, r, n) && EndsNumber(Peek(u, r + n))
    requires ParseRest(t, minus, a).Good? && ParseRest(t, minus, a).next == a.next + n
    ensures ParseRest(u, minus, a.(next := r)) == Good(ParseRest(t, minus, a).event, r + n)
  {
    hide ParseFrac, FinishReal, Mirrors, HeldDouble;
    var p := a.next;
    if Peek(t, p) == DOT {
      FractionMoves(t, u, r, n, minus, a);
    } else if IsExpLetter(Peek(t, p)) {
      assert n > 0 by { ExpAdvances(t, p, minus, HeldDouble(a.held), 0); }
      MirrorsNext(t, p, u, r, n);
      FinishRealMoves(t, p, u, r, n, minus, HeldDouble(a.held), 0);
    }
  }

  lemma FracAdvances(t: bytes, p: nat, held: Held, sig: nat)
    requires p <= |t| && IsDigit(Peek(t, p))
    ensures ParseFrac(t, p, held, sig).next > p
  {
    ParseFracEnds(t, p, held, sig);
  }

  lemma ExpAdvances(t: bytes, p: nat, minus: bool, d: nat, expFrac: int)
    requires p <= |t| && IsExpLetter(Peek(t, p)) && FinishReal(t, p, minus, d, expFrac).Good?
    ensures FinishReal(t, p, minus, d, expFrac).next > p
  {
  }

  /** A number that reads as an event reads as that event wherever its text stands, provided
      the byte after it cannot continue a number. */
  lemma NumberMoves(t: bytes, p: nat, u: bytes, r: nat, n: nat)
    requires Mirrors(t, p, u, r, n) && EndsNumber(Peek(u, r + n))
    requires ParseNumber(t, p).Good? && ParseNumber(t, p).next == p + n
    ensures ParseNumber(u, r) == Good(ParseNumber(t, p).event, r + n)
  {
    hide ParseInt, ParseRest, Mirrors;
    MirrorsNext(t, p, u, r, n);
    var minus := Peek(t, p) == MINUS;
    var k := if minus then 1 else 0;
    MirrorsAt(t, p, u, r, n, k);
    var a := ParseInt(t, p + k, minus);
    ParseIntMoves(t, p + k, u, r + k, n - k, minus);
    var m := a.next - p;
    MirrorsAt(t, p, u, r, n, m);
    ParseRestMoves(t, u, r + m, n - m, minus, a);
  }
}
