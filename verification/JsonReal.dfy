/** The number that a text with a fraction or an exponent denotes, and what the reader makes of it:
    a sign, a whole number and a power of ten. */
module JsonReal {
  import opened Bytes
  import opened JsonEvents
  import opened Doubles
  import opened JsonNumber

  /** The largest whole number up to which fraction digits are collected exactly, 2^53 - 1. */
  const EXACT: nat := 9_007_199_254_740_991

  predicate AllDigits(t: bytes, p: nat, q: nat) {
    q <= |t| && forall k :: p <= k < q ==> IsDigit(t[k])
  }

  /** The grammar's int: the digits from `s` to `i`. */
  predicate IsInt(t: bytes, s: nat, i: nat) {
    && s < i && AllDigits(t, s, i)
    && if t[s] == DIGIT0 then i == s + 1 else !IsDigit(Peek(t, i))
  }

  /** The grammar's frac: a point at `i` and the digits up to `z`. */
  predicate IsFrac(t: bytes, i: nat, z: nat) {
    && i + 1 < z && AllDigits(t, i + 1, z) && t[i] == DOT
    && !IsDigit(Peek(t, z))
  }

  /** The grammar's exp: a letter at `z`, perhaps a sign, and the digits from `x` to `q`. */
  predicate IsExp(t: bytes, z: nat, negative: bool, x: nat, q: nat) {
    && z < x < q && AllDigits(t, x, q) && IsExpLetter(t[z])
    && (x == z + 1 || (x == z + 2 && (t[z + 1] == PLUS || t[z + 1] == MINUS)))
    && (negative <==> x == z + 2 && t[z + 1] == MINUS)
    && !IsDigit(Peek(t, q))
  }

  // ---------- the exponent ----------

  lemma {:induction false} MinusExact(t: bytes, x: nat, p: nat, q: nat)
    requires x < p <= q && AllDigits(t, x, q) && !IsDigit(Peek(t, q))
    requires Value(t, x, p) < LIMIT_INT
    ensures var r := ScanExpMinus(t, p, Value(t, x, p));
            && r.next == q
            && (if Value(t, x, q - 1) < LIMIT_INT then r.exp == -(Value(t, x, q) as int) else r.exp <= -LIMIT_INT)
    decreases q - p
  {
    hide Value;
    if p == q {
      ValueGrows(t, x, q - 1, q);
    } else {
      ValueNext(t, x, p);
      if Value(t, x, p + 1) >= LIMIT_INT {
        DigitsEndUnique(t, p + 1, q);
        if p + 1 < q {
          ValueGrows(t, x, p + 1, q - 1);
        }
      } else {
        MinusExact(t, x, p + 1, q);
      }
    }
  }

  lemma {:induction false} PlusExact(t: bytes, x: nat, p: nat, q: nat, most: int)
    requires x < p <= q && AllDigits(t, x, q) && !IsDigit(Peek(t, q))
    requires Value(t, x, p) <= most <= INT_MAX
    ensures var r := ScanExpPlus(t, p, Value(t, x, p), most);
            if Value(t, x, q) <= most then r == ExpScan(Value(t, x, q), q)
            else r.ExpBad? && (most < 200_000_000 ==> r.code == NumberTooBig)
    decreases q - p
  {
    hide Value;
    if p < q {
      ValueNext(t, x, p);
      if Value(t, x, p + 1) > most {
        ValueGrows(t, x, p + 1, q);
      } else {
        PlusExact(t, x, p + 1, q, most);
      }
    }
  }

  lemma FirstDigit(t: bytes, x: nat)
    requires x < |t| && IsDigit(t[x])
    ensures Value(t, x, x + 1) == DigitAt(t, x) <= 9
  {
    assert Value(t, x, x) == 0;
  }

  /** What the reader makes of an exponent, with `j` fraction digits collected: a positive one is
      exact up to 308 + j and an error beyond; a negative one is exact if its digits but the last
      stay below 214748364, and at most minus that otherwise. */
  lemma ExponentExact(t: bytes, z: nat, negative: bool, x: nat, q: nat, j: nat)
    requires IsExp(t, z, negative, x, q) && j <= 2_147_483_339
    ensures var v := Value(t, x, q);
            var r := ParseExp(t, z + 1, -(j as int));
            && (!negative && v <= 308 + j ==> r == ExpScan(v, q))
            && (!negative && v > 308 + j ==> r.ExpBad? && (j < 100_000_000 ==> r.code == NumberTooBig))
            && (negative && Value(t, x, q - 1) < 214_748_364 ==> r == ExpScan(-(v as int), q))
            && (negative && Value(t, x, q - 1) >= 214_748_364 ==>
                  r.ExpScan? && r.next == q && r.exp <= -214_748_364)
  {
    hide Value, ScanExpMinus, ScanExpPlus;
    FirstDigit(t, x);
    if negative {
      MinusExact(t, x, x + 1, q);
    } else {
      PlusExact(t, x, x + 1, q, 308 + j);
    }
  }

  // ---------- the digits of the fraction ----------

  /** The whole number that the digits from `s` to `i` and those from behind the point to `q` make
      together. */
  function Joined(t: bytes, s: nat, i: nat, q: nat): nat
    requires s <= i < q && AllDigits(t, s, i) && AllDigits(t, i + 1, q)
  {
    Value(t, s, i) * Pow10(q - i - 1) + Value(t, i + 1, q)
  }

  lemma JoinedNone(t: bytes, s: nat, i: nat)
    requires s <= i < |t| && AllDigits(t, s, i)
    ensures Joined(t, s, i, i + 1) == Value(t, s, i)
  {
    assert Pow10(0) == 1 && Value(t, i + 1, i + 1) == 0;
  }

  lemma JoinedNext(t: bytes, s: nat, i: nat, q: nat)
    requires s <= i < q && AllDigits(t, s, i) && AllDigits(t, i + 1, q + 1)
    ensures Joined(t, s, i, q + 1) == Joined(t, s, i, q) * 10 + DigitAt(t, q)
  {
    hide Value;
    ValueNext(t, i + 1, q);
    assert Pow10(q - i) == 10 * Pow10(q - i - 1);
    Distribute(Value(t, s, i), Pow10(q - i - 1), Value(t, i + 1, q));
  }

  lemma Distribute(a: nat, b: nat, c: nat)
    ensures a * (10 * b) + c * 10 == (a * b + c) * 10
  {
  }

  lemma {:induction false} JoinedGrows(t: bytes, s: nat, i: nat, m: nat, q: nat)
    requires s <= i < m <= q && AllDigits(t, s, i) && AllDigits(t, i + 1, q)
    ensures Joined(t, s, i, m) <= Joined(t, s, i, q)
    decreases q
  {
    hide Joined;
    if m < q {
      JoinedGrows(t, s, i, m, q - 1);
      JoinedNext(t, s, i, q - 1);
    }
  }

  /** How many of the first digits of the fraction count: all but leading zeros of the number. */
  function Counted(t: bytes, s: nat, i: nat, q: nat): (n: nat)
    requires s <= i < q && AllDigits(t, s, i) && AllDigits(t, i + 1, q)
    ensures n <= q - i - 1
    decreases q
  {
    if q == i + 1 then 0 else Counted(t, s, i, q - 1) + if Joined(t, s, i, q) != 0 then 1 else 0
  }

  /** The fast loop from position `p` on. */
  lemma {:induction false} FastExact(t: bytes, s: nat, i: nat, p: nat, z: nat, sig: nat)
    requires s <= i < p <= z && AllDigits(t, s, i) && AllDigits(t, i + 1, z) && !IsDigit(Peek(t, z))
    ensures var r := ScanFracFast(t, p, Joined(t, s, i, p), i + 1 - p, sig + Counted(t, s, i, p));
            && p <= r.next <= z && r.significand == Joined(t, s, i, r.next) && r.expFrac == i + 1 - r.next
            && r.significandDigit == sig + Counted(t, s, i, r.next)
            && (r.next < z ==> Joined(t, s, i, r.next) > EXACT)
            && (r.next > p ==> Joined(t, s, i, r.next - 1) <= EXACT)
    decreases z - p
  {
    hide Joined;
    if p < z && Joined(t, s, i, p) <= EXACT {
      JoinedNext(t, s, i, p);
      FastExact(t, s, i, p + 1, z, sig);
    }
  }

  /** The slow loop from position `p` on, where the number is not zero any more. */
  lemma {:induction false} SlowExact(t: bytes, p: nat, z: nat, d: nat, e: int, sig: nat)
    requires p <= z && AllDigits(t, p, z) && !IsDigit(Peek(t, z)) && d > 0
    ensures var n := Min(z - p, if sig < 17 then 17 - sig else 0);
            ScanFracSlow(t, p, d, e, sig) == Frac(Appended(t, p, p + n, d), z, e - n)
    decreases z - p
  {
    hide Append;
    if p < z {
      if sig < 17 {
        AppendGrows(d, DigitAt(t, p));
        SlowExact(t, p + 1, z, Append(d, DigitAt(t, p)), e - 1, sig + 1);
      } else {
        SlowExact(t, p + 1, z, d, e, sig);
      }
    }
  }

  /** The fraction of a number that fits 64 bits. The digits up to `m` are collected exactly, to the
      first number above 2^53 - 1 or to the end; `n` more are appended in doubles, until seventeen
      digits count. */
  lemma FractionExact(t: bytes, s: nat, i: nat, z: nat, held: Held, sig: nat) returns (m: nat, n: nat)
    requires s <= i && AllDigits(t, s, i) && IsFrac(t, i, z)
    requires held == Small(Value(t, s, i)) || held == Wide(Value(t, s, i))
    ensures i < m <= z && (m < z ==> Joined(t, s, i, m) > EXACT) && (m > i + 1 ==> Joined(t, s, i, m - 1) <= EXACT)
    ensures n == Min(z - m, if sig + Counted(t, s, i, m) < 17 then 17 - (sig + Counted(t, s, i, m)) else 0)
    ensures ParseFrac(t, i + 1, held, sig)
         == Frac(Appended(t, m, m + n, Round(Joined(t, s, i, m))), z, i + 1 - (m + n))
  {
    hide Joined, Value, Round, ScanFracFast, ScanFracSlow;
    JoinedNone(t, s, i);
    FastExact(t, s, i, i + 1, z, sig);
    var f := ScanFracFast(t, i + 1, Value(t, s, i), 0, sig);
    m := f.next;
    n := Min(z - m, if sig + Counted(t, s, i, m) < 17 then 17 - (sig + Counted(t, s, i, m)) else 0);
    if m < z {
      RoundHalf(Joined(t, s, i, m));
      SlowExact(t, m, z, Round(Joined(t, s, i, m)), f.expFrac, f.significandDigit);
    } else {
      SlowEnds(t, z, Round(Joined(t, s, i, m)), f.expFrac, f.significandDigit);
    }
  }

  lemma SlowEnds(t: bytes, z: nat, d: nat, e: int, sig: nat)
    requires z <= |t| && !IsDigit(Peek(t, z))
    ensures ScanFracSlow(t, z, d, e, sig) == Frac(d, z, e) && Appended(t, z, z, d) == d
  {
  }

  // ---------- whole numbers and a power of ten ----------

  /** A number of the grammar starts at `p`: its sign, and its int up to `i`. */
  predicate Starts(t: bytes, p: nat, minus: bool, s: nat, i: nat) {
    && p < |t| && minus == (t[p] == MINUS) && s == (if minus then p + 1 else p)
    && IsInt(t, s, i)
  }

  /** The reader after the int of a number that fits 64 bits. */
  lemma IntHeld(t: bytes, p: nat, minus: bool, s: nat, i: nat)
    requires Starts(t, p, minus, s, i) && Value(t, s, i) <= Max64(minus)
    ensures var r := ParseInt(t, s, minus);
            && r.IntPart? && r.next == i && r.significandDigit == i - s - 1
            && (r.held == Small(Value(t, s, i)) || r.held == Wide(Value(t, s, i)))
  {
    hide ParseInt, Value;
    if t[s] == DIGIT0 {
      ZeroInt(t, s, minus);
    } else {
      ParseIntExact(t, s, minus, i);
      assert Fitting(t, s, i, minus) == i;
    }
  }

  /** All digits are taken and exact if together they make at most 2^53 - 1. */
  lemma SmallFraction(t: bytes, p: nat, minus: bool, s: nat, i: nat, z: nat)
    requires Starts(t, p, minus, s, i) && IsFrac(t, i, z) && Joined(t, s, i, z) <= EXACT
    ensures ParseNumber(t, p) == FinishReal(t, z, minus, Joined(t, s, i, z), i + 1 - z)
  {
    hide Joined, ParseInt, ParseFrac, FinishReal, Round, Value;
    JoinedNone(t, s, i);
    JoinedGrows(t, s, i, i + 1, z);
    IntHeld(t, p, minus, s, i);
    var held := ParseInt(t, s, minus).held;
    var m, n := FractionExact(t, s, i, z, held, i - s - 1);
    JoinedGrows(t, s, i, m, z);
    RoundExact(Joined(t, s, i, z));
  }

  /** [ minus ] int frac: the number is the digits taken together, times ten to the power of minus
      the number of fraction digits. */
  lemma DecimalExact(t: bytes, p: nat, minus: bool, s: nat, i: nat, z: nat)
    requires Starts(t, p, minus, s, i) && IsFrac(t, i, z) && Joined(t, s, i, z) <= EXACT
    requires !IsExpLetter(Peek(t, z))
    ensures var k := z - i - 1;
            ParseNumber(t, p) ==
              if k <= 0x8000_0000 then Good(Double(minus, Joined(t, s, i, z), -k), z) else Bad(Undetermined)
  {
    hide Joined, ParseNumber;
    SmallFraction(t, p, minus, s, i, z);
  }

  /** What the exponent makes of a significand `d` with `j` fraction digits collected. */
  lemma Scaled(t: bytes, z: nat, negative: bool, x: nat, q: nat, minus: bool, d: nat, j: nat)
    requires IsExp(t, z, negative, x, q) && j <= 2_147_483_339
    ensures var e := Value(t, x, q);
            var r := FinishReal(t, z, minus, d, -(j as int));
            && (!negative && e <= 308 + j ==> r == Good(Double(minus, d, e - j), q))
            && (!negative && e > 308 + j ==> r.Bad? && (j < 100_000_000 ==> r.code == NumberTooBig))
            && (negative && Value(t, x, q - 1) < 214_748_364 ==>
                  r == if e + j <= 0x8000_0000 then Good(Double(minus, d, -(e as int) - j), q) else Bad(Undetermined))
  {
    hide Value, ParseExp;
    ExponentExact(t, z, negative, x, q, j);
  }

  /** [ minus ] int frac exp: the exponent is added. */
  lemma ScientificExact(t: bytes, p: nat, minus: bool, s: nat, i: nat, z: nat, negative: bool, x: nat, q: nat)
    requires Starts(t, p, minus, s, i) && IsFrac(t, i, z) && Joined(t, s, i, z) <= EXACT
    requires IsExp(t, z, negative, x, q) && z - i - 1 <= 2_147_483_339
    ensures var v, k, e := Joined(t, s, i, z), z - i - 1, Value(t, x, q);
            var r := ParseNumber(t, p);
            && (!negative && e <= 308 + k ==> r == Good(Double(minus, v, e - k), q))
            && (!negative && e > 308 + k ==> r.Bad? && (k < 100_000_000 ==> r.code == NumberTooBig))
            && (negative && Value(t, x, q - 1) < 214_748_364 ==>
                  r == if e + k <= 0x8000_0000 then Good(Double(minus, v, -(e as int) - k), q) else Bad(Undetermined))
  {
    hide Joined, ParseNumber, FinishReal, Value, IsExp;
    SmallFraction(t, p, minus, s, i, z);
    Scaled(t, z, negative, x, q, minus, Joined(t, s, i, z), z - i - 1);
  }

  /** The int of a number is not too big for the reader. */
  predicate Fits(t: bytes, s: nat, i: nat, minus: bool)
    requires s < i && AllDigits(t, s, i)
  {
    Value(t, s, i) <= Max64(minus) || Rounded(t, s, i - 1, minus) < DBL_MAX_10
  }

  /** What the reader holds of an int: exact if it is at most 2^53 - 1. */
  lemma HeldIs(t: bytes, p: nat, minus: bool, s: nat, i: nat)
    requires Starts(t, p, minus, s, i) && Fits(t, s, i, minus)
    ensures var r := ParseInt(t, s, minus);
            r.IntPart? && r.next == i && HeldDouble(r.held) == Rounded(t, s, i, minus)
    ensures Value(t, s, i) <= EXACT ==> Rounded(t, s, i, minus) == Value(t, s, i)
  {
    hide Value, ParseInt, Round, DBL_MAX_10;
    if Value(t, s, i) <= Max64(minus) {
      IntHeld(t, p, minus, s, i);
      assert Fitting(t, s, i, minus) == i;
      assert Appended(t, i, i, Round(Value(t, s, i))) == Round(Value(t, s, i));
      if Value(t, s, i) <= EXACT {
        RoundExact(Value(t, s, i));
      }
    } else {
      assert t[s] != DIGIT0 by { ZeroFits(t, s); }
      ParseIntExact(t, s, minus, i);
    }
  }

  lemma ZeroFits(t: bytes, s: nat)
    ensures s < |t| && t[s] == DIGIT0 ==> Value(t, s, s + 1) == 0
  {
    if s < |t| && t[s] == DIGIT0 {
      FirstDigit(t, s);
    }
  }

  /** [ minus ] int exp: the same without fraction digits. The significand is what the reader holds
      of the integer, exact up to 2^53 - 1. */
  lemma IntScientificExact(t: bytes, p: nat, minus: bool, s: nat, i: nat, negative: bool, x: nat, q: nat)
    requires Starts(t, p, minus, s, i) && IsExp(t, i, negative, x, q) && Fits(t, s, i, minus)
    ensures var d, e := Rounded(t, s, i, minus), Value(t, x, q);
            var r := ParseNumber(t, p);
            && (!negative && e <= 308 ==> r == Good(Double(minus, d, e), q))
            && (!negative && e > 308 ==> r == Bad(NumberTooBig))
            && (negative && Value(t, x, q - 1) < 214_748_364 ==>
                  r == if e <= 0x8000_0000 then Good(Double(minus, d, -(e as int)), q) else Bad(Undetermined))
            && (Value(t, s, i) <= EXACT ==> d == Value(t, s, i))
  {
    hide Value, ParseInt, FinishReal, Rounded, DBL_MAX_10;
    HeldIs(t, p, minus, s, i);
    Scaled(t, i, negative, x, q, minus, Rounded(t, s, i, minus), 0);
  }

  /** A fraction that makes a number above 2^53 - 1: how many digits are taken and what they make.
      The integer part may be any that fits 64 bits. */
  lemma LongDecimal(t: bytes, p: nat, minus: bool, s: nat, i: nat, z: nat) returns (m: nat, n: nat)
    requires Starts(t, p, minus, s, i) && IsFrac(t, i, z) && Value(t, s, i) <= Max64(minus)
    requires !IsExpLetter(Peek(t, z)) && z - i - 1 <= 0x8000_0000
    ensures i < m <= z && (m < z ==> Joined(t, s, i, m) > EXACT) && (m > i + 1 ==> Joined(t, s, i, m - 1) <= EXACT)
    ensures var c := i - s - 1 + Counted(t, s, i, m);
            n == Min(z - m, if c < 17 then 17 - c else 0)
    ensures ParseNumber(t, p)
         == Good(Double(minus, Appended(t, m, m + n, Round(Joined(t, s, i, m))), i + 1 - (m + n)), z)
  {
    hide Joined, ParseInt, ParseFrac, Round, Value, Appended, Counted;
    IntHeld(t, p, minus, s, i);
    m, n := FractionExact(t, s, i, z, ParseInt(t, s, minus).held, i - s - 1);
  }

  /** The digits that count, in closed form: all of them if the int is not zero, and otherwise
      those from the first that is not zero on. */
  lemma {:induction false} CountedIs(t: bytes, s: nat, i: nat, w: nat, q: nat)
    requires s <= i < w <= q && AllDigits(t, s, i) && AllDigits(t, i + 1, q)
    requires if Value(t, s, i) != 0 then w == i + 1
             else (forall k :: i < k < w ==> t[k] == DIGIT0) && (w < q ==> t[w] != DIGIT0)
    ensures Counted(t, s, i, q) == q - w
    decreases q
  {
    hide Value;
    if q == i + 1 {
    } else if q == w {
      ZerosCount(t, s, i, q);
    } else {
      CountedIs(t, s, i, w, q - 1);
      JoinedNext(t, s, i, q - 1);
      JoinedSome(t, s, i, w, q);
    }
  }

  lemma {:induction false} ZerosCount(t: bytes, s: nat, i: nat, q: nat)
    requires s <= i < q && AllDigits(t, s, i) && AllDigits(t, i + 1, q)
    requires Value(t, s, i) == 0 && forall k :: i < k < q ==> t[k] == DIGIT0
    ensures Counted(t, s, i, q) == 0 && Joined(t, s, i, q) == 0
    decreases q
  {
    hide Joined;
    if q == i + 1 {
      JoinedNone(t, s, i);
    } else {
      ZerosCount(t, s, i, q - 1);
      JoinedNext(t, s, i, q - 1);
    }
  }

  lemma JoinedSome(t: bytes, s: nat, i: nat, w: nat, q: nat)
    requires s <= i < w < q && AllDigits(t, s, i) && AllDigits(t, i + 1, q)
    requires Value(t, s, i) != 0 || t[w] != DIGIT0
    ensures Joined(t, s, i, q) != 0
  {
    hide Joined;
    JoinedNone(t, s, i);
    JoinedGrows(t, s, i, i + 1, w);
    JoinedNext(t, s, i, w);
    JoinedGrows(t, s, i, w + 1, q);
  }

  lemma {:induction false} ValueBelow(t: bytes, s: nat, q: nat)
    requires s <= q && AllDigits(t, s, q)
    ensures Value(t, s, q) < Pow10(q - s)
    decreases q
  {
    if s < q {
      ValueBelow(t, s, q - 1);
      assert Pow10(q - s) == 10 * Pow10(q - 1 - s);
    }
  }

  /** An int beyond 64 bits has used up the digits that count: its fraction is read and dropped. */
  lemma BigDecimal(t: bytes, p: nat, minus: bool, s: nat, i: nat, z: nat)
    requires Starts(t, p, minus, s, i) && IsFrac(t, i, z) && !IsExpLetter(Peek(t, z))
    requires Value(t, s, i) > Max64(minus) && Fits(t, s, i, minus)
    ensures ParseNumber(t, p) == Good(Double(minus, Rounded(t, s, i, minus), 0), z)
  {
    hide Value, ParseInt, ScanFracSlow, Rounded, DBL_MAX_10;
    assert t[s] != DIGIT0 by { ZeroFits(t, s); }
    ParseIntExact(t, s, minus, i);
    ManyDigits(t, s, i, minus);
    RoundedSome(t, s, i, minus);
    SlowExact(t, i + 1, z, Rounded(t, s, i, minus), 0, Fitting(t, s, i, minus) - s - 1);
    assert Appended(t, i + 1, i + 1, Rounded(t, s, i, minus)) == Rounded(t, s, i, minus);
  }

  lemma FittingNext(t: bytes, s: nat, i: nat, minus: bool)
    requires s <= i && AllDigits(t, s, i) && Value(t, s, i) > Max64(minus)
    ensures var m := Fitting(t, s, i, minus); m < i && Value(t, s, m + 1) > Max64(minus)
    decreases i
  {
    if Value(t, s, i - 1) > Max64(minus) {
      FittingNext(t, s, i - 1, minus);
    }
  }

  lemma ManyDigits(t: bytes, s: nat, i: nat, minus: bool)
    requires s <= i && AllDigits(t, s, i) && Value(t, s, i) > Max64(minus)
    ensures Fitting(t, s, i, minus) - s - 1 >= 17
  {
    hide Value, Fitting;
    FittingNext(t, s, i, minus);
    var m := Fitting(t, s, i, minus);
    ValueBelow(t, s, m + 1);
    if m + 1 - s <= 18 {
      Pow10Grows(m + 1 - s, 18);
      Eighteen();
    }
  }

  lemma Eighteen()
    ensures Pow10(18) == 1_000_000_000_000_000_000
  {
    assert Pow10(6) == 1_000_000;
    assert Pow10(12) == 1_000_000 * Pow10(6);
    assert Pow10(18) == 1_000_000 * Pow10(12);
  }

  lemma RoundedSome(t: bytes, s: nat, i: nat, minus: bool)
    requires s < i && AllDigits(t, s, i) && t[s] != DIGIT0
    ensures Rounded(t, s, i, minus) > 0
  {
    hide Round, Value, Appended;
    var m := Fitting(t, s, i, minus);
    FirstDigit(t, s);
    assert m > s by { FittingSome(t, s, i, minus); }
    ValueGrows(t, s, s + 1, m);
    RoundHalf(Value(t, s, m));
    AppendedGrows(t, m, i, Round(Value(t, s, m)));
  }

  lemma FittingSome(t: bytes, s: nat, i: nat, minus: bool)
    requires s < i && AllDigits(t, s, i)
    ensures Fitting(t, s, i, minus) > s
    decreases i
  {
    FirstDigit(t, s);
    if i > s + 1 {
      FittingSome(t, s, i - 1, minus);
    }
  }

  // ---------- what is wrong with a number ----------

  /** Behind an exponent letter at `z` there is no exponent. */
  predicate NoExp(t: bytes, z: nat) {
    && z < |t| && IsExpLetter(t[z])
    && !IsDigit(Peek(t, if Peek(t, z + 1) == PLUS || Peek(t, z + 1) == MINUS then z + 2 else z + 1))
  }

  /** No digit, a point without digits and an exponent letter without digits have codes of their
      own. */
  lemma NumberFaults(t: bytes, p: nat, minus: bool, s: nat)
    requires p <= |t| && minus == (Peek(t, p) == MINUS) && s == if minus then p + 1 else p
    ensures !IsDigit(Peek(t, s)) ==> ParseNumber(t, p) == Bad(ValueInvalid)
    ensures forall i: nat :: IsInt(t, s, i) && Fits(t, s, i, minus) && Peek(t, i) == DOT && !IsDigit(Peek(t, i + 1)) ==>
              ParseNumber(t, p) == Bad(NumberMissFraction)
    ensures forall i: nat :: IsInt(t, s, i) && Fits(t, s, i, minus) && NoExp(t, i) ==>
              ParseNumber(t, p) == Bad(NumberMissExponent)
  {
    hide Fits, Rounded, ParseFrac;
    forall i: nat | IsInt(t, s, i) && Fits(t, s, i, minus)
      ensures ParseInt(t, s, minus).IntPart? && ParseInt(t, s, minus).next == i
    {
      HeldIs(t, p, minus, s, i);
    }
    if IsDigit(Peek(t, s)) {
      hide ParseInt;
    }
  }

  // ---------- the bound of the integer loop ----------

  /** The bound is a double, and none is nearer to 1.7976931348623157e307. */
  lemma ThresholdIs(y: nat)
    ensures IsDouble(DBL_MAX_10)
    ensures IsDouble(y) ==>
              Apart(17976931348623157 * Pow10(291), DBL_MAX_10) <= Apart(17976931348623157 * Pow10(291), y)
  {
    hide Round, Pow10, IsDouble, Apart;
    RoundIsDouble(17976931348623157 * Pow10(291));
    if IsDouble(y) {
      RoundIsNearest(17976931348623157 * Pow10(291), y);
    }
  }
}
