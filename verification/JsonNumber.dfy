/** ParseNumber of the JSON reader: the staged 32-bit, 64-bit and floating scan of a number. A
    significand kept in a double is a whole number that is rounded after every operation. */
module JsonNumber {
  import opened Bytes
  import opened JsonEvents
  import opened Doubles

  function DigitAt(t: bytes, p: nat): (d: int)
    requires IsDigit(Peek(t, p))
    ensures 0 <= d <= 9
  {
    Peek(t, p) - DIGIT0
  }

  predicate IsDigitAt(t: bytes, p: nat) {
    IsDigit(Peek(t, p))
  }

  /** The end of the run of digits that starts at `p`. */
  function DigitsEnd(t: bytes, p: nat): (q: nat)
    requires p <= |t|
    ensures p <= q <= |t|
    ensures !IsDigit(Peek(t, q))
    ensures forall i :: p <= i < q ==> IsDigit(t[i])
    decreases |t| - p
  {
    if IsDigit(Peek(t, p)) then DigitsEnd(t, p + 1) else p
  }

  // ---------- integer part ----------

  /** `full` says that the scan stopped at a digit that no longer fits. */
  datatype IntScan = IntScan(value: nat, next: nat, full: bool)

  /** One of the four accumulating loops: it takes digits while the value stays
      at most `limit * 10 + last`. */
  function ScanInt(t: bytes, p: nat, i: nat, limit: nat, last: nat): (r: IntScan)
    requires p <= |t|
    ensures p <= r.next <= |t|
    decreases |t| - p
  {
    if !IsDigit(Peek(t, p)) then IntScan(i, p, false)
    else if i >= limit && (i != limit || DigitAt(t, p) > last) then IntScan(i, p, true)
    else ScanInt(t, p + 1, i * 10 + DigitAt(t, p), limit, last)
  }

  const LIMIT_INT := 214748364
  const LIMIT_UINT := 429496729
  const LIMIT_INT64 := 0x0CCC_CCCC_CCCC_CCCC
  const LIMIT_UINT64 := 0x1999_9999_9999_9999

  function Limit32(minus: bool): nat { if minus then LIMIT_INT else LIMIT_UINT }
  function Limit64(minus: bool): nat { if minus then LIMIT_INT64 else LIMIT_UINT64 }
  function Last(minus: bool): nat { if minus then 8 else 5 }
  function Max32(minus: bool): nat { if minus then 0x8000_0000 else 0xFFFF_FFFF }
  function Max64(minus: bool): nat { if minus then 0x8000_0000_0000_0000 else 0xFFFF_FFFF_FFFF_FFFF }

  function Pow10(n: nat): nat {
    if n == 0 then 1 else 10 * Pow10(n - 1)
  }

  /** The double 1.7976931348623157e307, DBL_MAX / 10: with another digit to come, a significand
      this big is rejected. */
  const DBL_MAX_10: nat := Round(17976931348623157 * Pow10(291))

  datatype BigScan = TooBig | BigScan(d: nat, next: nat)

  function ScanBig(t: bytes, p: nat, d: nat): (r: BigScan)
    requires p <= |t|
    ensures r.BigScan? ==> p <= r.next <= |t|
    decreases |t| - p
  {
    if !IsDigit(Peek(t, p)) then BigScan(d, p)
    else if d >= DBL_MAX_10 then TooBig
    else ScanBig(t, p + 1, Append(d, DigitAt(t, p)))
  }

  /** How the integer part is held when the scan of its digits ends. */
  datatype Held =
    | Small(i: nat)
    | Wide(i64: nat)
    | Big(d: nat)

  datatype IntPart =
    | IntBad(code: ErrorCode)
    | IntPart(held: Held, next: nat, significandDigit: nat)

  function ParseInt(t: bytes, p: nat, minus: bool): (r: IntPart)
    requires p <= |t|
    ensures r.IntPart? ==> p < r.next <= |t|
  {
    if Peek(t, p) == DIGIT0 then IntPart(Small(0), p + 1, 0)
    else if !IsDigit(Peek(t, p)) then IntBad(ValueInvalid)
    else
      var a := ScanInt(t, p + 1, DigitAt(t, p), Limit32(minus), Last(minus));
      if !a.full then IntPart(Small(a.value), a.next, a.next - p - 1)
      else
        var b := ScanInt(t, a.next, a.value, Limit64(minus), Last(minus));
        if !b.full then IntPart(Wide(b.value), b.next, b.next - p - 1)
        else
          match ScanBig(t, b.next, Round(b.value))
          case TooBig => IntBad(NumberTooBig)
          case BigScan(d, q) => IntPart(Big(d), q, b.next - p - 1)
  }

  // ---------- fraction ----------

  const FAST: int := 0x1F_FFFF_FFFF_FFFF

  datatype FracScan = FracScan(significand: nat, next: nat, expFrac: int, significandDigit: nat)

  function ScanFracFast(t: bytes, p: nat, i64: nat, expFrac: int, sig: nat): (r: FracScan)
    requires p <= |t|
    ensures p <= r.next <= |t| && r.expFrac <= expFrac
    decreases |t| - p
  {
    if !IsDigit(Peek(t, p)) || i64 > FAST then FracScan(i64, p, expFrac, sig)
    else
      var j := i64 * 10 + DigitAt(t, p);
      ScanFracFast(t, p + 1, j, expFrac - 1, if j != 0 then sig + 1 else sig)
  }

  datatype Frac = Frac(d: nat, next: nat, expFrac: int)

  function ScanFracSlow(t: bytes, p: nat, d: nat, expFrac: int, sig: nat): (r: Frac)
    requires p <= |t|
    ensures p <= r.next <= |t| && r.expFrac <= expFrac
    decreases |t| - p
  {
    if !IsDigit(Peek(t, p)) then Frac(d, p, expFrac)
    else if sig < 17 then
      var e := Append(d, DigitAt(t, p));
      ScanFracSlow(t, p + 1, e, expFrac - 1, if e > 0 then sig + 1 else sig)
    else ScanFracSlow(t, p + 1, d, expFrac, sig)
  }

  /** The digits after the decimal point; `p` is just after the point. */
  function ParseFrac(t: bytes, p: nat, held: Held, sig: nat): (r: Frac)
    requires p <= |t|
    ensures p <= r.next <= |t| && r.expFrac <= 0
  {
    match held
    case Big(d) => ScanFracSlow(t, p, d, 0, sig)
    case Small(i) =>
      var f := ScanFracFast(t, p, i, 0, sig);
      ScanFracSlow(t, f.next, Round(f.significand), f.expFrac, f.significandDigit)
    case Wide(i) =>
      var f := ScanFracFast(t, p, i, 0, sig);
      ScanFracSlow(t, f.next, Round(f.significand), f.expFrac, f.significandDigit)
  }

  // ---------- exponent ----------

  /** The exponent and the count of fraction digits are ints; what the source does when one leaves
      its range is undetermined. */
  const INT_MAX: int := 0x7FFF_FFFF
  const INT_MIN: int := -0x8000_0000

  datatype ExpScan = ExpBad(code: ErrorCode) | ExpScan(exp: int, next: nat)

  function ScanExpMinus(t: bytes, p: nat, exp: nat): (r: ExpScan)
    requires p <= |t|
    ensures r.ExpScan? && p <= r.next <= |t|
    decreases |t| - p
  {
    if !IsDigit(Peek(t, p)) then ExpScan(-(exp as int), p)
    else
      var e := exp * 10 + DigitAt(t, p);
      if e >= LIMIT_INT then ExpScan(-(e as int), DigitsEnd(t, p + 1))
      else ScanExpMinus(t, p + 1, e)
  }

  function ScanExpPlus(t: bytes, p: nat, exp: nat, maxExp: int): (r: ExpScan)
    requires p <= |t|
    ensures r.ExpScan? ==> p <= r.next <= |t|
    decreases |t| - p
  {
    if !IsDigit(Peek(t, p)) then ExpScan(exp, p)
    else
      var e := exp * 10 + DigitAt(t, p);
      if e > INT_MAX then ExpBad(Undetermined)
      else if e > maxExp then ExpBad(NumberTooBig)
      else ScanExpPlus(t, p + 1, e, maxExp)
  }

  /** The exponent; `p` is just after the letter. */
  function ParseExp(t: bytes, p: nat, expFrac: int): (r: ExpScan)
    requires p <= |t|
    ensures r.ExpScan? ==> p < r.next <= |t|
  {
    var q := if Peek(t, p) == PLUS || Peek(t, p) == MINUS then p + 1 else p;
    if !IsDigit(Peek(t, q)) then ExpBad(NumberMissExponent)
    else if Peek(t, p) == MINUS then ScanExpMinus(t, q + 1, DigitAt(t, q))
    else if 308 - expFrac > INT_MAX then ExpBad(Undetermined)
    else ScanExpPlus(t, q + 1, DigitAt(t, q), 308 - expFrac)
  }

  // ---------- the number ----------

  function HeldDouble(h: Held): nat {
    match h
    case Small(i) => Round(i)
    case Wide(i) => Round(i)
    case Big(d) => d
  }

  predicate IsExpLetter(b: byte) {
    b == LOWER_E || b == UPPER_E
  }

  lemma NumberBytes(b: byte)
    ensures IsExpLetter(b) <==> b == 'e' as int || b == 'E' as int
    ensures MINUS == '-' as int && PLUS == '+' as int && DOT == '.' as int && DIGIT0 == '0' as int
  {
  }

  /** From the integer part on. */
  function ParseRest(t: bytes, minus: bool, n: IntPart): (r: Token)
    requires n.IntPart? && n.next <= |t|
    ensures r.Good? ==> n.next <= r.next <= |t|
  {
    if Peek(t, n.next) == DOT then
      if !IsDigit(Peek(t, n.next + 1)) then Bad(NumberMissFraction)
      else
        var f := ParseFrac(t, n.next + 1, n.held, n.significandDigit);
        FinishReal(t, f.next, minus, f.d, f.expFrac)
    else if IsExpLetter(Peek(t, n.next)) then
      FinishReal(t, n.next, minus, HeldDouble(n.held), 0)
    else
      Good(match n.held
           case Small(i) => if minus then Int(-(i as int)) else Uint(i)
           case Wide(i) => if minus then Int64(-(i as int)) else Uint64(i)
           case Big(d) => Double(minus, d, 0),
           n.next)
  }

  /** The optional exponent of a number already known to be a double. The count of fraction digits
      only falls, so if it ever left the range of an int it is still outside. */
  function FinishReal(t: bytes, p: nat, minus: bool, d: nat, expFrac: int): (r: Token)
    requires p <= |t|
    ensures r.Good? ==> p <= r.next <= |t|
  {
    if expFrac < INT_MIN then Bad(Undetermined)
    else if IsExpLetter(Peek(t, p)) then
      match ParseExp(t, p + 1, expFrac)
      case ExpBad(code) => Bad(code)
      case ExpScan(exp, q) =>
        if exp + expFrac < INT_MIN then Bad(Undetermined) else Good(Double(minus, d, exp + expFrac), q)
    else Good(Double(minus, d, expFrac), p)
  }

  function ParseNumber(t: bytes, p: nat): (r: Token)
    requires p <= |t|
    ensures r.Good? ==> p < r.next <= |t|
  {
    var minus := Peek(t, p) == MINUS;
    var n := ParseInt(t, if minus then p + 1 else p, minus);
    match n
    case IntBad(code) => Bad(code)
    case IntPart(_, _, _) => ParseRest(t, minus, n)
  }

  // ---------- integers are exact and narrowest ----------

  /** The value of the digits of t between p and q. */
  function Value(t: bytes, p: nat, q: nat): (v: nat)
    requires p <= q <= |t|
    requires forall i :: p <= i < q ==> IsDigit(t[i])
    decreases q
  {
    if p == q then 0 else Value(t, p, q - 1) * 10 + DigitAt(t, q - 1)
  }

  lemma {:induction false} ValueGrows(t: bytes, p: nat, m: nat, q: nat)
    requires p <= m <= q <= |t|
    requires forall i :: p <= i < q ==> IsDigit(t[i])
    ensures Value(t, p, m) <= Value(t, p, q)
    ensures m < q ==> Value(t, p, q) >= Value(t, p, m) * 10 + DigitAt(t, m)
    decreases q
  {
    if m < q {
      ValueGrows(t, p, m, q - 1);
    }
  }

  /** What a scan that starts with the value of t[s..p] ends with: the value of the digits
      it took, never above the maximum, and stuck only when the next digit would exceed it. */
  lemma {:induction false} ScanIntExact(t: bytes, s: nat, p: nat, i: nat, limit: nat, last: nat)
    requires s <= p <= |t| && last <= 9
    requires forall k :: s <= k < p ==> IsDigit(t[k])
    requires i == Value(t, s, p) && i <= limit * 10 + last
    ensures var r := ScanInt(t, p, i, limit, last);
            && r.next <= DigitsEnd(t, p)
            && (forall k :: s <= k < r.next ==> IsDigit(t[k]))
            && r.value == Value(t, s, r.next) <= limit * 10 + last
            && (r.full ==> IsDigit(Peek(t, r.next)) && Value(t, s, r.next + 1) > limit * 10 + last)
            && (!r.full ==> r.next == DigitsEnd(t, p))
    decreases |t| - p
  {
    hide Value;
    if IsDigit(Peek(t, p)) {
      ValueNext(t, s, p);
      if !(i >= limit && (i != limit || DigitAt(t, p) > last)) {
        ScanIntExact(t, s, p + 1, i * 10 + DigitAt(t, p), limit, last);
      }
    }
  }

  lemma ValueNext(t: bytes, s: nat, p: nat)
    requires s <= p && IsDigit(Peek(t, p)) && forall k :: s <= k < p ==> k < |t| && IsDigit(t[k])
    ensures Value(t, s, p + 1) == Value(t, s, p) * 10 + DigitAt(t, p)
  {
  }

  /** The text at `p` is an integer of the grammar that no fraction or exponent follows. */
  predicate IsInteger(t: bytes, p: nat, minus: bool, q: nat)
  {
    && p < q <= |t|
    && minus == (t[p] == MINUS)
    && var s := if minus then p + 1 else p;
       && s < q
       && (forall i :: s <= i < q ==> IsDigit(t[i]))
       && (t[s] == DIGIT0 ==> q == s + 1)
       && (t[s] != DIGIT0 ==> !IsDigit(Peek(t, q)))
       && Peek(t, q) != DOT && !IsExpLetter(Peek(t, q))
  }

  function Magnitude(t: bytes, p: nat, minus: bool, q: nat): nat
    requires IsInteger(t, p, minus, q)
  {
    Value(t, if minus then p + 1 else p, q)
  }

  /** The narrowest integer event of that sign that holds a magnitude, if one does. */
  function Narrowest(minus: bool, v: nat): (e: Event)
    requires v <= Max64(minus)
  {
    if v <= Max32(minus) then (if minus then Int(-(v as int)) else Uint(v))
    else (if minus then Int64(-(v as int)) else Uint64(v))
  }

  lemma {:induction false} DigitsEndUnique(t: bytes, p: nat, q: nat)
    requires p <= q <= |t|
    requires forall i :: p <= i < q ==> IsDigit(t[i])
    requires !IsDigit(Peek(t, q))
    ensures DigitsEnd(t, p) == q
    decreases q - p
  {
    if p < q {
      assert IsDigit(t[p]);
      DigitsEndUnique(t, p + 1, q);
    }
  }

  /** The digits of t between p and q appended to a double. */
  function Appended(t: bytes, p: nat, q: nat, d: nat): nat
    requires p <= q <= |t|
    requires forall i :: p <= i < q ==> IsDigit(t[i])
    decreases q - p
  {
    if p == q then d else Appended(t, p + 1, q, Append(d, DigitAt(t, p)))
  }

  lemma {:induction false} AppendedGrows(t: bytes, p: nat, q: nat, d: nat)
    requires p <= q <= |t|
    requires forall i :: p <= i < q ==> IsDigit(t[i])
    ensures Appended(t, p, q, d) >= d
    decreases q - p
  {
    hide Append;
    if p < q {
      AppendGrows(d, DigitAt(t, p));
      AppendedGrows(t, p + 1, q, Append(d, DigitAt(t, p)));
    }
  }

  /** The big-integer loop appends every digit, unless all of them but the last make a tenth of
      the largest double or more. */
  lemma {:induction false} ScanBigExact(t: bytes, p: nat, d: nat)
    requires p <= |t|
    ensures var q := DigitsEnd(t, p);
            ScanBig(t, p, d) ==
              if p < q && Appended(t, p, q - 1, d) >= DBL_MAX_10 then TooBig
              else BigScan(Appended(t, p, q, d), q)
    decreases |t| - p
  {
    hide DBL_MAX_10, Append;
    if IsDigit(Peek(t, p)) {
      var q := DigitsEnd(t, p);
      if d >= DBL_MAX_10 {
        AppendedGrows(t, p, q - 1, d);
      } else {
        ScanBigExact(t, p + 1, Append(d, DigitAt(t, p)));
      }
    }
  }

  /** Where the 64-bit stage ends: after the longest beginning of the run whose value fits. */
  function Fitting(t: bytes, s: nat, q: nat, minus: bool): (m: nat)
    requires s <= q <= |t|
    requires forall i :: s <= i < q ==> IsDigit(t[i])
    ensures s <= m <= q
    decreases q
  {
    if Value(t, s, q) <= Max64(minus) || s == q then q else Fitting(t, s, q - 1, minus)
  }

  lemma {:induction false} FittingIs(t: bytes, s: nat, m: nat, q: nat, minus: bool)
    requires s <= m <= q <= |t|
    requires forall i :: s <= i < q ==> IsDigit(t[i])
    requires Value(t, s, m) <= Max64(minus) && (m < q ==> Value(t, s, m + 1) > Max64(minus))
    ensures Fitting(t, s, q, minus) == m
    decreases q
  {
    if m < q {
      ValueGrows(t, s, m + 1, q);
      FittingIs(t, s, m, q - 1, minus);
    }
  }

  /** What the reader holds of an integer in a double: the part that fits 64 bits, rounded, with
      the other digits appended. */
  function Rounded(t: bytes, s: nat, q: nat, minus: bool): nat
    requires s <= q <= |t|
    requires forall i :: s <= i < q ==> IsDigit(t[i])
  {
    var m := Fitting(t, s, q, minus);
    Appended(t, m, q, Round(Value(t, s, m)))
  }

  /** A run of digits that starts like an integer of the grammar. */
  predicate IsRun(t: bytes, s: nat, q: nat) {
    && s < q <= |t|
    && (forall i :: s <= i < q ==> IsDigit(t[i]))
    && t[s] != DIGIT0
    && !IsDigit(Peek(t, q))
  }

  /** Value extends over a run: a scan that got stuck shows that the whole run is too large. */
  lemma StuckIsTooLarge(t: bytes, s: nat, p: nat, q: nat, max: nat)
    requires IsRun(t, s, q) && s <= p <= q && p < |t|
    requires forall k :: s <= k <= p ==> IsDigit(t[k])
    requires Value(t, s, p + 1) > max
    ensures p < q && Value(t, s, q) > max
  {
    ValueGrows(t, s, p + 1, q);
  }

  lemma First32(t: bytes, s: nat, minus: bool, q: nat)
    requires IsRun(t, s, q)
    ensures var v := Value(t, s, q);
            var a := ScanInt(t, s + 1, DigitAt(t, s), Limit32(minus), Last(minus));
            && a.full == (v > Max32(minus))
            && s < a.next <= q
            && a.value == Value(t, s, a.next) <= Max32(minus)
            && (!a.full ==> a.next == q)
  {
    assert Value(t, s, s) == 0;
    assert Value(t, s, s + 1) == DigitAt(t, s);
    DigitsEndUnique(t, s + 1, q);
    ScanIntExact(t, s, s + 1, DigitAt(t, s), Limit32(minus), Last(minus));
    var a := ScanInt(t, s + 1, DigitAt(t, s), Limit32(minus), Last(minus));
    if a.full {
      StuckIsTooLarge(t, s, a.next, q, Max32(minus));
    }
  }

  lemma Then64(t: bytes, s: nat, p: nat, minus: bool, q: nat)
    requires IsRun(t, s, q) && s < p <= q
    requires Value(t, s, p) <= Max64(minus)
    ensures var v := Value(t, s, q);
            var b := ScanInt(t, p, Value(t, s, p), Limit64(minus), Last(minus));
            && b.full == (v > Max64(minus))
            && p <= b.next <= q
            && b.value == Value(t, s, b.next) <= Max64(minus)
            && b.next == Fitting(t, s, q, minus)
            && (if b.full then b.next < q else b.next == q)
  {
    DigitsEndUnique(t, p, q);
    ScanIntExact(t, s, p, Value(t, s, p), Limit64(minus), Last(minus));
    var b := ScanInt(t, p, Value(t, s, p), Limit64(minus), Last(minus));
    if b.full {
      StuckIsTooLarge(t, s, b.next, q, Max64(minus));
    }
    FittingIs(t, s, b.next, q, minus);
  }

  lemma ParseIntExact(t: bytes, s: nat, minus: bool, q: nat)
    requires IsRun(t, s, q)
    ensures var v := Value(t, s, q);
            var r := ParseInt(t, s, minus);
            && (r.IntPart? ==> r.significandDigit == Fitting(t, s, q, minus) - s - 1)
            && (v <= Max64(minus) ==>
                  r.IntPart? && r.next == q
                  && r.held == if v <= Max32(minus) then Small(v) else Wide(v))
            && (v > Max64(minus) ==>
                  if Rounded(t, s, q - 1, minus) >= DBL_MAX_10 then r == IntBad(NumberTooBig)
                  else r.IntPart? && r.next == q && r.held == Big(Rounded(t, s, q, minus)))
  {
    hide ScanInt, ScanBig, Value, Appended, Round, DBL_MAX_10;
    First32(t, s, minus, q);
    assert Value(t, s, q) <= Max64(minus) ==> Fitting(t, s, q, minus) == q;
    var a := ScanInt(t, s + 1, DigitAt(t, s), Limit32(minus), Last(minus));
    if a.full {
      Then64(t, s, a.next, minus, q);
      var b := ScanInt(t, a.next, a.value, Limit64(minus), Last(minus));
      if b.full {
        DigitsEndUnique(t, b.next, q);
        ScanBigExact(t, b.next, Round(b.value));
      }
    }
  }

  /** Every integer text is consumed whole. If its value fits 64 bits the event is the
      narrowest kind that holds it, with exactly that value. Otherwise it is the double that
      rounding after every digit gives, unless that double without the last digit is a tenth of
      the largest one or more: exactly those numbers are too big. */
  lemma IntegerExact(t: bytes, p: nat, minus: bool, q: nat)
    requires IsInteger(t, p, minus, q)
    ensures var v := Magnitude(t, p, minus, q);
            var s := if minus then p + 1 else p;
            && (v <= Max64(minus) ==> ParseNumber(t, p) == Good(Narrowest(minus, v), q))
            && (v > Max64(minus) ==>
                  ParseNumber(t, p) ==
                    if Rounded(t, s, q - 1, minus) >= DBL_MAX_10 then Bad(NumberTooBig)
                    else Good(Double(minus, Rounded(t, s, q, minus), 0), q))
  {
    hide ParseInt, Value, DBL_MAX_10, ParseFrac, FinishReal, Rounded;
    var s := if minus then p + 1 else p;
    if t[s] == DIGIT0 {
      ZeroInt(t, s, minus);
    } else {
      ParseIntExact(t, s, minus, q);
    }
  }

  // ---------- when the digits survive ----------

  /** Every partial value from `m` on, and ten times it where a digit follows, is a double. */
  predicate AllDoubles(t: bytes, s: nat, m: nat, q: nat)
    requires s <= m <= q <= |t|
    requires forall i :: s <= i < q ==> IsDigit(t[i])
  {
    forall k :: m <= k <= q ==> IsDouble(Value(t, s, k)) && (k < q ==> IsDouble(Value(t, s, k) * 10))
  }

  lemma {:induction false} AppendedIsDouble(t: bytes, p: nat, q: nat, d: nat)
    requires p <= q <= |t| && IsDouble(d)
    requires forall i :: p <= i < q ==> IsDigit(t[i])
    ensures IsDouble(Appended(t, p, q, d))
    decreases q - p
  {
    hide IsDouble, Round;
    if p < q {
      RoundIsDouble(Round(d * 10) + DigitAt(t, p));
      AppendedIsDouble(t, p + 1, q, Append(d, DigitAt(t, p)));
    }
  }

  lemma {:induction false} AppendedExact(t: bytes, s: nat, p: nat, q: nat)
    requires s <= p <= q <= |t|
    requires forall i :: s <= i < q ==> IsDigit(t[i])
    requires AllDoubles(t, s, p, q)
    ensures Appended(t, p, q, Value(t, s, p)) == Value(t, s, q)
    decreases q - p
  {
    hide IsDouble, Round, Value;
    if p < q {
      ValueNext(t, s, p);
      RoundOfDouble(Value(t, s, p) * 10);
      RoundOfDouble(Value(t, s, p + 1));
      AppendedExact(t, s, p + 1, q);
    }
  }

  /** The double that the reader holds is the value only if the value is a double, and it is if
      every partial value beyond 64 bits and ten times it is one. */
  lemma DigitsSurvive(t: bytes, s: nat, q: nat, minus: bool)
    requires s <= q <= |t|
    requires forall i :: s <= i < q ==> IsDigit(t[i])
    ensures Rounded(t, s, q, minus) == Value(t, s, q) ==> IsDouble(Value(t, s, q))
    ensures AllDoubles(t, s, Fitting(t, s, q, minus), q) ==> Rounded(t, s, q, minus) == Value(t, s, q)
  {
    hide IsDouble, Round, Value, Appended, Fitting;
    var m := Fitting(t, s, q, minus);
    RoundIsDouble(Value(t, s, m));
    AppendedIsDouble(t, m, q, Round(Value(t, s, m)));
    if AllDoubles(t, s, m, q) {
      RoundOfDouble(Value(t, s, m));
      AppendedExact(t, s, m, q);
    }
  }

  /** A number that is a double can come out as another one: the digits without the last are not,
      and what rounding does to them is kept. */
  lemma DoubleMisread(t: bytes, p: nat, q: nat)
    requires IsInteger(t, p, false, q) && Magnitude(t, p, false, q) == 60391400817472610304
    ensures IsDouble(60391400817472610304)
    ensures ParseNumber(t, p) == Good(Double(false, 60391400817472618496, 0), q)
  {
    hide ParseNumber, DBL_MAX_10, Append, Round, IsDouble;
    IntegerExact(t, p, false, q);
    assert Value(t, p, q - 1) == 6039140081747261030 && DigitAt(t, q - 1) == 4;
    FittingIs(t, p, q - 1, q, false);
    FittingIs(t, p, q - 1, q - 1, false);
    NearestHere();
    AppendHere();
    ItselfHere();
    ThresholdIsLarge();
    assert Rounded(t, p, q - 1, false) == 6039140081747261440;
    assert Appended(t, q, q, 60391400817472618496) == 60391400817472618496;
    assert Appended(t, q - 1, q, 6039140081747261440) == 60391400817472618496;
  }

  lemma PowersHere()
    ensures Pow2(10) == 1024 && Pow2(13) == 8192
  {
  }

  lemma NearestHere()
    ensures Round(6039140081747261030) == 6039140081747261440
  {
    hide Pow2, Dropped, Unit;
    PowersHere();
    UnitIs(6039140081747261030, 10);
  }

  lemma AppendHere()
    ensures Append(6039140081747261440, 4) == 60391400817472618496
  {
    hide Pow2, Dropped, Unit;
    PowersHere();
    UnitIs(60391400817472614400, 13);
    UnitIs(60391400817472618500, 13);
  }

  lemma ItselfHere()
    ensures IsDouble(60391400817472610304)
  {
    hide Pow2, Dropped, Unit;
    PowersHere();
    UnitIs(60391400817472610304, 13);
  }

  lemma {:induction false} ThresholdIsLarge()
    ensures DBL_MAX_10 > U64 / 3
  {
    hide Round;
    Pow10Grows(3, 291);
    assert Pow10(3) == 1000;
    RoundHalf(17976931348623157 * Pow10(291));
  }

  lemma {:induction false} Pow10Grows(j: nat, k: nat)
    requires j <= k
    ensures Pow10(j) <= Pow10(k)
  {
    if j < k {
      Pow10Grows(j, k - 1);
    }
  }

  lemma ZeroInt(t: bytes, s: nat, minus: bool)
    requires s < |t| && t[s] == DIGIT0
    ensures ParseInt(t, s, minus) == IntPart(Small(0), s + 1, 0) && Value(t, s, s + 1) == 0
  {
    assert Value(t, s, s) == 0;
  }

  // ---------- RFC 4627, section 2.4 ----------

  /** The end of the number at `p`: [ minus ] int [ frac ] [ exp ], where a point or an exponent
      letter that follows must start a complete frac or exp. */
  function NumberEnd(t: bytes, p: nat): (r: Option<nat>)
    requires p <= |t|
  {
    var s := if Peek(t, p) == MINUS then p + 1 else p;
    if !IsDigit(Peek(t, s)) then None
    else
      FractionEnd(t, if Peek(t, s) == DIGIT0 then s + 1 else DigitsEnd(t, s))
  }

  function ExponentEnd(t: bytes, p: nat): (r: Option<nat>)
    requires p <= |t|
  {
    if !IsExpLetter(Peek(t, p)) then Some(p)
    else
      var q := if Peek(t, p + 1) == PLUS || Peek(t, p + 1) == MINUS then p + 2 else p + 1;
      if IsDigit(Peek(t, q)) then Some(DigitsEnd(t, q)) else None
  }

  lemma {:induction false} FracFastEnds(t: bytes, p: nat, i64: nat, expFrac: int, sig: nat)
    requires p <= |t|
    ensures DigitsEnd(t, ScanFracFast(t, p, i64, expFrac, sig).next) == DigitsEnd(t, p)
    decreases |t| - p
  {
    if IsDigit(Peek(t, p)) && i64 <= FAST {
      var j := i64 * 10 + DigitAt(t, p);
      FracFastEnds(t, p + 1, j, expFrac - 1, if j != 0 then sig + 1 else sig);
    }
  }

  lemma {:induction false} FracSlowEnds(t: bytes, p: nat, d: nat, expFrac: int, sig: nat)
    requires p <= |t|
    ensures ScanFracSlow(t, p, d, expFrac, sig).next == DigitsEnd(t, p)
    decreases |t| - p
  {
    if IsDigit(Peek(t, p)) {
      if sig < 17 {
        var e := Append(d, DigitAt(t, p));
        FracSlowEnds(t, p + 1, e, expFrac - 1, if e > 0 then sig + 1 else sig);
      } else {
        FracSlowEnds(t, p + 1, d, expFrac, sig);
      }
    }
  }

  lemma FastThenSlowEnds(t: bytes, p: nat, i: nat, sig: nat)
    requires p <= |t|
    ensures var f := ScanFracFast(t, p, i, 0, sig);
            ScanFracSlow(t, f.next, Round(f.significand), f.expFrac, f.significandDigit).next == DigitsEnd(t, p)
  {
    var f := ScanFracFast(t, p, i, 0, sig);
    FracFastEnds(t, p, i, 0, sig);
    FracSlowEnds(t, f.next, Round(f.significand), f.expFrac, f.significandDigit);
  }

  lemma ParseFracEnds(t: bytes, p: nat, held: Held, sig: nat)
    requires p <= |t|
    ensures ParseFrac(t, p, held, sig).next == DigitsEnd(t, p)
  {
    match held
    case Big(d) => FracSlowEnds(t, p, d, 0, sig);
    case Small(i) => FastThenSlowEnds(t, p, i, sig);
    case Wide(i) => FastThenSlowEnds(t, p, i, sig);
  }

  /** The number is one of the grammar and out of some range. */
  predicate IsRange(code: ErrorCode) {
    code == NumberTooBig || code == Undetermined
  }

  lemma {:induction false} ScanExpEnds(t: bytes, p: nat, exp: nat, maxExp: int)
    requires p <= |t|
    ensures ScanExpMinus(t, p, exp).next == DigitsEnd(t, p)
    ensures var r := ScanExpPlus(t, p, exp, maxExp);
            if r.ExpScan? then r.next == DigitsEnd(t, p) else IsRange(r.code)
    decreases |t| - p
  {
    if IsDigit(Peek(t, p)) {
      ScanExpEnds(t, p + 1, exp * 10 + DigitAt(t, p), maxExp);
    }
  }

  lemma OneDigit(t: bytes, q: nat)
    requires q < |t| && IsDigit(t[q])
    ensures DigitsEnd(t, q) == DigitsEnd(t, q + 1)
  {
  }

  lemma FinishRealEnds(t: bytes, p: nat, minus: bool, d: nat, expFrac: int)
    requires p <= |t|
    ensures var r := FinishReal(t, p, minus, d, expFrac);
            match r
            case Good(_, q) => ExponentEnd(t, p) == Some(q)
            case Bad(code) => IsRange(code) || ExponentEnd(t, p) == None
  {
    hide DigitsEnd, ScanExpMinus, ScanExpPlus;
    if IsExpLetter(Peek(t, p)) {
      var q := if Peek(t, p + 1) == PLUS || Peek(t, p + 1) == MINUS then p + 2 else p + 1;
      if IsDigit(Peek(t, q)) {
        assert DigitsEnd(t, q) == DigitsEnd(t, q + 1) by { OneDigit(t, q); }
        ScanExpEnds(t, q + 1, DigitAt(t, q), 308 - expFrac);
      }
    }
  }

  lemma ParseIntEnds(t: bytes, s: nat, minus: bool)
    requires s <= |t|
    ensures var r := ParseInt(t, s, minus);
            match r
            case IntPart(_, q, _) => IsDigit(Peek(t, s)) && q == if Peek(t, s) == DIGIT0 then s + 1 else DigitsEnd(t, s)
            case IntBad(code) => code == NumberTooBig || !IsDigit(Peek(t, s))
  {
    if IsDigit(Peek(t, s)) && Peek(t, s) != DIGIT0 {
      ParseIntExact(t, s, minus, DigitsEnd(t, s));
    }
  }

  /** The grammar after the integer part. */
  function FractionEnd(t: bytes, i: nat): (r: Option<nat>)
    requires i <= |t|
  {
    if Peek(t, i) != DOT then ExponentEnd(t, i)
    else if !IsDigit(Peek(t, i + 1)) then None
    else ExponentEnd(t, DigitsEnd(t, i + 1))
  }

  lemma RestEnds(t: bytes, minus: bool, n: IntPart)
    requires n.IntPart? && n.next <= |t|
    ensures match ParseRest(t, minus, n)
            case Good(_, q) => FractionEnd(t, n.next) == Some(q)
            case Bad(code) => IsRange(code) || FractionEnd(t, n.next) == None
  {
    hide ParseFrac, DigitsEnd;
    if Peek(t, n.next) == DOT {
      if IsDigit(Peek(t, n.next + 1)) {
        ParseFracEnds(t, n.next + 1, n.held, n.significandDigit);
        var f := ParseFrac(t, n.next + 1, n.held, n.significandDigit);
        FinishRealEnds(t, f.next, minus, f.d, f.expFrac);
      }
    } else {
      FinishRealEnds(t, n.next, minus, HeldDouble(n.held), 0);
    }
  }

  /** ParseNumber accepts only numbers of the grammar and consumes all of their digits, fraction
      and exponent; apart from numbers that are too big, and those whose exponent arithmetic leaves
      the range of an int, it rejects only text that starts no number, or that starts a fraction or
      an exponent and does not complete it. */
  lemma NumberGrammar(t: bytes, p: nat)
    requires p <= |t|
    ensures match ParseNumber(t, p)
            case Good(_, q) => NumberEnd(t, p) == Some(q)
            case Bad(code) => IsRange(code) || NumberEnd(t, p) == None
  {
    hide ParseInt, ParseRest, FractionEnd, DigitsEnd;
    var minus := Peek(t, p) == MINUS;
    var s := if minus then p + 1 else p;
    ParseIntEnds(t, s, minus);
    var n := ParseInt(t, s, minus);
    if n.IntPart? {
      RestEnds(t, minus, n);
    }
  }

  /** With fewer than two hundred million fraction digits, the one thing that can leave the range
      of an int is the sum of a negative exponent and the fraction count. */
  lemma FinishDetermined(t: bytes, p: nat, minus: bool, d: nat, expFrac: int)
    requires p <= |t| && -200_000_000 < expFrac <= 0
    ensures FinishReal(t, p, minus, d, expFrac) == Bad(Undetermined) <==>
              && IsExpLetter(Peek(t, p))
              && var r := ParseExp(t, p + 1, expFrac);
                 r.ExpScan? && r.exp + expFrac < INT_MIN
  {
    if IsExpLetter(Peek(t, p)) {
      var q := if Peek(t, p + 1) == PLUS || Peek(t, p + 1) == MINUS then p + 2 else p + 1;
      if IsDigit(Peek(t, q)) {
        PlusDetermined(t, q + 1, DigitAt(t, q), 308 - expFrac);
      }
    }
  }

  lemma {:induction false} PlusDetermined(t: bytes, p: nat, exp: nat, maxExp: int)
    requires p <= |t| && 9 <= maxExp < 200_000_308 && exp <= maxExp
    ensures var r := ScanExpPlus(t, p, exp, maxExp);
            if r.ExpBad? then r.code == NumberTooBig else 0 <= r.exp <= maxExp
    decreases |t| - p
  {
    if IsDigit(Peek(t, p)) && exp * 10 + DigitAt(t, p) <= maxExp {
      PlusDetermined(t, p + 1, exp * 10 + DigitAt(t, p), maxExp);
    }
  }

  /** A short number for which it does: 0.0000000001e-2147483639. */
  const TINY: bytes :=
    [48, 46, 48, 48, 48, 48, 48, 48, 48, 48, 48, 49, 101, 45, 50, 49, 52, 55, 52, 56, 51, 54, 51, 57]

  lemma TinyUndetermined()
    ensures ParseNumber(TINY, 0) == Bad(Undetermined) && NumberEnd(TINY, 0) == Some(|TINY|)
  {
    TinyBytes();
    hide TINY, ParseFrac, ParseExp, NumberEnd;
    TinyFraction();
    TinyExponent();
    TinyEnds();
  }

  lemma TinyBytes()
    ensures |TINY| == 24 && Peek(TINY, 0) == DIGIT0 && Peek(TINY, 1) == DOT && Peek(TINY, 12) == LOWER_E
    ensures Peek(TINY, 13) == MINUS && Peek(TINY, 11) == 49 && Peek(TINY, 24) == NUL
    ensures forall i :: 2 <= i < 11 ==> Peek(TINY, i) == DIGIT0
    ensures Peek(TINY, 14) == 50 && Peek(TINY, 15) == 49 && Peek(TINY, 16) == 52 && Peek(TINY, 17) == 55
    ensures Peek(TINY, 18) == 52 && Peek(TINY, 19) == 56 && Peek(TINY, 20) == 51 && Peek(TINY, 21) == 54
    ensures Peek(TINY, 22) == 51 && Peek(TINY, 23) == 57
  {
  }

  lemma {:induction false} ZerosScan(t: bytes, p: nat, q: nat, expFrac: int)
    requires p <= q <= |t| && forall i :: p <= i < q ==> Peek(t, i) == DIGIT0
    ensures ScanFracFast(t, p, 0, expFrac, 0) == ScanFracFast(t, q, 0, expFrac - (q - p), 0)
    decreases q - p
  {
    if p < q {
      ZerosScan(t, p + 1, q, expFrac - 1);
    }
  }

  lemma TinyFraction()
    ensures ParseFrac(TINY, 2, Small(0), 0) == Frac(1, 12, -10)
  {
    TinyBytes();
    hide TINY;
    ZerosScan(TINY, 2, 11, 0);
    assert ScanFracFast(TINY, 12, 1, -10, 1) == FracScan(1, 12, -10, 1);
    assert ScanFracFast(TINY, 11, 0, -9, 0) == FracScan(1, 12, -10, 1);
    RoundExact(1);
  }

  lemma MinusNext(t: bytes, p: nat, exp: nat, digit: nat)
    requires p < |t| && digit <= 9 && Peek(t, p) == DIGIT0 + digit && exp * 10 + digit < LIMIT_INT
    ensures ScanExpMinus(t, p, exp) == ScanExpMinus(t, p + 1, exp * 10 + digit)
  {
  }

  lemma TinyExponent()
    ensures ParseExp(TINY, 13, -10) == ExpScan(-2147483639, 24)
  {
    TinyBytes();
    hide TINY;
    assert DigitsEnd(TINY, 24) == 24;
    assert ScanExpMinus(TINY, 23, 214748363) == ExpScan(-2147483639, 24);
    hide ScanExpMinus;
    MinusNext(TINY, 22, 21474836, 3);
    MinusNext(TINY, 21, 2147483, 6);
    MinusNext(TINY, 20, 214748, 3);
    MinusNext(TINY, 19, 21474, 8);
    MinusNext(TINY, 18, 2147, 4);
    MinusNext(TINY, 17, 214, 7);
    MinusNext(TINY, 16, 21, 4);
    MinusNext(TINY, 15, 2, 1);
  }

  lemma TinyEnds()
    ensures NumberEnd(TINY, 0) == Some(|TINY|)
  {
    TinyBytes();
    hide TINY, DigitsEnd;
    assert forall i :: 2 <= i < 12 ==> IsDigit(TINY[i]) by {
      assert forall i :: 2 <= i < 12 ==> TINY[i] == Peek(TINY, i);
    }
    DigitsEndUnique(TINY, 2, 12);
    assert forall i :: 14 <= i < 24 ==> TINY[i] == Peek(TINY, i);
    DigitsEndUnique(TINY, 14, 24);
  }
}
