/** The doubles in which the JSON reader collects digits: whole numbers of at most 53 significant
    bits, with rounding to the nearest and ties to even after every operation. */
module Doubles {
  const TWO52: nat := 0x10_0000_0000_0000
  const TWO53: nat := 0x20_0000_0000_0000

  function Pow2(n: nat): (r: nat)
    ensures r > 0
  {
    if n == 0 then 1 else 2 * Pow2(n - 1)
  }

  /** How many low bits of `n` a double has no room for. */
  function Dropped(n: nat): nat {
    if n < TWO53 then 0 else 1 + Dropped(n / 2)
  }

  /** The distance between neighbouring doubles around `n`. */
  function Unit(n: nat): (u: nat)
    ensures u > 0
  {
    Pow2(Dropped(n))
  }

  predicate IsDouble(n: nat) {
    n % Unit(n) == 0
  }

  /** The double that stands for `n`. */
  function Round(n: nat): nat {
    var u := Unit(n);
    var q, r := n / u, n % u;
    if 2 * r < u || (2 * r == u && q % 2 == 0) then q * u else (q + 1) * u
  }

  /** `d * 10 + digit` in doubles. */
  function Append(d: nat, digit: nat): nat {
    Round(Round(d * 10) + digit)
  }

  // ---------- rounding goes to a nearest double ----------

  lemma {:induction false} UnitFits(n: nat)
    ensures n < TWO53 * Unit(n)
    ensures n >= TWO53 ==> n >= TWO52 * Unit(n)
  {
    if n >= TWO53 {
      UnitFits(n / 2);
      Halves(n, Unit(n / 2));
      assert Unit(n) == 2 * Unit(n / 2);
      if n / 2 < TWO53 {
        assert Unit(n / 2) == 1;
      }
    }
  }

  lemma {:induction false} UnitIs(n: nat, k: nat)
    requires k > 0 && TWO52 * Pow2(k) <= n < TWO53 * Pow2(k)
    ensures Unit(n) == Pow2(k)
  {
    if k > 1 {
      Halved(n, Pow2(k - 1));
      UnitIs(n / 2, k - 1);
      AtLeast(n, Pow2(k));
    } else {
      assert Pow2(1) == 2 * Pow2(0) == 2;
      assert Dropped(n / 2) == 0;
    }
  }

  lemma Halved(n: nat, u: nat)
    requires TWO52 * (2 * u) <= n < TWO53 * (2 * u)
    ensures TWO52 * u <= n / 2 < TWO53 * u
  {
  }

  lemma AtLeast(n: nat, u: nat)
    requires u >= 2 && TWO52 * u <= n
    ensures n >= TWO53
  {
  }

  lemma Halves(n: nat, u: nat)
    ensures n / 2 < TWO53 * u ==> n < TWO53 * (2 * u)
    ensures n / 2 >= TWO52 * u ==> n >= TWO52 * (2 * u)
  {
  }

  lemma {:induction false} Pow2Grows(j: nat, k: nat)
    requires j <= k
    ensures exists m: nat :: m > 0 && Pow2(k) == m * Pow2(j)
    ensures j < k ==> exists m: nat :: m > 0 && Pow2(k) == m * (2 * Pow2(j))
  {
    if j == k {
      assert Pow2(k) == 1 * Pow2(j);
    } else {
      Pow2Grows(j, k - 1);
      var m: nat :| m > 0 && Pow2(k - 1) == m * Pow2(j);
      assert Pow2(k) == m * (2 * Pow2(j));
      assert Pow2(k) == (2 * m) * Pow2(j);
    }
  }

  lemma {:induction false} DroppedGrows(a: nat, b: nat)
    requires a <= b
    ensures Dropped(a) <= Dropped(b)
  {
    if a >= TWO53 {
      DroppedGrows(a / 2, b / 2);
    }
  }

  lemma Less(a: nat, b: nat, u: nat)
    requires a <= b
    ensures a * u <= b * u
  {
  }

  lemma Cancel(a: nat, b: nat, u: nat)
    requires a * u < b * u
    ensures a < b
  {
    if b <= a {
      Less(b, a, u);
      assert false;
    }
  }

  lemma Regroup(a: nat, b: nat, c: nat)
    ensures a * (b * c) == a * b * c
  {
  }

  /** The multiple of the unit at or below `n`. */
  function Floor(n: nat): nat {
    n / Unit(n) * Unit(n)
  }

  lemma FloorIs(n: nat)
    ensures Floor(n) <= n < Floor(n) + Unit(n)
  {
  }

  lemma RoundIs(n: nat)
    ensures || (Round(n) == Floor(n) && 2 * (n - Floor(n)) <= Unit(n))
            || (Round(n) == Floor(n) + Unit(n) && 2 * (n - Floor(n)) >= Unit(n))
  {
    hide Unit;
    var u := Unit(n);
    assert n == n / u * u + n % u && (n / u + 1) * u == n / u * u + u;
  }

  /** A double is a multiple of its unit. */
  lemma Multiple(y: nat) returns (m: nat)
    requires IsDouble(y)
    ensures y == m * Unit(y)
  {
    hide Unit;
    m := y / Unit(y);
  }

  /** A double at or above `n` is a multiple of the unit of `n`. */
  lemma MultipleAbove(n: nat, y: nat) returns (m: nat)
    requires IsDouble(y) && n <= y
    ensures y == m * Unit(n)
  {
    hide IsDouble, Pow2, Dropped;
    DroppedGrows(n, y);
    Pow2Grows(Dropped(n), Dropped(y));
    var k: nat :| k > 0 && Pow2(Dropped(y)) == k * Pow2(Dropped(n));
    var h := Multiple(y);
    Regroup(h, k, Unit(n));
    m := h * k;
  }

  /** A multiple of the unit is not between the floor of `n` and `n`. */
  lemma NoneBetween(n: nat, m: nat)
    ensures m * Unit(n) <= n ==> m * Unit(n) <= Floor(n)
    ensures m * Unit(n) > Floor(n) ==> m * Unit(n) >= Floor(n) + Unit(n)
  {
    hide Unit, Floor;
    FloorIs(n);
    var u := Unit(n);
    var q := n / u;
    assert Floor(n) == q * u by { FloorOf(n); }
    if m * u > q * u {
      Cancel(q, m, u);
      Less(q + 1, m, u);
    }
  }

  lemma FloorOf(n: nat)
    ensures Floor(n) == n / Unit(n) * Unit(n)
  {
  }

  /** A double below `n` is at most the floor of `n`. */
  lemma DoubleBelow(n: nat, y: nat)
    requires IsDouble(y) && y <= n
    ensures y <= Floor(n)
  {
    hide IsDouble, Pow2, Dropped, Floor;
    DroppedGrows(y, n);
    UnitFits(n);
    UnitFits(y);
    if Dropped(y) == Dropped(n) {
      var m := Multiple(y);
      NoneBetween(n, m);
    } else {
      assert n >= TWO53 by { SmallUnit(n); }
      Pow2Grows(Dropped(y), Dropped(n));
      var k: nat :| k > 0 && Pow2(Dropped(n)) == k * (2 * Pow2(Dropped(y)));
      Less(1, k, 2 * Unit(y));
      NoneBetween(n, TWO52);
    }
  }

  lemma SmallUnit(n: nat)
    ensures n < TWO53 ==> Dropped(n) == 0
  {
  }

  lemma DoubleAbove(n: nat, y: nat)
    requires IsDouble(y) && n <= y
    ensures n == Floor(n) || y >= Floor(n) + Unit(n)
  {
    hide IsDouble, Unit, Floor;
    FloorIs(n);
    var m := MultipleAbove(n, y);
    NoneBetween(n, m);
  }

  function Apart(a: nat, b: nat): nat {
    if a < b then b - a else a - b
  }

  /** Rounding goes to a nearest double: none is nearer. */
  lemma RoundIsNearest(n: nat, y: nat)
    requires IsDouble(y)
    ensures Apart(n, Round(n)) <= Apart(n, y)
  {
    hide IsDouble, Unit, Floor, Round;
    FloorIs(n);
    RoundIs(n);
    if y <= n {
      DoubleBelow(n, y);
    } else {
      DoubleAbove(n, y);
    }
  }

  lemma {:induction false} ShiftedIsDouble(q: nat, k: nat)
    requires q <= TWO53
    ensures IsDouble(q * Pow2(k))
  {
    if k == 0 {
      TopIsDouble(q);
    } else {
      var h := q * Pow2(k - 1);
      ShiftedIsDouble(q, k - 1);
      assert q * Pow2(k) == 2 * h;
      TwiceIsDouble(h);
    }
  }

  lemma TopIsDouble(q: nat)
    requires q <= TWO53
    ensures IsDouble(q)
  {
    if q == TWO53 {
      assert Dropped(TWO53 / 2) == 0;
      assert Pow2(0) == 1;
      assert Pow2(1) == 2;
    }
  }

  lemma TwiceIsDouble(h: nat)
    requires IsDouble(h)
    ensures IsDouble(2 * h)
  {
    if 2 * h >= TWO53 {
      hide Dropped, IsDouble, Pow2;
      var m := Multiple(h);
      assert Unit(2 * h) == 2 * Unit(h) by { UnitTwice(h); }
      MultipleIsDouble(2 * h, m);
    }
  }

  lemma UnitTwice(h: nat)
    requires 2 * h >= TWO53
    ensures Unit(2 * h) == 2 * Unit(h)
  {
    assert 2 * h / 2 == h;
  }

  lemma MultipleIsDouble(n: nat, m: nat)
    requires n == m * Unit(n)
    ensures IsDouble(n)
  {
    hide Unit, Floor;
    FloorIs(n);
    NoneBetween(n, m);
    FloorOf(n);
  }

  /** What rounding gives is a double. */
  lemma RoundIsDouble(n: nat)
    ensures IsDouble(Round(n))
  {
    hide IsDouble, Pow2, Dropped;
    UnitFits(n);
    var q := n / Unit(n);
    Cancel(q, TWO53, Unit(n));
    ShiftedIsDouble(q, Dropped(n));
    ShiftedIsDouble(q + 1, Dropped(n));
  }

  /** A double stands for itself. */
  lemma RoundOfDouble(n: nat)
    requires IsDouble(n)
    ensures Round(n) == n
  {
    hide Unit;
  }

  /** Half-way between two neighbours, the even one is taken. */
  lemma TiesToEven(n: nat) returns (m: nat)
    requires 2 * (n % Unit(n)) == Unit(n)
    ensures Round(n) == m * Unit(n) && m % 2 == 0
  {
    m := if n / Unit(n) % 2 == 0 then n / Unit(n) else n / Unit(n) + 1;
  }

  /** Whole numbers up to 2^53 are doubles. */
  lemma RoundExact(n: nat)
    requires n <= TWO53
    ensures Round(n) == n
  {
    if n == TWO53 {
      assert Dropped(TWO53 / 2) == 0;
      assert Pow2(0) == 1;
      assert Pow2(1) == 2;
    }
  }

  // ---------- appending digits ----------

  lemma RoundHalf(n: nat)
    ensures 2 * Round(n) >= n
  {
    hide Unit, Floor, Round;
    FloorIs(n);
    RoundIs(n);
    if n >= TWO53 {
      UnitFits(n);
      NoneBetween(n, 1);
    } else {
      RoundExact(n);
    }
  }

  /** A digit more never makes the double smaller. */
  lemma AppendGrows(d: nat, digit: nat)
    ensures Append(d, digit) >= d
  {
    hide Round;
    RoundHalf(d * 10);
    RoundHalf(Round(d * 10) + digit);
  }
}
