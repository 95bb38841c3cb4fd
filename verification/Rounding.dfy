/** Integers as doubles: what the conversion in C makes of them, and that it is the nearest double. */
module Rounding {
  import opened Arithmetic
  import opened Objects
  import opened Doubles

  function Log2(n: nat): nat
  {
    if n < 2 then 0 else 1 + Log2(n / 2)
  }

  /** n / 2^k rounded to the nearest integer, to the even one of two. */
  function RoundedShift(n: nat, k: nat): nat
  {
    var q, r := n / Pow2(k), n % Pow2(k);
    if 2 * r > Pow2(k) || (2 * r == Pow2(k) && q % 2 == 1) then q + 1 else q
  }

  /** The pattern of the double nearest to n. */
  function DoubleOf(n: int): nat
  {
    if n < 0 then TWO_63 + Magnitude(-n) else Magnitude(n)
  }

  function Magnitude(n: nat): nat
  {
    if n == 0 then 0 else
      var e := Log2(n);
      var m := if e <= 52 then n * Pow2(52 - e) else RoundedShift(n, e - 52);
      (e + 1022) * TWO_52 + m
  }

  /** The pattern of 1. */
  const ONE: nat := 0x3ff0_0000_0000_0000

  lemma {:induction false} Log2Bounds(n: nat)
    requires n > 0
    ensures Pow2(Log2(n)) <= n < 2 * Pow2(Log2(n))
  {
    if n >= 2 {
      Log2Bounds(n / 2);
    }
  }

  lemma Log2Fits(n: nat, k: nat)
    requires 0 < n <= Pow2(k)
    ensures Log2(n) <= k
  {
    Log2Bounds(n);
    Pow2Grows(k + 1, if Log2(n) > k then Log2(n) else k + 1);
  }

  /** The 53 bits in front, and what is behind them, in units of 2^k. */
  function Leading(n: nat): nat
    requires n > 0
  {
    var e := Log2(n);
    if e <= 52 then n * Pow2(52 - e) else n / Pow2(e - 52)
  }

  function Trailing(n: nat): nat
    requires n > 0
  {
    var e := Log2(n);
    if e <= 52 then 0 else n % Pow2(e - 52)
  }

  lemma LeadingFits(n: nat)
    requires n > 0
    ensures TWO_52 <= Leading(n) < 2 * TWO_52
  {
    var e := Log2(n);
    Log2Bounds(n);
    Pow2Of52();
    if e <= 52 {
      Pow2Sum(e, 52 - e);
      Scaled(n, Pow2(e), Pow2(52 - e), TWO_52);
    } else {
      Pow2Sum(52, e - 52);
      Divided(n, Pow2(e - 52), TWO_52);
    }
  }

  lemma Scaled(n: nat, q: nat, p: nat, t: nat)
    requires q <= n < 2 * q && q * p == t && p > 0
    ensures t <= n * p < 2 * t
  {
    Monotonic(q, n, p);
    Monotonic(n + 1, 2 * q, p);
    assert (n + 1) * p == n * p + p && 2 * q * p == 2 * (q * p);
  }

  lemma Monotonic(a: nat, b: nat, p: nat)
    ensures a <= b ==> a * p <= b * p
  {
  }

  lemma Divided(n: nat, p: nat, t: nat)
    requires p > 0 && t * p <= n < 2 * (t * p)
    ensures t <= n / p < 2 * t
  {
    var q := n / p;
    assert n == q * p + n % p;
    Monotonic(q + 1, t, p);
    Monotonic(2 * t, q, p);
    assert (q + 1) * p == q * p + p && 2 * t * p == 2 * (t * p);
  }

  /** The pattern of the largest double up to n. */
  function Truncated(n: nat): nat
    requires n > 0
  {
    (Log2(n) + 1022) * TWO_52 + Leading(n)
  }

  lemma TruncatedParts(e: nat, q: nat)
    requires TWO_52 <= q < 2 * TWO_52
    ensures var t := (e + 1022) * TWO_52 + q;
      Significand(t) == q && Scale(t) == e - 52 && (t % 2 == q % 2) && (e <= 64 ==> t + 1 < 2047 * TWO_52)
  {
    DivModUnique((e + 1022) * TWO_52 + q, TWO_52, e + 1023, q - TWO_52);
  }

  lemma NarrowIs(n: nat, k: nat, q: nat)
    requires q == n * Pow2(k)
    ensures Amount(q, -(k as int)) == n as real
  {
    Rescaled(q, n, k, -(k as int));
    AmountOfOnes(n);
  }

  lemma WideIs(n: nat, k: nat, q: nat, r: nat)
    requires n == q * Pow2(k) + r
    ensures Amount(q, k) + r as real == n as real
  {
    var h := q * Pow2(k);
    Rescaled(h, q, k, 0);
    AmountOfOnes(h);
  }

  /** It is below n by what is behind the 53 bits. */
  lemma TruncatedIs(n: nat)
    requires n > 0
    ensures Absolute(Truncated(n)) + Trailing(n) as real == n as real
  {
    var e := Log2(n);
    LeadingFits(n);
    TruncatedParts(e, Leading(n));
    if e <= 52 {
      NarrowIs(n, 52 - e, Leading(n));
    } else {
      WideIs(n, e - 52, Leading(n), Trailing(n));
    }
  }

  lemma UnitOfTruncated(n: nat)
    requires n > 0
    ensures Absolute(Truncated(n) + 1) == Absolute(Truncated(n)) + Power(Log2(n) - 52)
    ensures Log2(n) > 52 ==> Power(Log2(n) - 52) == Pow2(Log2(n) - 52) as real
  {
    LeadingFits(n);
    TruncatedParts(Log2(n), Leading(n));
    AbsoluteStep(Truncated(n));
    if Log2(n) > 52 {
      PowerOfNat(Log2(n) - 52);
    }
  }

  // ----- The nearest double -----

  function Distance(x: real, y: real): real
  {
    if x < y then y - x else x - y
  }

  ghost predicate NoNearer(b: nat, x: real, c: nat)
    requires b < TWO_64 && Finite(b) && c < TWO_64 && Finite(c)
  {
    && Distance(Value(b), x) <= Distance(Value(c), x)
    && (Distance(Value(b), x) == Distance(Value(c), x) && Value(b) != Value(c) ==> b % 2 == 0)
  }

  /** No double is nearer to x than the one with pattern b, and of two that are as near b is the even one. */
  ghost predicate Nearest(b: nat, x: real)
    requires b < TWO_64 && Finite(b)
  {
    forall c: nat | c < TWO_64 && Finite(c) :: NoNearer(b, x, c)
  }

  /** Between two adjacent patterns there is no other. */
  lemma NothingBetween(t: nat, c: nat)
    requires c < TWO_64 && Finite(c)
    ensures Value(c) <= Absolute(t) || Value(c) >= Absolute(t + 1)
  {
    if c < TWO_63 {
      if c < t {
        AbsoluteGrows(c, t);
      } else if c > t + 1 {
        AbsoluteGrows(t + 1, c);
      }
    }
  }

  /** b is the nearer one of t and t + 1, or the even one. */
  ghost predicate Rounds(t: nat, b: nat, x: real)
  {
    && Absolute(t) <= x <= Absolute(t + 1)
    && var below, above := x - Absolute(t), Absolute(t + 1) - x;
       if below < above then b == t else if below > above then b == t + 1 else b == if t % 2 == 0 then t else t + 1
  }

  lemma NoneIsNearer(below: real, above: real, x: real, y: real, z: real)
    requires below <= x <= above && (z <= below || z >= above)
    requires y == if x - below <= above - x then below else above
    ensures Distance(y, x) <= Distance(z, x)
    ensures Distance(y, x) == Distance(z, x) && y != z ==> x - below == above - x
  {
  }

  lemma NoneIsNearerAbove(below: real, above: real, x: real, z: real)
    requires below <= x <= above && (z <= below || z >= above) && x - below == above - x
    ensures Distance(above, x) <= Distance(z, x)
  {
  }

  lemma RoundedIsNearest(t: nat, b: nat, x: real)
    requires t + 1 < 2047 * TWO_52 && Rounds(t, b, x)
    ensures b < TWO_63 && Finite(b) && Nearest(b, x)
  {
    FiniteBelow(b);
    forall c: nat | c < TWO_64 && Finite(c)
      ensures NoNearer(b, x, c)
    {
      NothingBetween(t, c);
      NoneIsNearer(Absolute(t), Absolute(t + 1), x,
                   if x - Absolute(t) <= Absolute(t + 1) - x then Absolute(t) else Absolute(t + 1), Value(c));
      if x - Absolute(t) == Absolute(t + 1) - x {
        NoneIsNearerAbove(Absolute(t), Absolute(t + 1), x, Value(c));
      }
    }
  }

  lemma FiniteBelow(b: nat)
    requires b < 2047 * TWO_52
    ensures b < TWO_63 && Finite(b)
  {
  }

  /** The conversion rounds what it cuts off. */
  lemma MagnitudeRounds(n: nat)
    requires n > 0
    ensures Rounds(Truncated(n), Magnitude(n), n as real)
  {
    LeadingFits(n);
    TruncatedParts(Log2(n), Leading(n));
    TruncatedIs(n);
    UnitOfTruncated(n);
  }

  lemma MagnitudeIsNearest(n: nat)
    requires 0 < n <= TWO_64
    ensures Magnitude(n) < TWO_63 && Finite(Magnitude(n)) && Nearest(Magnitude(n), n as real)
    ensures Trailing(n) == 0 ==> Absolute(Magnitude(n)) == n as real
  {
    var e, t := Log2(n), Truncated(n);
    Pow2Of64();
    Log2Fits(n, 64);
    LeadingFits(n);
    TruncatedParts(e, Leading(n));
    TruncatedIs(n);
    UnitOfTruncated(n);
    MagnitudeRounds(n);
    RoundedIsNearest(t, Magnitude(n), n as real);
  }

  lemma Pow2Of64()
    ensures Pow2(64) == TWO_64
  {
    Pow2Values();
    Pow2Sum(32, 32);
  }

  function Opposite(b: nat): nat
    requires b < TWO_64
  {
    if b < TWO_63 then TWO_63 + b else b - TWO_63
  }

  lemma OppositeValue(c: nat)
    requires c < TWO_64 && Finite(c)
    ensures Finite(Opposite(c)) && Value(Opposite(c)) == -Value(c) && Opposite(c) % 2 == c % 2
  {
    SignedFinite(Bare(c));
    SameParity(c, Opposite(c));
  }

  lemma SameParity(a: nat, b: nat)
    requires a == TWO_63 + b || b == TWO_63 + a
    ensures a % 2 == b % 2
  {
  }

  lemma NegatedIsNearest(b: nat, x: real)
    requires b < TWO_64 && Finite(b) && Nearest(b, x)
    ensures Finite(Opposite(b)) && Value(Opposite(b)) == -Value(b) && Nearest(Opposite(b), -x)
  {
    OppositeValue(b);
    forall c: nat | c < TWO_64 && Finite(c)
      ensures NoNearer(Opposite(b), -x, c)
    {
      OppositeValue(c);
      assert NoNearer(b, x, Opposite(c));
    }
  }

  lemma ZeroIsNearest(b: nat, x: real)
    requires b == 0 && x == 0.0
    ensures Nearest(b, x)
  {
    forall c: nat | c < TWO_64 && Finite(c)
      ensures NoNearer(b, x, c)
    {
    }
  }

  /** lua_pushnumber of an integer: the double nearest to it, of two that are as near the even one. */
  lemma DoubleIsNearest(n: int)
    requires -TWO_64 <= n <= TWO_64
    ensures DoubleOf(n) < TWO_64 && Finite(DoubleOf(n)) && Nearest(DoubleOf(n), n as real)
  {
    if n == 0 {
      ZeroIsNearest(0, 0.0);
    } else if n > 0 {
      MagnitudeIsNearest(n);
    } else {
      MagnitudeIsNearest(-n);
      NegatedIsNearest(Magnitude(-n), (-n) as real);
    }
  }

  /** Integers up to 2^53, of either sign, are exact. */
  lemma DoubleIsExact(n: int)
    requires -2 * TWO_52 <= n <= 2 * TWO_52
    ensures DoubleOf(n) < TWO_64 && Finite(DoubleOf(n)) && Value(DoubleOf(n)) == n as real
  {
    DoubleIsNearest(n);
    if n != 0 {
      var m: nat := if n > 0 then n else -n;
      NothingTrails(m);
      MagnitudeIsNearest(m);
    }
  }

  lemma NothingTrails(n: nat)
    requires 0 < n <= 2 * TWO_52
    ensures Trailing(n) == 0
  {
    var e := Log2(n);
    Pow2Of52();
    Log2Fits(n, 53);
    Log2Bounds(n);
    if e == 53 {
      assert Pow2(e) == 2 * Pow2(52) && Pow2(e - 52) == 2;
    }
  }

  lemma OneAsDouble()
    ensures DoubleOf(1) == ONE
  {
    Pow2Of52();
  }
}
