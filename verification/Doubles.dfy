/** What the patterns of floats and doubles stand for (IEEE 754), as real numbers. */
module Doubles {
  import opened Arithmetic
  import opened Objects
  import opened Format

  const TWO_52 := 0x10_0000_0000_0000

  // ----- Powers of two, also negative ones -----

  function Power(z: int): (r: real)
    ensures r > 0.0
    decreases if z >= 0 then z else -z
  {
    if z == 0 then 1.0 else if z > 0 then 2.0 * Power(z - 1) else Power(z + 1) / 2.0
  }

  lemma {:induction false} PowerStep(z: int)
    ensures Power(z + 1) == 2.0 * Power(z)
  {
  }

  lemma {:induction false} PowerOfNat(k: nat)
    ensures Pow2(k) as real == Power(k)
  {
    if k > 0 {
      PowerOfNat(k - 1);
    }
  }

  /** s times 2^z. */
  function Amount(s: nat, z: int): (r: real)
    ensures r >= 0.0
  {
    if s == 0 then 0.0 else Amount(s - 1, z) + Power(z)
  }

  lemma {:induction false} AmountIsProduct(s: nat, z: int)
    ensures Amount(s, z) == s as real * Power(z)
  {
    if s > 0 {
      AmountIsProduct(s - 1, z);
    }
  }

  lemma {:induction false} AmountOfOnes(s: nat)
    ensures Amount(s, 0) == s as real
  {
    if s > 0 {
      AmountOfOnes(s - 1);
    }
  }

  lemma {:induction false} Doubled(s: nat, z: int)
    ensures Amount(2 * s, z) == Amount(s, z + 1)
  {
    if s > 0 {
      Doubled(s - 1, z);
      PowerStep(z);
      assert Amount(2 * s, z) == Amount(2 * s - 1, z) + Power(z);
    }
  }

  /** s * 2^k units of 2^z are s units of 2^(z + k). */
  lemma {:induction false} Rescaled(n: nat, s: nat, k: nat, z: int)
    requires n == s * Pow2(k)
    ensures Amount(n, z) == Amount(s, z + k)
    decreases k
  {
    if k > 0 {
      var h := s * Pow2(k - 1);
      assert n == 2 * h;
      Doubled(h, z);
      Rescaled(h, s, k - 1, z + 1);
    }
  }

  // ----- Doubles -----

  predicate IsNaN(bits: nat)
  {
    bits / TWO_52 % 2048 == 2047 && bits % TWO_52 != 0
  }

  predicate Finite(bits: nat)
  {
    bits / TWO_52 % 2048 != 2047
  }

  /** The fraction with its hidden bit, which subnormal numbers do not have. */
  function Significand(m: nat): nat
  {
    if m < TWO_52 then m else TWO_52 + m % TWO_52
  }

  function Scale(m: nat): int
  {
    (if m < TWO_52 then 1 else m / TWO_52) - 1075
  }

  /** The value of a pattern without its sign. */
  function Absolute(m: nat): (r: real)
    ensures r >= 0.0
  {
    Amount(Significand(m), Scale(m))
  }

  /** The value of a pattern; the sign is the highest bit. */
  function Value(bits: nat): real
    requires bits < TWO_64 && Finite(bits)
  {
    if bits < TWO_63 then Absolute(bits) else -Absolute(bits - TWO_63)
  }

  lemma {:induction false} NextPattern(m: nat)
    ensures if (m + 1) % TWO_52 != 0 || m < TWO_52
            then Significand(m + 1) == Significand(m) + 1 && Scale(m + 1) == Scale(m)
            else Significand(m) == 2 * TWO_52 - 1 && Significand(m + 1) == TWO_52 && Scale(m + 1) == Scale(m) + 1
  {
  }

  /** From one pattern to the next, the value grows by one unit of the last place. */
  lemma {:induction false} AbsoluteStep(m: nat)
    ensures Absolute(m + 1) == Absolute(m) + Power(Scale(m))
  {
    NextPattern(m);
    if Scale(m + 1) != Scale(m) {
      Doubled(Significand(m + 1), Scale(m));
    }
  }

  lemma {:induction false} AbsoluteGrows(m: nat, n: nat)
    requires m < n
    ensures Absolute(m) < Absolute(n)
    decreases n
  {
    AbsoluteStep(n - 1);
    if m < n - 1 {
      AbsoluteGrows(m, n - 1);
    }
  }

  /** Different patterns without sign have different values, and only 0 has none. */
  lemma {:induction false} AbsoluteIsOnce(m: nat, n: nat)
    ensures Absolute(m) == Absolute(n) <==> m == n
    ensures Absolute(m) == 0.0 <==> m == 0
  {
    if m < n {
      AbsoluteGrows(m, n);
    } else if n < m {
      AbsoluteGrows(n, m);
    }
    if m > 0 {
      AbsoluteGrows(0, m);
    }
  }

  /** Finite patterns have the same value exactly if they are the same or the two zeros. */
  lemma {:induction false} ValueIsOnce(a: nat, b: nat)
    requires a < TWO_64 && b < TWO_64 && Finite(a) && Finite(b)
    ensures Value(a) == Value(b) <==> a == b || (IsZero(a) && IsZero(b))
  {
    AbsoluteIsOnce(Bare(a), Bare(b));
    AbsoluteIsOnce(Bare(b), Bare(a));
  }

  /** The pattern without its sign. */
  function Bare(bits: nat): nat
  {
    if bits < TWO_63 then bits else bits - TWO_63
  }

  predicate IsZero(bits: nat)
  {
    bits == 0 || bits == TWO_63
  }

  // ----- Floats -----

  predicate FiniteFloat(bits: nat)
  {
    bits / 0x80_0000 % 256 != 255
  }

  function FloatSignificand(m: nat): nat
  {
    if m < 0x80_0000 then m else 0x80_0000 + m % 0x80_0000
  }

  function FloatAbsolute(m: nat): real
  {
    Amount(FloatSignificand(m), (if m < 0x80_0000 then 1 else m / 0x80_0000) - 150)
  }

  /** The value of a 32-bit pattern. */
  function FloatValue(bits: nat): real
    requires bits < TWO_32 && FiniteFloat(bits)
  {
    if bits < 0x8000_0000 then FloatAbsolute(bits) else -FloatAbsolute(bits - 0x8000_0000)
  }

  lemma {:induction false} Pow2Of29()
    ensures Pow2(29) == 0x2000_0000
  {
    assert Pow2(9) == 0x200;
    assert Pow2(10) == 0x400;
    Pow2Sum(10, 10);
    Pow2Sum(9, 20);
  }

  /** A double with the 23 fraction bits f in front of 29 clear ones. */
  lemma {:induction false} WideAbsolute(f: nat, e: nat)
    requires f < 0x80_0000 && 0 < e < 2047
    ensures var m := e * TWO_52 + f * 0x2000_0000;
      m < TWO_63 && Finite(m) && Absolute(m) == Amount(0x80_0000 + f, e - 1046)
  {
    var m := e * TWO_52 + f * 0x2000_0000;
    DivModUnique(m, TWO_52, e, f * 0x2000_0000);
    Pow2Of29();
    Rescaled(Significand(m), 0x80_0000 + f, 29, e - 1075);
  }

  /** The pattern that a finite float without its sign is widened to. */
  function WidenedAbsolute(m: nat): nat
    requires m < 0x7f80_0000
  {
    if m >= 0x80_0000 then (m / 0x80_0000 + 896) * TWO_52 + m % 0x80_0000 * 0x2000_0000
    else if m == 0 then 0
    else
      var r := Normalize(m, 897, 0);
      r.1 * TWO_52 + r.0 * 0x2000_0000
  }

  lemma {:induction false} NormalKeepsAbsolute(m: nat)
    requires 0x80_0000 <= m < 0x7f80_0000
    ensures WidenedAbsolute(m) < TWO_63 && Finite(WidenedAbsolute(m)) && Absolute(WidenedAbsolute(m)) == FloatAbsolute(m)
  {
    WideAbsolute(m % 0x80_0000, m / 0x80_0000 + 896);
  }

  lemma {:induction false} NormalizedAbsolute(m: nat, f: nat, e: nat)
    requires 874 <= e <= 897 && f < 0x80_0000 && 0x80_0000 + f == m * Pow2(897 - e)
    ensures var n := e * TWO_52 + f * 0x2000_0000;
      n < TWO_63 && Finite(n) && Absolute(n) == Amount(m, 1 - 150)
  {
    WideAbsolute(f, e);
    Rescaled(0x80_0000 + f, m, 897 - e, e - 1046);
  }

  lemma {:induction false} SubnormalKeepsAbsolute(m: nat)
    requires 0 < m < 0x80_0000
    ensures WidenedAbsolute(m) < TWO_63 && Finite(WidenedAbsolute(m)) && Absolute(WidenedAbsolute(m)) == FloatAbsolute(m)
  {
    var r := Normalize(m, 897, 0);
    NormalizedAbsolute(m, r.0, r.1);
  }

  lemma {:induction false} WidenedKeepsAbsolute(m: nat)
    requires m < 0x7f80_0000
    ensures WidenedAbsolute(m) < TWO_63 && Finite(WidenedAbsolute(m)) && Absolute(WidenedAbsolute(m)) == FloatAbsolute(m)
  {
    if m >= 0x80_0000 {
      NormalKeepsAbsolute(m);
    } else if m > 0 {
      SubnormalKeepsAbsolute(m);
    }
  }

  /** The fields of a pattern with its sign bit set. */
  lemma {:induction false} SignBit(m: nat)
    requires m < 0x8000_0000
    ensures var bits := 0x8000_0000 + m;
      && bits / 0x8000_0000 == 1 && bits / 0x80_0000 % 256 == m / 0x80_0000 && bits % 0x80_0000 == m % 0x80_0000
      && m / 0x80_0000 % 256 == m / 0x80_0000
  {
    DivModUnique(0x8000_0000 + m, 0x80_0000, 256 + m / 0x80_0000, m % 0x80_0000);
    DivModUnique(256 + m / 0x80_0000, 256, 1, m / 0x80_0000);
    DivModUnique(m / 0x80_0000, 256, 0, m / 0x80_0000);
  }

  lemma {:induction false} WidenParts(bits: nat, sign: nat, m: nat, e: nat, f: nat)
    requires bits < TWO_32 && m < 0x7f80_0000 && e == m / 0x80_0000 && f == m % 0x80_0000 && (e == 0 ==> f == m)
    requires bits / 0x8000_0000 == sign && bits / 0x80_0000 % 256 == e != 255 && bits % 0x80_0000 == f
    ensures Widen(bits) == sign * TWO_63 + WidenedAbsolute(m)
  {
  }

  lemma {:induction false} WidenFinite(m: nat)
    requires m < 0x7f80_0000
    ensures Widen(m) == WidenedAbsolute(m) && Widen(0x8000_0000 + m) == TWO_63 + WidenedAbsolute(m)
  {
    SignBit(m);
    FloatExponent(m);
    WidenParts(m, 0, m, m / 0x80_0000, m % 0x80_0000);
    WidenParts(0x8000_0000 + m, 1, m, m / 0x80_0000, m % 0x80_0000);
  }

  lemma {:induction false} FloatExponent(m: nat)
    requires m < 0x7f80_0000
    ensures m / 0x8000_0000 == 0 && m / 0x80_0000 < 255 && (m / 0x80_0000 == 0 ==> m % 0x80_0000 == m)
  {
  }

  lemma {:induction false} WidenOther(bits: nat)
    requires bits < TWO_32 && !FiniteFloat(bits)
    ensures Widen(bits) == (if bits < 0x8000_0000 then 0 else TWO_63) + 2047 * TWO_52 + bits % 0x80_0000 * 0x2000_0000
  {
  }

  /** The double that a float is widened to has the same value and sign; infinities and NaNs stay what they are. */
  lemma {:induction false} WidenKeepsValue(bits: nat)
    requires bits < TWO_32
    ensures Widen(bits) >= TWO_63 <==> bits >= 0x8000_0000
    ensures Finite(Widen(bits)) <==> FiniteFloat(bits)
    ensures FiniteFloat(bits) ==> Value(Widen(bits)) == FloatValue(bits)
    ensures !FiniteFloat(bits) ==> (IsNaN(Widen(bits)) <==> bits % 0x80_0000 != 0)
  {
    if FiniteFloat(bits) {
      var m := if bits < 0x8000_0000 then bits else bits - 0x8000_0000;
      SignBit(m);
      WidenFinite(m);
      WidenedKeepsAbsolute(m);
      SignedFinite(WidenedAbsolute(m));
    } else {
      WidenOther(bits);
      SpecialPattern(if bits < 0x8000_0000 then 0 else 1, bits % 0x80_0000);
    }
  }

  /** An infinity, or a NaN if the fraction is not 0. */
  lemma {:induction false} SpecialPattern(sign: nat, f: nat)
    requires sign < 2 && f < 0x80_0000
    ensures var b := sign * TWO_63 + 2047 * TWO_52 + f * 0x2000_0000; !Finite(b) && (IsNaN(b) <==> f != 0)
  {
    var b := sign * TWO_63 + 2047 * TWO_52 + f * 0x2000_0000;
    DivModUnique(b, TWO_52, sign * 2048 + 2047, f * 0x2000_0000);
    DivModUnique(sign * 2048 + 2047, 2048, sign, 2047);
  }

  lemma {:induction false} SignedFinite(m: nat)
    requires m < TWO_63
    ensures Finite(TWO_63 + m) <==> Finite(m)
  {
  }
}
