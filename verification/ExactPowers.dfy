/** No double with an odd significand is a power of ten, which FixupMultiply10's strict test relies on. */
module ExactPowers {
  import opened Powers
  import opened Decimal
  import opened StartValues
  import opened Dtoa

  /** Significand and exponent of a positive double: 53 bits with the top one set, or denormal. */
  predicate IsDouble(f: nat, e: int) {
    || (0x10_0000_0000_0000 <= f < 0x20_0000_0000_0000 && e >= -1074)
    || (0 < f < 0x10_0000_0000_0000 && e == -1074)
  }

  lemma {:induction false} OddFactors(f: nat, a: nat, g: nat, b: nat)
    requires f % 2 == 1 && g % 2 == 1 && f * Pow(2, a) == g * Pow(2, b)
    ensures a == b && f == g
  {
    if a == 0 || b == 0 {
      if a > 0 {
        EvenProduct(f, Pow(2, a - 1));
      }
      if b > 0 {
        EvenProduct(g, Pow(2, b - 1));
      }
    } else {
      EvenProduct(f, Pow(2, a - 1));
      EvenProduct(g, Pow(2, b - 1));
      OddFactors(f, a - 1, g, b - 1);
    }
  }

  lemma EvenProduct(x: nat, p: nat)
    ensures x * (2 * p) == 2 * (x * p)
  {}

  lemma {:induction false} FiveIsOdd(n: nat)
    ensures Pow(5, n) % 2 == 1
  {
    if n > 0 {
      FiveIsOdd(n - 1);
    }
  }

  lemma {:induction false} FiveDoesNotDivide(n: nat)
    ensures Pow(2, n) % 5 != 0
  {
    if n > 0 {
      FiveDoesNotDivide(n - 1);
    }
  }

  /** The 53-bit significands fall between two neighbouring powers of five. */
  lemma FiveGap(n: nat)
    ensures n <= 22 ==> Pow(5, n) < 0x10_0000_0000_0000
    ensures n >= 23 ==> Pow(5, n) >= 0x20_0000_0000_0000
  {
    assert Pow(5, 3) == 125;
    PowAdd(5, 3, 3);
    PowAdd(5, 6, 6);
    PowAdd(5, 12, 6);
    PowAdd(5, 18, 3);
    PowAdd(5, 21, 1);
    assert Pow(5, 1) == 5;
    hide Pow;
    assert Pow(5, 22) == 2384185791015625;
    PowAdd(5, 22, 1);
    if n <= 22 {
      PowMonotone(5, n, 22);
    } else {
      PowMonotone(5, 23, n);
    }
  }

  lemma TenIsTwoTimesFive(n: nat)
    ensures Pow(10, n) == Pow(5, n) * Pow(2, n)
  {
    PowProduct(5, 2, n);
  }

  lemma OddNeverExact(f: nat, e: int, ep: int, unit: nat, den: nat)
    requires IsDouble(f, e) && f % 2 == 1 && UnitFraction(e, ep, unit, den)
    ensures f * unit != den
  {
    if f * unit == den {
      if e >= 0 {
        TenIsTwoTimesFive(ep);
        FiveIsOdd(ep);
        OddFactors(f, e, Pow(5, ep), ep);
        FiveGap(ep);
      } else if ep >= 0 {
        EvenProduct(Pow(10, ep), Pow(2, -e - 1));
      } else {
        TenTimes(f, Pow(10, -ep - 1));
        assert Pow(10, -ep) == 10 * Pow(10, -ep - 1);
        FiveDoesNotDivide(-e);
        MultipleOfFive(f * Pow(10, -ep - 1));
      }
    }
  }

  lemma MultipleOfFive(x: nat)
    ensures (10 * x) % 5 == 0
  {}

  /** The fraction is one exactly when v is the power of ten itself. */
  lemma ExactMeans(num: nat, den: nat, ep: int, v: real)
    requires Stands(num, den, ep, v)
    ensures num == den <==> v == Exp(10, ep)
    ensures num < den <==> v < Exp(10, ep)
  {
    assert den > 0;
    hide Exp, Stands;
    PowerStands(0, den, ep);
    FirstPowers();
    StandsCompare(num, Pow(10, 0) * den, den, ep, v, Exp(10, ep));
    StandsCompare(Pow(10, 0) * den, num, den, ep, Exp(10, ep), v);
  }

  /** Any power of ten that a double with an odd significand could equal is ruled out. */
  lemma OddIsNotPowerOfTen(f: nat, e: int, ep: int)
    requires IsDouble(f, e) && f % 2 == 1
    ensures V(f, e) != Exp(10, ep)
  {
    hide Exp, Pow, Stands, V, UnitFraction;
    if e >= 0 && ep < 0 {
      WholeIsNotSmall(f, e, ep);
    } else {
      var unit, den := Fraction(e, ep);
      OddNeverExact(f, e, ep, unit, den);
      ValueStands(f, e, ep, unit, den);
      ExactMeans(f * unit, den, ep, V(f, e));
    }
  }

  lemma ValueStands(f: nat, e: int, ep: int, unit: nat, den: nat)
    requires UnitFraction(e, ep, unit, den)
    ensures Stands(f * unit, den, ep, V(f, e))
  {
    hide Exp, Stands, UnitFraction;
    UnitStands(e, ep, unit, den);
    StandsTimes(unit, den, ep, Exp(2, e), f);
  }

  lemma Fraction(e: int, ep: int) returns (unit: nat, den: nat)
    requires e >= 0 ==> ep >= 0
    ensures UnitFraction(e, ep, unit, den)
  {
    if e >= 0 {
      unit, den := Pow(2, e), Pow(10, ep);
    } else if ep >= 0 {
      unit, den := 1, Pow(10, ep) * Pow(2, -e);
    } else {
      unit, den := Pow(10, -ep), Pow(2, -e);
    }
  }

  lemma WholeIsNotSmall(f: nat, e: int, ep: int)
    requires f > 0 && e >= 0 && ep < 0
    ensures Exp(10, ep) < V(f, e)
  {
    ExpMonotone(10, ep, -1 - ep);
    assert Exp(10, -1) == 0.1 by { assert Exp(10, 0) == 1.0; }
    ExpNat(2, e);
    RealTimes(f, Pow(2, e));
    MulLe(1, f, Pow(2, e));
  }
}
