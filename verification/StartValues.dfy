/**
 * The numbers bignum-dtoa starts from: v = f * 2^e divided by a power of ten,
 * with the distances to the two boundaries, over one common denominator.
 */
module StartValues {
  import opened Powers
  import opened Decimal

  ghost function V(f: nat, e: int): real {
    (f as real) * Exp(2, e)
  }

  /** The distance to the upper boundary, halfway to the next larger number. */
  ghost function Above(e: int): (x: real)
    ensures x > 0.0
  {
    Exp(2, e - 1)
  }

  /** The distance to the lower boundary, which can be half as far away. */
  ghost function Below(e: int, closer: bool): real {
    Exp(2, if closer then e - 2 else e - 1)
  }

  /** x units over den, times ten to the power ep, is the number y. */
  ghost predicate Stands(x: nat, den: nat, ep: int, y: real) {
    den > 0 && (x as real) * Exp(10, ep) == y * (den as real)
  }

  /** The three ways to write 2^e / 10^ep as a fraction unit/den of integers. */
  ghost predicate UnitFraction(e: int, ep: int, unit: nat, den: nat) {
    if e >= 0 then ep >= 0 && unit == Pow(2, e) && den == Pow(10, ep)
    else if ep >= 0 then unit == 1 && den == Pow(10, ep) * Pow(2, -e)
    else unit == Pow(10, -ep) && den == Pow(2, -e)
  }

  lemma UnitStands(e: int, ep: int, unit: nat, den: nat)
    requires UnitFraction(e, ep, unit, den)
    ensures unit > 0 && Stands(unit, den, ep, Exp(2, e))
  {
    if e >= 0 {
      ExpNat(2, e);
      ExpNat(10, ep);
    } else if ep >= 0 {
      NegativeExponent(e, ep);
    } else {
      NegativePower(e, ep);
    }
  }

  lemma NegativePower(e: int, ep: int)
    requires e < 0 && ep < 0
    ensures Stands(Pow(10, -ep), Pow(2, -e), ep, Exp(2, e))
  {
    ExpAdd(10, ep, -ep);
    ExpAdd(2, e, -e);
  }

  lemma NegativeExponent(e: int, ep: int)
    requires e < 0 <= ep
    ensures Stands(1, Pow(10, ep) * Pow(2, -e), ep, Exp(2, e))
  {
    ExpNat(10, ep);
    ExpAdd(2, e, -e);
    RealTimes(Pow(10, ep), Pow(2, -e));
    var p, q, x := Pow(10, ep) as real, Pow(2, -e) as real, Exp(2, e);
    assert x * (p * q) == p * (x * q);
  }

  lemma StandsTimes(x: nat, den: nat, ep: int, y: real, k: nat)
    requires Stands(x, den, ep, y)
    ensures Stands(k * x, den, ep, (k as real) * y)
  {
    RealTimes(k, x);
    ScaleEquation(k as real, x as real, Exp(10, ep), y, den as real);
  }

  lemma ScaleEquation(k: real, x: real, t: real, y: real, d: real)
    requires x * t == y * d
    ensures (k * x) * t == (k * y) * d
  {
    assert (k * x) * t == k * (x * t);
    assert (k * y) * d == k * (y * d);
  }

  lemma StandsOver(x: nat, den: nat, ep: int, y: real, k: nat)
    requires Stands(x, den, ep, y) && k > 0
    ensures Stands(x, k * den, ep, y / (k as real))
  {
    hide Exp;
    RealTimes(k, den);
    OverEquation(k as real, x as real, Exp(10, ep), y, den as real, (k * den) as real);
    MulLe(1, den, k);
  }

  lemma OverEquation(k: real, x: real, t: real, y: real, d: real, kd: real)
    requires x * t == y * d && k > 0.0 && kd == k * d
    ensures x * t == (y / k) * kd
  {
    var z := y / k;
    assert z * k == y;
    assert z * (k * d) == (z * k) * d;
  }

  /**
   * v, and the boundaries when they are needed, as fractions over den of the
   * power of ten ep; all are small multiples of the distance below.
   */
  ghost predicate Started(f: nat, e: int, closer: bool, ep: int, num: nat, den: nat, minus: nat, plus: nat) {
    && minus > 0 && den > 0
    && plus == (if closer then 2 * minus else minus)
    && num == 2 * f * plus
    && Stands(num, den, ep, V(f, e)) && Stands(plus, den, ep, Above(e)) && Stands(minus, den, ep, Below(e, closer))
  }

  /** The start values without boundaries: the three cases of the source. */
  method Unscaled(f: nat, e: int, ep: int) returns (num: nat, den: nat, unit: nat)
    requires e >= 0 ==> ep >= 0
    ensures num == f * unit && UnitFraction(e, ep, unit, den)
  {
    if e >= 0 {
      unit, den := Pow(2, e), Pow(10, ep);
      num := f * unit;
    } else if ep >= 0 {
      unit, den := 1, Pow(10, ep) * Pow(2, -e);
      num := f;
    } else {
      unit, den := Pow(10, -ep), Pow(2, -e);
      num := unit * f;
    }
  }

  method InitialScaledStartValues(f: nat, e: int, closer: bool, ep: int, need: bool)
    returns (num: nat, den: nat, minus: nat, plus: nat)
    requires e >= 0 ==> ep >= 0
    ensures need ==> Started(f, e, closer, ep, num, den, minus, plus)
    ensures !need ==> Stands(num, den, ep, V(f, e)) && minus == plus == 0
  {
    hide Exp, Pow, UnitFraction;
    var unit;
    num, den, unit := Unscaled(f, e, ep);
    UnitStands(e, ep, unit, den);
    if need {
      num, den, minus, plus := AddBoundaries(f, e, closer, ep, num, den, unit);
    } else {
      StandsTimes(unit, den, ep, Exp(2, e), f);
      minus, plus := 0, 0;
    }
  }

  method AddBoundaries(ghost f: nat, ghost e: int, closer: bool, ghost ep: int, num0: nat, den0: nat, unit: nat)
    returns (num: nat, den: nat, minus: nat, plus: nat)
    requires unit > 0 && Stands(unit, den0, ep, Exp(2, e)) && num0 == f * unit
    ensures Started(f, e, closer, ep, num, den, minus, plus)
  {
    num, den := 2 * num0, 2 * den0;
    minus, plus := unit, unit;
    if closer {
      num, den, plus := 2 * num, 2 * den, 2 * plus;
      CloserBoundaries(f, e, ep, unit, den0, num0);
    } else {
      PlainBoundaries(f, e, ep, unit, den0, num0);
    }
  }

  lemma PlainBoundaries(f: nat, e: int, ep: int, unit: nat, den: nat, num: nat)
    requires unit > 0 && Stands(unit, den, ep, Exp(2, e)) && num == f * unit
    ensures Started(f, e, false, ep, 2 * num, 2 * den, unit, unit)
  {
    hide Exp, Stands;
    HalfUnit(e, ep, unit, den);
    StandsTimes(unit, 2 * den, ep, Exp(2, e - 1), 2 * f);
    ExpNext(2, e - 1);
    TwiceIs(f, Exp(2, e - 1), Exp(2, e));
    MulAssoc(2, f, unit);
  }

  lemma HalfUnit(e: int, ep: int, unit: nat, den: nat)
    requires Stands(unit, den, ep, Exp(2, e))
    ensures Stands(unit, 2 * den, ep, Exp(2, e - 1))
  {
    ExpNext(2, e - 1);
    StandsOver(unit, den, ep, Exp(2, e), 2);
  }

  lemma CloserBoundaries(f: nat, e: int, ep: int, unit: nat, den: nat, num: nat)
    requires unit > 0 && Stands(unit, den, ep, Exp(2, e)) && num == f * unit
    ensures Started(f, e, true, ep, 2 * (2 * num), 2 * (2 * den), unit, 2 * unit)
  {
    ExpNext(2, e - 1);
    ExpNext(2, e - 2);
    PlainBoundaries(f, e, ep, unit, den, num);
    StandsOver(unit, 2 * den, ep, Exp(2, e - 1), 2);
    StandsTimes(unit, 2 * (2 * den), ep, Exp(2, e - 2), 2);
    StandsOver(2 * num, 2 * den, ep, V(f, e), 2);
    StandsTimes(2 * num, 2 * (2 * den), ep, V(f, e) / 2.0, 2);
    assert 2 * f * (2 * unit) == 2 * (2 * num);
  }

  lemma TwiceIs(f: nat, half: real, whole: real)
    requires whole == 2.0 * half
    ensures ((2 * f) as real) * half == (f as real) * whole
  {}

  /** A whole number is at least one, so no estimate that bounds it is negative. */
  lemma WholeNeedsPower(f: nat, e: int, ep: int)
    requires 0.0 < V(f, e) < Exp(10, ep + 1)
    ensures f > 0 && (e >= 0 ==> ep >= 0)
  {
    if e >= 0 && ep < 0 {
      ExpMonotone(10, ep + 1, -1 - ep);
      assert Exp(10, 0) == 1.0;
      ExpNat(2, e);
      RealTimes(f, Pow(2, e));
    }
  }
}
