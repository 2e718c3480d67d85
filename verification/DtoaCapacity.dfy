/** The bignums of a conversion fit the 128 digits they have, whatever the double. */
module DtoaCapacity {
  import opened Powers
  import opened Bigits
  import opened BignumPower
  import opened Decimal
  import opened StartValues
  import opened Dtoa

  /** Significand and exponent of a finite positive double or float. */
  predicate Finite(f: nat, e: int) {
    0 < f < 0x20_0000_0000_0000 && -1074 <= e <= 971
  }

  lemma TenBetween(k: nat)
    ensures Pow(2, 3 * k) <= Pow(10, k) <= Pow(2, 4 * k)
  {
    assert Pow(2, 3) == 8 && Pow(2, 4) == 16;
    hide Pow;
    PowPower(2, 3, k);
    PowPower(2, 4, k);
    PowBase(8, 10, k);
    PowBase(10, 16, k);
  }

  lemma SignificandBound(f: nat)
    requires f < 0x20_0000_0000_0000
    ensures f < Pow(2, 53)
  {
    assert Pow(2, 5) == 32;
    hide Pow;
    PowAdd(2, 5, 48);
    WordPowers();
  }

  /** No double reaches 2^1024. */
  lemma BelowLargest(f: nat, e: int)
    requires f < 0x20_0000_0000_0000 && e <= 971
    ensures V(f, e) < Pow(2, 1024) as real
  {
    hide Exp, Pow;
    ExpMonotone(2, e, 971 - e);
    ExpNat(2, 971);
    SignificandBound(f);
    PowAdd(2, 53, 971);
    var p := Pow(2, 971);
    MulLt(f, Pow(2, 53), p);
    RealTimes(f, p);
    NoLarger(f as real, Exp(2, e), p as real);
  }

  /** What is at most 1/p, as a power of two or ten. */
  lemma Reciprocals(x: real, p: real, y: real, q: real)
    requires x * p == 1.0 && y * q == 1.0 && 0.0 < p <= q
    ensures y <= x
  {
    Positive(x, p);
    NoLarger(x, p, q);
    if x < y {
      LessTimes(x, y, q);
    }
  }

  lemma Positive(x: real, p: real)
    requires x * p == 1.0 && p > 0.0
    ensures x > 0.0
  {
    if x <= 0.0 {
      NoLarger(p, x, 0.0);
    }
  }

  lemma TinyPowers()
    ensures Exp(10, -358) <= Exp(2, -1074)
  {
    hide Exp, Pow;
    PowerOfZero();
    ExpAdd(10, -358, 358);
    ExpAdd(2, -1074, 1074);
    TenBetween(358);
    Reciprocals(Exp(2, -1074), Pow(2, 1074) as real, Exp(10, -358), Pow(10, 358) as real);
  }

  lemma PowerOfZero()
    ensures Exp(10, 0) == 1.0 && Exp(2, 0) == 1.0
  {}

  /** The powers of ten that can be estimated for a double. */
  lemma EstimateRange(f: nat, e: int, ep: int)
    requires Finite(f, e) && Exp(10, ep - 1) <= V(f, e) < Exp(10, ep + 1)
    ensures -359 < ep < 343
  {
    hide Exp, Pow;
    if ep >= 343 {
      BelowLargest(f, e);
      ExpMonotone(10, 342, ep - 343);
      ExpNat(10, 342);
      TenBetween(342);
      PowMonotone(2, 1024, 1026);
    } else if ep <= -359 {
      ExpMonotone(10, ep + 1, -359 - ep);
      TinyPowers();
      ExpMonotone(2, -1074, e + 1074);
      NotSmaller(Exp(2, e), f, V(f, e));
    }
  }

  /** Numerator and denominator, and anything up to eighty times as large, take 127 digits at most. */
  lemma StartFits(f: nat, e: int, ep: int, unit: nat, den: nat, x: nat)
    requires Finite(f, e) && Exp(10, ep - 1) <= V(f, e) < Exp(10, ep + 1)
    requires UnitFraction(e, ep, unit, den) && (x <= 80 * (f * unit) || x <= 80 * den)
    ensures Length(x) <= 127
  {
    hide Exp, Length, V;
    EstimateRange(f, e, ep);
    UnitBound(e, ep, unit, den);
    SignificandBound(f);
    EightyBound();
    hide Pow, UnitFraction;
    PowAdd(2, 53, 1432);
    PowAdd(2, 7, 1485);
    PowAdd(2, 7, 2446);
    PowMonotone(2, 1492, 3556);
    PowMonotone(2, 2453, 3556);
    Within(f, unit, den, x, Pow(2, 53), Pow(2, 1432), Pow(2, 2446));
    LengthBound(x, 3556);
  }

  lemma EightyBound()
    ensures Pow(2, 7) == 128
  {}

  lemma Within(f: nat, unit: nat, den: nat, x: nat, a: nat, b: nat, c: nat)
    requires f < a && 0 < unit <= b && den <= c && c > 0 && (x <= 80 * (f * unit) || x <= 80 * den)
    ensures x < 128 * (a * b) || x < 128 * c
  {
    MulLe(unit, b, f);
    MulLt(f, a, b);
  }

  lemma UnitBound(e: int, ep: int, unit: nat, den: nat)
    requires -1074 <= e <= 971 && -359 < ep < 343 && UnitFraction(e, ep, unit, den)
    ensures 0 < unit <= Pow(2, 1432) && den <= Pow(2, 2446)
  {
    hide Pow;
    var t, u := if ep >= 0 then ep else 0, if e < 0 then -e else 0;
    TenBetween(t);
    PowMonotone(2, 4 * t, 1372);
    PowMonotone(2, u, 1074);
    PowAdd(2, 1372, 1074);
    MulLe(Pow(10, t), Pow(2, 1372), Pow(2, u));
    MulLe(Pow(2, u), Pow(2, 1074), Pow(2, 1372));
    PowMonotone(2, 1372, 2446);
    PowMonotone(2, 1074, 2446);
    SmallUnits(e, ep, unit, den);
  }

  lemma SmallUnits(e: int, ep: int, unit: nat, den: nat)
    requires e <= 971 && -359 < ep < 343 && UnitFraction(e, ep, unit, den)
    ensures 0 < unit <= Pow(2, 1432)
  {
    PowMonotone(2, 0, 1432);
    assert Pow(2, 0) == 1;
    hide Pow;
    if e >= 0 {
      PowMonotone(2, e, 1432);
    } else if ep < 0 {
      TenBetween(-ep);
      PowMonotone(2, 4 * -ep, 1432);
    }
  }
}
