/**
 * When the result of the shortest mode is the nearest decimal of its length:
 * for every significand of at least ten, and for every double.
 */
module Nearest {
  import opened Powers
  import opened Decimal
  import opened StartValues
  import opened Shortest
  import opened Dtoa
  import opened ExactPowers

  lemma HalfUnits(f: nat, e: int, closer: bool)
    ensures V(f, e) == ((2 * f) as real) * Above(e) && 0.0 < Below(e, closer) <= Above(e)
  {
    hide Exp;
    ExpNext(2, e - 1);
    ExpNext(2, e - 2);
    TwiceIs(f, Exp(2, e - 1), Exp(2, e));
  }

  /** A significand of ten or more makes the interval too narrow for a tenth to fit in. */
  lemma LargeSignificand(f: nat, e: int, closer: bool)
    requires f >= 10
    ensures NoTenthIsNearer(f % 2 == 0, V(f, e), Above(e), Below(e, closer))
  {
    HalfUnits(f, e, closer);
    hide Exp, V, Above, Below;
    NoLarger(Above(e), 20.0, (2 * f) as real);
    TooNarrow(f % 2 == 0, V(f, e), Above(e), Below(e, closer));
  }

  lemma TooNarrow(even: bool, v: real, a: real, b: real)
    requires 0.0 < b <= a && 20.0 * a <= v
    ensures NoTenthIsNearer(even, v, a, b)
  {
    hide Exp, Num;
  }

  /** 2^n between two multiples of 10^k. */
  ghost predicate Between(n: nat, lo: nat, hi: nat, k: nat) {
    lo * Pow(10, k) <= Pow(2, n) <= hi * Pow(10, k)
  }

  lemma Squared(n: nat, lo: nat, hi: nat, k: nat)
    requires Between(n, lo, hi, k)
    ensures Between(2 * n, lo * lo, hi * hi, 2 * k)
  {
    hide Pow;
    PowAdd(2, n, n);
    PowAdd(10, k, k);
    SquareOrder(lo, Pow(10, k), Pow(2, n), lo * Pow(10, k));
    SquareOrder(hi, Pow(10, k), Pow(2, n), hi * Pow(10, k));
  }

  lemma SquareOrder(a: nat, p: nat, x: nat, ap: nat)
    requires ap == a * p
    ensures ap <= x ==> (a * a) * (p * p) <= x * x
    ensures x <= ap ==> x * x <= (a * a) * (p * p)
  {
    MulSwap(a, a, p, p);
    if ap <= x {
      MulLe(ap, x, ap);
      MulLe(ap, x, x);
    } else {
      MulLe(x, ap, x);
      MulLe(x, ap, ap);
    }
  }

  lemma Doubled(n: nat, lo: nat, hi: nat, k: nat)
    requires Between(n, lo, hi, k)
    ensures Between(n + 1, 2 * lo, 2 * hi, k)
  {
    var p := Pow(10, k);
    assert Pow(2, n + 1) == 2 * Pow(2, n);
    hide Pow;
    MulAssoc(2, lo, p);
    MulAssoc(2, hi, p);
  }

  lemma Coarser(n: nat, lo: nat, hi: nat, k: nat, a: nat, b: nat, c: nat)
    requires Between(n, lo, hi, k) && a * Pow(10, c) <= lo && hi <= b * Pow(10, c)
    ensures Between(n, a, b, k + c)
  {
    hide Pow;
    PowAdd(10, c, k);
    var p := Pow(10, k);
    MulLe(a * Pow(10, c), lo, p);
    MulLe(hi, b * Pow(10, c), p);
    MulAssoc(a, Pow(10, c), p);
    MulAssoc(b, Pow(10, c), p);
  }

  lemma SmallTens()
    ensures Pow(10, 4) == 10000 && Pow(10, 5) == 100000 && Pow(10, 6) == 1000000 && Pow(10, 7) == 10000000
  {
    assert Pow(10, 3) == 1000;
  }

  lemma SixteenBits()
    ensures Between(16, 65536, 65536, 0)
  {
    assert Pow(2, 8) == 256 && Pow(10, 0) == 1;
    hide Pow;
    PowAdd(2, 8, 8);
  }

  /** The smallest double: 2^1074 is two to two and a tenth times 10^323. */
  lemma SmallestDouble()
    ensures 2 * Pow(10, 323) <= Pow(2, 1074) && 10 * Pow(2, 1074) <= 21 * Pow(10, 323)
  {
    hide Pow, Between;
    SixteenBits();
    SmallTens();
    Squared(16, 65536, 65536, 0);
    Doubled(32, 4294967296, 4294967296, 0);
    Coarser(33, 8589934592, 8589934592, 0, 858993, 858994, 4);
    Squared(33, 858993, 858994, 4);
    Doubled(66, 737868974049, 737870692036, 8);
    Coarser(67, 1475737948098, 1475741384072, 8, 147573, 147575, 7);
    FromBits67();
  }

  lemma FromBits67()
    requires Between(67, 147573, 147575, 15)
    ensures 2 * Pow(10, 323) <= Pow(2, 1074) && 10 * Pow(2, 1074) <= 21 * Pow(10, 323)
  {
    hide Pow, Between;
    SmallTens();
    Squared(67, 147573, 147575, 15);
    Coarser(134, 21777790329, 21778380625, 30, 217777, 217784, 5);
    Squared(134, 217777, 217784, 35);
    Coarser(268, 47426821729, 47429870656, 70, 474268, 474299, 5);
    Squared(268, 474268, 474299, 75);
    Doubled(536, 224930135824, 224959541401, 150);
    Coarser(537, 449860271648, 449919082802, 150, 449860, 449920, 6);
    Squared(537, 449860, 449920, 156);
    Coarser(1074, 202374019600, 202428006400, 312, 202374, 202429, 6);
    LastStep();
  }

  lemma LastStep()
    requires Between(1074, 202374, 202429, 318)
    ensures 2 * Pow(10, 323) <= Pow(2, 1074) && 10 * Pow(2, 1074) <= 21 * Pow(10, 323)
  {
    hide Pow;
    SmallTens();
    PowAdd(10, 5, 318);
  }

  /** The unit of the denormals against the power of ten next to it. */
  lemma SmallestUnits(u: real, h: real)
    requires u == Exp(2, -1074) && h == Exp(10, -323)
    ensures 0.0 < 2.0 * u <= h && 10.0 * h <= 21.0 * u
  {
    hide Exp, Pow;
    ZeroPowers();
    ExpAdd(2, -1074, 1074);
    ExpAdd(10, -323, 323);
    SmallestDouble();
    Inverses(u, Pow(2, 1074), h, Pow(10, 323));
  }

  lemma ZeroPowers()
    ensures Exp(2, 0) == 1.0 && Exp(10, 0) == 1.0
  {}

  lemma Inverses(u: real, m: nat, h: real, p: nat)
    requires u > 0.0 && h > 0.0 && u * (m as real) == 1.0 && h * (p as real) == 1.0
    requires 2 * p <= m && 10 * m <= 21 * p
    ensures 2.0 * u <= h && 10.0 * h <= 21.0 * u
  {
    var a, b, k := m as real, p as real, u * h;
    assert u * h > 0.0;
    assert k * a == h && k * b == u;
    assert k * (a - 2.0 * b) >= 0.0;
    assert k * (21.0 * b - 10.0 * a) >= 0.0;
  }

  /** The nine smallest numbers are too far from the powers of ten, or too near one. */
  lemma NineSmallest(f: nat, closer: bool)
    requires 0 < f < 10
    ensures NoTenthIsNearer(f % 2 == 0, V(f, -1074), Above(-1074), Below(-1074, closer))
  {
    hide Exp, V, Above, Below, TenthIsNearer;
    HalfUnits(f, -1074, closer);
    var even, v, a, b := f % 2 == 0, V(f, -1074), Above(-1074), Below(-1074, closer);
    SmallestUnits(Exp(2, -1074), Exp(10, -323));
    HalfIs(-1074);
    FewUnits((2 * f) as real, v, a);
    forall t ensures !TenthIsNearer(even, v, a, b, t) {
      PowerBySmallest(t);
      NoneFits(even, v, a, b, f, Exp(10, -323), t);
    }
  }

  lemma PowerBySmallest(t: int)
    ensures Exp(10, t) >= 10.0 * Exp(10, -323) || 10.0 * Exp(10, t) <= Exp(10, -323) || Exp(10, t) == Exp(10, -323)
  {
    hide Exp;
    ExpNext(10, -323);
    ExpNext(10, -324);
    if t > -323 {
      ExpMonotone(10, -322, t + 322);
    } else if t < -323 {
      ExpMonotone(10, t, -324 - t);
    }
  }

  lemma NoneFits(even: bool, v: real, a: real, b: real, f: nat, h: real, t: int)
    requires 0.0 < b <= a && 4.0 * a <= h && 10.0 * h <= 42.0 * a && 2.0 * a <= v <= 18.0 * a
    requires f <= 1 ==> v == 2.0 * a
    requires f > 1 ==> v >= 4.0 * a
    requires Exp(10, t) >= 10.0 * h || 10.0 * Exp(10, t) <= h || Exp(10, t) == h
    ensures !TenthIsNearer(even, v, a, b, t)
  {
    hide Exp, Num;
  }

  lemma HalfIs(e: int)
    ensures 2.0 * Above(e) == Exp(2, e)
  {
    hide Exp;
    ExpNext(2, e - 1);
  }

  lemma FewUnits(x: real, v: real, a: real)
    requires 2.0 <= x <= 18.0 && a > 0.0 && v == x * a
    ensures 2.0 * a <= v <= 18.0 * a
    ensures x <= 2.0 ==> v == 2.0 * a
    ensures x >= 4.0 ==> 4.0 * a <= v
  {
    UnitsOrder(2.0, x, v, a);
    UnitsOrder(4.0, x, v, a);
    UnitsOrder(18.0, x, v, a);
  }

  lemma UnitsOrder(c: real, x: real, v: real, a: real)
    requires a > 0.0 && v == x * a
    ensures c <= x ==> c * a <= v
    ensures x <= c ==> v <= c * a
  {
    if c <= x {
      NoLarger(a, c, x);
    }
    if x <= c {
      NoLarger(a, x, c);
    }
  }

  /** So for doubles the result is always the nearest. */
  lemma DoublesAreNearest(f: nat, e: int, closer: bool)
    requires IsDouble(f, e)
    ensures NoTenthIsNearer(f % 2 == 0, V(f, e), Above(e), Below(e, closer))
  {
    hide NoTenthIsNearer;
    if f >= 10 {
      LargeSignificand(f, e, closer);
    } else {
      NineSmallest(f, closer);
    }
  }

  /** Significand and exponent of a positive float. */
  predicate IsFloat(f: nat, e: int) {
    || (0x80_0000 <= f < 0x100_0000 && e >= -149)
    || (0 < f < 0x80_0000 && e == -149)
  }

  lemma SmallestFloat()
    ensures 71 * Pow(10, 43) <= Pow(2, 149) <= 72 * Pow(10, 43)
  {
    hide Pow, Between;
    EighteenBits();
    SmallTens();
    Squared(18, 262144, 262144, 0);
    Doubled(36, 68719476736, 68719476736, 0);
    Coarser(37, 137438953472, 137438953472, 0, 13743, 13744, 7);
    Squared(37, 13743, 13744, 7);
    Coarser(74, 188870049, 188897536, 14, 18887, 18890, 4);
    Squared(74, 18887, 18890, 18);
    Doubled(148, 356718769, 356832100, 36);
    Coarser(149, 713437538, 713664200, 36, 71343, 71367, 4);
    LastFloatStep();
  }

  lemma LastFloatStep()
    requires Between(149, 71343, 71367, 40)
    ensures 71 * Pow(10, 43) <= Pow(2, 149) <= 72 * Pow(10, 43)
  {
    assert Pow(10, 3) == 1000;
    hide Pow;
    PowAdd(10, 3, 40);
  }

  lemma EighteenBits()
    ensures Between(18, 262144, 262144, 0)
  {
    assert Pow(2, 9) == 512 && Pow(10, 0) == 1;
    hide Pow;
    PowAdd(2, 9, 9);
  }

  lemma FloatUnits(u: real, h: real)
    requires u == Exp(2, -149) && h == Exp(10, -43)
    ensures 0.0 < 71.0 * u <= h <= 72.0 * u
  {
    hide Exp, Pow;
    ZeroPowers();
    ExpAdd(2, -149, 149);
    ExpAdd(10, -43, 43);
    SmallestFloat();
    FloatInverses(u, Pow(2, 149), h, Pow(10, 43));
  }

  lemma FloatInverses(u: real, m: nat, h: real, p: nat)
    requires u > 0.0 && h > 0.0 && u * (m as real) == 1.0 && h * (p as real) == 1.0
    requires 71 * p <= m <= 72 * p
    ensures 71.0 * u <= h <= 72.0 * u
  {
    var a, b, k := m as real, p as real, u * h;
    assert u * h > 0.0;
    assert k * a == h && k * b == u;
    assert k * (a - 71.0 * b) >= 0.0;
    assert k * (72.0 * b - a) >= 0.0;
  }

  lemma SmallFloats(f: nat, closer: bool)
    requires 0 < f < 10
    ensures NoTenthIsNearer(f % 2 == 0, V(f, -149), Above(-149), Below(-149, closer))
  {
    hide Exp, V, Above, Below, TenthIsNearer;
    HalfUnits(f, -149, closer);
    var even, v, a, b := f % 2 == 0, V(f, -149), Above(-149), Below(-149, closer);
    FloatUnits(Exp(2, -149), Exp(10, -43));
    HalfIs(-149);
    FewUnits((2 * f) as real, v, a);
    UnitsOrder(12.0, (2 * f) as real, v, a);
    UnitsOrder(14.0, (2 * f) as real, v, a);
    forall t ensures !TenthIsNearer(even, v, a, b, t) {
      PowersAround(t);
      NoneFitsFloat(even, v, a, b, Exp(10, -43), t);
    }
  }

  lemma PowersAround(t: int)
    ensures var h := Exp(10, -43);
            Exp(10, t) >= h || 10.0 * Exp(10, t) == h || 100.0 * Exp(10, t) <= h
  {
    hide Exp;
    ExpNext(10, -44);
    ExpNext(10, -45);
    if t >= -43 {
      ExpMonotone(10, -43, t + 43);
    } else if t < -44 {
      ExpMonotone(10, t, -45 - t);
    }
  }

  lemma NoneFitsFloat(even: bool, v: real, a: real, b: real, h: real, t: int)
    requires 0.0 < b <= a && 142.0 * a <= h <= 144.0 * a && 2.0 * a <= v <= 18.0 * a
    requires v <= 12.0 * a || 14.0 * a <= v
    requires Exp(10, t) >= h || 10.0 * Exp(10, t) == h || 100.0 * Exp(10, t) <= h
    ensures !TenthIsNearer(even, v, a, b, t)
  {
    hide Exp, Num;
  }

  lemma FloatsAreNearest(f: nat, e: int, closer: bool)
    requires IsFloat(f, e)
    ensures NoTenthIsNearer(f % 2 == 0, V(f, e), Above(e), Below(e, closer))
  {
    hide NoTenthIsNearer;
    if f >= 10 {
      LargeSignificand(f, e, closer);
    } else {
      SmallFloats(f, closer);
    }
  }

  /** Eight as a single bit: the one-digit result is ten, although eight itself has one digit and reads back. */
  lemma EightBecomesTen()
    ensures Estimates(V(1, 3), Above(3), 1) && TenthIsNearer(false, V(1, 3), Above(3), Below(3, false), 1)
    ensures ShortestFor(false, V(1, 3), Above(3), Below(3, false), [1], 2)
            && !NearestFor(false, V(1, 3), Above(3), Below(3, false), [1], 2)
    ensures Num(8, 0) == V(1, 3) && ReadsBack(false, V(1, 3), Above(3), Below(3, false), Num(8, 0))
  {
    SmallValues();
    var z := Scaled(16, 20, 8, 8, false);
    TenIsBest(z);
    hide Exp, Pow, BestAt, NearestFor, ShortestFor;
    assert Represents(z, V(1, 3), Above(3), Below(3, false), 1);
    FirstPowers();
    BestIsShortest(z, V(1, 3), Above(3), Below(3, false), [1], 2);
    UpperEndIs(z, V(1, 3), Above(3), Below(3, false), 1);
    NotNearest(false, V(1, 3), Above(3), Below(3, false), [1], 2, 1);
  }

  lemma SmallValues()
    ensures Exp(2, 3) == 8.0 && Exp(2, 2) == 4.0 && Exp(10, 0) == 1.0 && Exp(10, 1) == 10.0 && Exp(10, 2) == 100.0
  {
    assert Exp(2, 1) == 2.0;
  }

  lemma TenIsBest(z: Scaled)
    requires z == Scaled(16, 20, 8, 8, false)
    ensures BestAt(z, 0, 1) && InRange(z)
  {
    assert Pow(10, 0) == 1;
  }
}
