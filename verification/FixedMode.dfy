/** BignumDtoa in fixed and precision mode: rounding half up to a number of places. */
module FixedMode {
  import opened Powers
  import opened Decimal
  import opened Shortest
  import opened StartValues
  import opened Dtoa
  import opened Counted
  import opened ExactPowers

  /** x rounded to an integer, halves upwards. */
  ghost function Rounded(x: real): int {
    (x + 0.5).Floor
  }

  /** v rounded half up to the given number of places after the point. */
  ghost function RoundedTo(v: real, places: int): real {
    Num(Rounded(Times(v, Exp(10, places))), -places)
  }

  ghost function Times(x: real, y: real): real {
    x * y
  }

  /** A multiple of the last place no further from v than half of it, and the larger of two such. */
  lemma RoundedMeans(v: real, places: int) returns (n: int)
    ensures RoundedTo(v, places) == Num(n, -places)
    ensures var r, half := Num(n, -places), Exp(10, -places) / 2.0; r - half <= v < r + half
  {
    hide Num, Rounded, RoundedTo, Exp;
    var p, unit := Exp(10, places), Exp(10, -places);
    var x := Times(v, p);
    n := Rounded(x);
    RoundedIs(v, places, p);
    NumIs(n, -places, unit);
    Reciprocal(places, p, unit);
    RoundedNear(x);
    NearestUnit(v, x, n as real, p, unit);
  }

  lemma RoundedIs(v: real, places: int, p: real)
    requires p == Exp(10, places)
    ensures RoundedTo(v, places) == Num(Rounded(Times(v, p)), -places)
  {
    hide Num, Rounded, Times;
  }

  lemma NumIs(n: int, e: int, p: real)
    requires p == Exp(10, e)
    ensures Num(n, e) == (n as real) * p
  {}

  lemma RoundedNear(x: real)
    ensures Rounded(x) as real - 0.5 <= x < Rounded(x) as real + 0.5
  {}

  lemma Reciprocal(places: int, p: real, unit: real)
    requires p == Exp(10, places) && unit == Exp(10, -places)
    ensures p * unit == 1.0 && unit > 0.0
  {
    assert Exp(10, 0) == 1.0;
    hide Exp, Pow;
    if places >= 0 {
      ExpAdd(10, -places, places);
      ExpNat(10, places);
    } else {
      ExpAdd(10, places, -places);
      ExpNat(10, -places);
    }
  }

  lemma NearestUnit(v: real, x: real, n: real, p: real, unit: real)
    requires p * unit == 1.0 && unit > 0.0 && x == v * p && n - 0.5 <= x < n + 0.5
    ensures n * unit - unit / 2.0 <= v < n * unit + unit / 2.0
  {
    assert x * unit == v * (p * unit) == v;
    assert (n - 0.5) * unit == n * unit - unit / 2.0 && (n + 0.5) * unit == n * unit + unit / 2.0;
    TimesUnit(n - 0.5, x, unit);
    TimesUnit(x, n + 0.5, unit);
  }

  lemma TimesUnit(a: real, b: real, u: real)
    requires u > 0.0
    ensures a <= b ==> a * u <= b * u
    ensures a < b ==> a * u < b * u
  {}

  /** Rounding a fraction of integers is rounding the real number. */
  lemma HalfUpRounds(a: nat, b: nat, x: real)
    requires b > 0 && x * (b as real) == a as real
    ensures HalfUp(a, b) == Rounded(x)
  {
    var r := HalfUp(a, b);
    assert 2 * b * r <= 2 * a + b < 2 * b * r + 2 * b by {
      QuotientBounds(2 * a + b, 2 * b, r);
    }
    RealTimes(b, r);
    RoundedBounds(a as real, b as real, r as real, x);
  }

  lemma QuotientBounds(p: nat, m: nat, q: nat)
    requires m > 0 && q == p / m
    ensures m * q <= p < m * q + m
  {}

  lemma RoundedBounds(a: real, b: real, r: real, x: real)
    requires b > 0.0 && x * b == a && 2.0 * (b * r) <= 2.0 * a + b < 2.0 * (b * r) + 2.0 * b
    ensures r <= x + 0.5 < r + 1.0
  {
    var y := x - r;
    assert y * b == a - b * r;
    assert (y + 0.5) * b == y * b + 0.5 * b;
    assert (0.5 - y) * b == 0.5 * b - y * b;
    Positive(y + 0.5, b);
    Positive(0.5 - y, b);
  }

  lemma Positive(y: real, b: real)
    requires b > 0.0
    ensures y * b >= 0.0 ==> y >= 0.0
    ensures y * b > 0.0 ==> y > 0.0
  {}

  /** v scaled by the places wanted is num times a power of ten over den. */
  lemma ScaledValue(num: nat, den: nat, point: int, v: real, places: int)
    requires Stands(num, den, point - 1, v)
    ensures point - 1 + places >= 0 ==>
              (v * Exp(10, places)) * (den as real) == (num * Pow(10, point - 1 + places)) as real
    ensures point + places == 0 ==> (v * Exp(10, places)) * ((10 * den) as real) == num as real
  {
    hide Exp, Pow;
    var k := point - 1 + places;
    if k >= 0 {
      ExpAdd(10, -places, k);
      ExpAdd(10, point - 1, 0);
      Inverse(places);
      RealTimes(num, Pow(10, k));
      ScaleUp(num as real, den as real, v, Exp(10, point - 1), Exp(10, -places), Exp(10, places), Pow(10, k) as real);
    }
    if point + places == 0 {
      Inverse(places);
      ExpNext(10, point - 1);
      ScaleTen(num as real, den as real, v, Exp(10, point - 1), Exp(10, point), Exp(10, places));
    }
  }

  lemma Inverse(e: int)
    ensures Exp(10, e) * Exp(10, -e) == 1.0
    decreases if e < 0 then 1 else 0
  {
    assert Exp(10, 0) == 1.0;
    hide Pow, Exp;
    if e < 0 {
      Inverse(-e);
    } else {
      ExpAdd(10, -e, e);
      ExpNat(10, e);
    }
  }

  lemma ScaleUp(n: real, d: real, v: real, a: real, b: real, c: real, p: real)
    requires n * a == v * d && a == b * p && c * b == 1.0
    ensures (v * c) * d == n * p
  {
    assert (v * c) * d == c * (v * d);
    assert c * (n * (b * p)) == (c * b) * (n * p);
  }

  lemma ScaleTen(n: real, d: real, v: real, a: real, b: real, c: real)
    requires n * a == v * d && b == 10.0 * a && c * b == 1.0
    ensures (v * c) * (10.0 * d) == n
  {
    assert (v * c) * (10.0 * d) == 10.0 * c * (v * d);
    assert 10.0 * c * (n * a) == n * (c * (10.0 * a));
  }

  lemma ExpSum(a: int, b: int)
    ensures Exp(10, a) * Exp(10, b) == Exp(10, a + b)
  {
    hide Exp, Pow;
    if b >= 0 {
      ExpAdd(10, a, b);
      ExpNat(10, b);
    } else {
      ExpAdd(10, a + b, -b);
      ExpNat(10, -b);
      Inverse(b);
      CancelInverse(Exp(10, a), Exp(10, a + b), Exp(10, -b), Exp(10, b));
    }
  }

  lemma CancelInverse(x: real, y: real, p: real, q: real)
    requires x == y * p && q * p == 1.0
    ensures x * q == y
  {
    assert (y * p) * q == y * (q * p);
  }

  /** What lies below a tenth of the last place rounds to zero. */
  lemma TinyRoundsToZero(v: real, point: int, places: int)
    requires 0.0 <= v < Exp(10, point) && point + places < 0
    ensures RoundedTo(v, places) == 0.0
  {
    hide Exp, Num, Rounded;
    TenthOfPlace(point + places);
    ExpSum(point, places);
    BelowTenth(v, Exp(10, point), Exp(10, places), Exp(10, point + places), Times(v, Exp(10, places)));
    PrintedShort(-places);
  }

  lemma TenthOfPlace(e: int)
    requires e < 0
    ensures Exp(10, e) <= 0.1
  {
    hide Exp;
    ExpMonotone(10, e, -1 - e);
    Tenth();
  }

  lemma Tenth()
    ensures Exp(10, -1) == 0.1
  {
    assert Exp(10, 0) == 1.0;
  }

  lemma RoundsToZero(x: real)
    requires 0.0 <= x < 0.5
    ensures Rounded(x) == 0
  {}

  lemma BelowTenth(x: real, y: real, k: real, c: real, p: real)
    requires 0.0 <= x < y && k > 0.0 && y * k == c && c <= 0.1 && p == x * k
    ensures Rounded(p) == 0
  {
    assert (y - x) * k > 0.0;
    assert (y - x) * k == y * k - p;
    assert 0.0 <= p < c;
    RoundsToZero(p);
  }

  lemma BelowTen(num: nat, den: nat, point: int, v: real)
    requires Stands(num, den, point - 1, v) && num < 10 * den
    ensures 0.0 <= v < Exp(10, point)
  {
    hide Exp, Stands;
    PowerStands(1, den, point - 1);
    FirstPowers();
    StandsCompare(num, Pow(10, 1) * den, den, point - 1, v, Exp(10, point));
    NotNegative(num, den, point - 1, v);
  }

  lemma NotNegative(num: nat, den: nat, ep: int, v: real)
    requires Stands(num, den, ep, v)
    ensures v >= 0.0
  {
    var t, d := Exp(10, ep), den as real;
    assert (num as real) * t >= 0.0;
    assert v < 0.0 ==> v * d < 0.0;
  }

  /** Counted digits with the point in its place are the rounded number. */
  lemma CountedIsRounded(num: nat, den: nat, point: int, places: int, v: real, digits: seq<int>, newPoint: int)
    requires Stands(num, den, point - 1, v) && point + places > 0
    requires CountedFor(num, den, point + places, point, digits, newPoint)
    ensures Printed(digits, newPoint) == RoundedTo(v, places)
  {
    hide Exp, Pow, Dec, HalfUp, Stands, Num, Rounded;
    var count := point + places;
    ScaledValue(num, den, point, v, places);
    HalfUpRounds(num * Pow(10, count - 1), den, v * Exp(10, places));
    if newPoint != point {
      NumShift(Dec(digits), -places, 1);
      FirstPowers();
    }
  }

  /** One place too few: the whole number rounds to nothing or to one unit. */
  lemma SingleUnit(num: nat, den: nat, point: int, places: int, v: real)
    requires Stands(num, den, point - 1, v) && point + places == 0 && num < 10 * den
    ensures RoundedTo(v, places) == Num(if num + num >= 10 * den then 1 else 0, point)
  {
    hide Exp, HalfUp, Num, Rounded;
    ScaledValue(num, den, point, v, places);
    HalfUpIs(num, 10 * den, 0, num);
    HalfUpRounds(num, 10 * den, v * Exp(10, places));
  }

  lemma PrintedShort(point: int)
    ensures Printed([], point) == 0.0
    ensures Printed([1], point + 1) == Num(1, point)
    ensures Num(0, point) == 0.0
  {
    hide Exp;
    assert Dec([1]) == 1;
  }

  method BignumToFixed(places: int, point: int, num: nat, den: nat, buffer: array<int>, ghost v: real)
    returns (length: nat, newPoint: int)
    requires Stands(num, den, point - 1, v) && num < 10 * den
    requires 0 < buffer.Length && point + places <= buffer.Length
    modifies buffer
    ensures length <= buffer.Length && DecimalDigits(buffer[..length])
    ensures Printed(buffer[..length], newPoint) == RoundedTo(v, places)
    ensures num >= den && length > 0 ==> buffer[0] > 0
    ensures length == 0 ==> newPoint == -places
  {
    hide Exp, Stands, Num, Printed, RoundedTo, CountedFor;
    BelowTen(num, den, point, v);
    if -point > places {
      TinyRoundsToZero(v, point, places);
      length, newPoint := 0, -places;
      PrintedShort(newPoint);
      assert buffer[..0] == [];
    } else if -point == places {
      SingleUnit(num, den, point, places, v);
      PrintedShort(point);
      if num + num >= 10 * den {
        buffer[0] := 1;
        length, newPoint := 1, point + 1;
        assert buffer[..1] == [1];
      } else {
        length, newPoint := 0, point;
        assert buffer[..0] == [];
      }
    } else {
      length, newPoint := GenerateCountedDigits(point + places, point, num, den, buffer);
      CountedIsRounded(num, den, point, places, v, buffer[..length], newPoint);
      CountedDigits(num, den, point + places, point, buffer[..length], newPoint);
    }
  }

  lemma CountedDigits(num: nat, den: nat, count: nat, point: int, digits: seq<int>, newPoint: int)
    requires CountedFor(num, den, count, point, digits, newPoint)
    ensures DecimalDigits(digits)
  {}

  /** v without boundaries, as fixed and precision mode start from it. */
  method StartPlain(f: nat, e: int, closer: bool, ep: int) returns (z: Scaled)
    requires e >= 0 ==> ep >= 0
    ensures Represents(z, V(f, e), 0.0, 0.0, ep) && z.minus == z.plus == 0 && z.even == (f % 2 == 0)
  {
    var num, den, minus, plus := InitialScaledStartValues(f, e, closer, ep, false);
    z := Scaled(num, den, minus, plus, f % 2 == 0);
  }

  /**
   * Without boundaries the fixed-up fraction is below ten unless the
   * significand is odd and v is the estimated power of ten itself.
   */
  lemma FixupBelowTen(z: Scaled, ep: int, v: real)
    requires Represents(z, v, 0.0, 0.0, ep) && z.minus == z.plus == 0
    requires Exp(10, ep - 1) <= v < Exp(10, ep + 1)
    ensures var n := if ReachesOne(z) then z.n else 10 * z.n;
            z.d <= n && (n < 10 * z.d <==> z.even || v != Exp(10, ep))
  {
    hide Exp, Stands;
    ExactMeans(z.n, z.d, ep, v);
    StandsDown(z.n, z.d, ep, v);
    ExactMeans(10 * z.n, z.d, ep - 1, v);
    PowerStands(1, z.d, ep);
    FirstPowers();
    StandsCompare(z.n, Pow(10, 1) * z.d, z.d, ep, v, Exp(10, ep + 1));
  }

  /** The number 1 with the odd significand 1: the first digit would be ten. */
  lemma OddOneFails()
    ensures var z := Scaled(1, 1, 0, 0, false);
            Represents(z, V(1, 0), 0.0, 0.0, 0) && !ReachesOne(z) && (10 * z.n) / z.d == 10
  {
    assert Exp(2, 0) == 1.0 == Exp(10, 0);
  }

  /** BignumDtoa in fixed mode. */
  method FixedDtoa(f: nat, e: int, closer: bool, ep: int, places: int, buffer: array<int>)
    returns (length: nat, point: int)
    requires Exp(10, ep - 1) <= V(f, e) < Exp(10, ep + 1)
    requires f % 2 == 0 || V(f, e) != Exp(10, ep)
    requires 0 < buffer.Length && ep + 1 + places <= buffer.Length
    modifies buffer
    ensures length <= buffer.Length && DecimalDigits(buffer[..length])
    ensures Printed(buffer[..length], point) == RoundedTo(V(f, e), places)
    ensures length > 0 ==> buffer[0] > 0
    ensures length == 0 ==> point == -places
  {
    hide Exp, V, Stands, Printed, RoundedTo;
    ghost var v := V(f, e);
    WholeNeedsPower(f, e, ep);
    if -ep - 1 > places {
      TinyRoundsToZero(v, ep + 1, places);
      length, point := 0, -places;
      PrintedShort(point);
      assert buffer[..0] == [];
    } else {
      var z := StartPlain(f, e, closer, ep);
      FixupBelowTen(z, ep, v);
      var y;
      y, point := FixupMultiply10(ep, z, v, 0.0, 0.0);
      length, point := BignumToFixed(places, point, y.n, y.d, buffer, v);
    }
  }

  /** BignumDtoa in precision mode: as many digits as asked for, the first not zero. */
  method PrecisionDtoa(f: nat, e: int, closer: bool, ep: int, count: nat, buffer: array<int>)
    returns (length: nat, point: int, ghost magnitude: int)
    requires Exp(10, ep - 1) <= V(f, e) < Exp(10, ep + 1)
    requires f % 2 == 0 || V(f, e) != Exp(10, ep)
    requires 0 < count <= buffer.Length
    modifies buffer
    ensures length == count && DecimalDigits(buffer[..count]) && buffer[0] > 0
    ensures Exp(10, magnitude - 1) <= V(f, e) < Exp(10, magnitude)
    ensures Printed(buffer[..count], point) == RoundedTo(V(f, e), count - magnitude)
  {
    hide Exp, V, Stands, Printed, RoundedTo, CountedFor;
    ghost var v := V(f, e);
    WholeNeedsPower(f, e, ep);
    var z := StartPlain(f, e, closer, ep);
    FixupBelowTen(z, ep, v);
    var y, newPoint;
    y, point := FixupMultiply10(ep, z, v, 0.0, 0.0);
    magnitude := point;
    BelowTen(y.n, y.d, point, v);
    ExactMeans(y.n, y.d, point - 1, v);
    length, newPoint := GenerateCountedDigits(count, point, y.n, y.d, buffer);
    CountedIsRounded(y.n, y.d, point, count - point, v, buffer[..length], newPoint);
    CountedDigits(y.n, y.d, count, point, buffer[..length], newPoint);
    point := newPoint;
  }
}
