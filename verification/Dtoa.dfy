/** From the scaled integers back to the floating-point number they stand for. */
module Dtoa {
  import opened Powers
  import opened Decimal
  import opened Shortest
  import opened StartValues

  /** The documented bound on the estimated power: it may be one too low. */
  ghost predicate Estimates(v: real, above: real, ep: int) {
    Exp(10, ep - 1) <= v && v + above < Exp(10, ep + 1)
  }

  /** The decimals that read back as v; ties go to an even significand. */
  ghost predicate ReadsBack(even: bool, v: real, above: real, below: real, x: real) {
    if even then v - below <= x <= v + above else v - below < x < v + above
  }

  /**
   * What reading to the nearest number with ties to even means: x is nearer to v than to the next
   * larger and the next smaller number, or as near and the significand of v is even. Where the lower
   * neighbour is closer it has the next smaller exponent.
   */
  lemma ReadsBackIsNearest(f: nat, e: int, closer: bool, x: real)
    requires f > 0
    ensures var v, up := V(f, e), V(f + 1, e);
            var down := if closer then V(2 * f - 1, e - 1) else V(f - 1, e);
            && down < v < up
            && (ReadsBack(f % 2 == 0, v, Above(e), Below(e, closer), x) <==>
                && (x > v ==> if f % 2 == 0 then x - v <= up - x else x - v < up - x)
                && (x < v ==> if f % 2 == 0 then v - x <= x - down else v - x < x - down))
  {
    var p := Exp(2, e - 2);
    ExpNext(2, e - 2);
    ExpNext(2, e - 1);
    var v, up := V(f, e), V(f + 1, e);
    var down := if closer then V(2 * f - 1, e - 1) else V(f - 1, e);
    var below := if closer then p else 2.0 * p;
    assert Above(e) == 2.0 * p && Below(e, closer) == below;
    NextNumbers(f, e, p);
    hide Exp, V;
    HalfWay(f % 2 == 0, v, up, down, 2.0 * p, below, x);
  }

  lemma NextNumbers(f: nat, e: int, p: real)
    requires f > 0 && Exp(2, e) == 4.0 * p && Exp(2, e - 1) == 2.0 * p
    ensures V(f + 1, e) == V(f, e) + 4.0 * p && V(f - 1, e) == V(f, e) - 4.0 * p && V(2 * f - 1, e - 1) == V(f, e) - 2.0 * p
  {
    var g := f as real;
    assert (2 * f - 1) as real == 2.0 * g - 1.0 && (f + 1) as real == g + 1.0 && (f - 1) as real == g - 1.0;
    hide Exp;
    OneMore(g, 4.0 * p);
    assert (2.0 * g - 1.0) * (2.0 * p) == g * (4.0 * p) - 2.0 * p;
  }

  lemma OneMore(g: real, q: real)
    ensures (g + 1.0) * q == g * q + q && (g - 1.0) * q == g * q - q
  {}

  lemma HalfWay(even: bool, v: real, up: real, down: real, above: real, below: real, x: real)
    requires above > 0.0 && below > 0.0 && up == v + 2.0 * above && down == v - 2.0 * below
    ensures down < v < up
    ensures ReadsBack(even, v, above, below, x) <==>
            && (x > v ==> if even then x - v <= up - x else x - v < up - x)
            && (x < v ==> if even then v - x <= x - down else v - x < x - down)
  {}

  /** Numbers over the same denominator compare as their numerators. */
  lemma StandsCompare(x: nat, y: nat, den: nat, ep: int, a: real, b: real)
    requires Stands(x, den, ep, a) && Stands(y, den, ep, b)
    ensures x < y <==> a < b
  {
    CompareScaled(x as real, y as real, Exp(10, ep), a, b, den as real);
  }

  lemma CompareScaled(x: real, y: real, t: real, a: real, b: real, d: real)
    requires t > 0.0 && d > 0.0 && x * t == a * d && y * t == b * d
    ensures x < y <==> a < b
  {
    if x < y {
      assert (y - x) * t > 0.0;
      assert (b - a) * d > 0.0;
    } else {
      assert (x - y) * t >= 0.0;
      assert (a - b) * d >= 0.0;
    }
  }

  lemma StandsPlus(x: nat, y: nat, den: nat, ep: int, a: real, b: real)
    requires Stands(x, den, ep, a) && Stands(y, den, ep, b)
    ensures Stands(x + y, den, ep, a + b)
  {
    var t := Exp(10, ep);
    assert ((x + y) as real) * t == (x as real) * t + (y as real) * t;
  }

  lemma PowerStands(k: nat, den: nat, ep: int)
    requires den > 0
    ensures Stands(Pow(10, k) * den, den, ep, Exp(10, ep + k))
  {
    hide Exp, Pow;
    ExpAdd(10, ep, k);
    Rotate(Pow(10, k), den, Exp(10, ep), Exp(10, ep + k));
  }

  lemma Rotate(p: nat, d: nat, t: real, tp: real)
    requires tp == t * (p as real)
    ensures ((p * d) as real) * t == tp * (d as real)
  {
    RealTimes(p, d);
  }

  lemma StandsDown(x: nat, den: nat, ep: int, y: real)
    requires Stands(x, den, ep, y)
    ensures Stands(10 * x, den, ep - 1, y)
  {
    ExpNext(10, ep - 1);
    var t := Exp(10, ep - 1);
    assert ((10 * x) as real) * t == (x as real) * (10.0 * t);
  }

  /** v and the distances to its boundaries over z.d, in units of ten to the power ep. */
  ghost predicate Represents(z: Scaled, v: real, above: real, below: real, ep: int) {
    Stands(z.n, z.d, ep, v) && Stands(z.plus, z.d, ep, above) && Stands(z.minus, z.d, ep, below)
  }

  /** One of the two ends of the interval, or v itself, against w/10^k. */
  lemma Transfer(w: int, d: nat, a: int, t: nat, x: real, ek: real, b: real)
    requires d > 0 && ek > 0.0 && x == (w as real) * ek
    requires (a as real) * (ek * (t as real)) == b * (d as real)
    ensures w * d <= a * t <==> x <= b
    ensures w * d >= a * t <==> x >= b
  {
    RealTimes(w, d);
    RealTimes(a, t);
    Cross(w as real, d as real, a as real, t as real, ek, b);
  }

  lemma Cross(w: real, d: real, a: real, t: real, ek: real, b: real)
    requires d > 0.0 && ek > 0.0 && a * (ek * t) == b * d
    ensures w * d <= a * t <==> w * ek <= b
    ensures w * d >= a * t <==> w * ek >= b
  {
    var gap := w * d - a * t;
    assert gap * ek == (w * ek - b) * d by {
      assert (w * d) * ek == (w * ek) * d;
      assert (a * t) * ek == a * (ek * t);
    }
    SameSign(gap, ek, w * ek - b, d);
  }

  lemma SameSign(x: real, p: real, y: real, q: real)
    requires p > 0.0 && q > 0.0 && x * p == y * q
    ensures (x <= 0.0 <==> y <= 0.0) && (x >= 0.0 <==> y >= 0.0)
  {}

  /** w/10^k is in the integer interval exactly when the decimal reads back as v. */
  lemma InsideMeans(z: Scaled, v: real, above: real, below: real, ep: int, k: nat, w: int)
    requires Represents(z, v, above, below, ep)
    ensures Inside(z, Pow(10, k), w) <==> ReadsBack(z.even, v, above, below, Num(w, ep - k))
  {
    hide Exp, Pow, Inside, ReadsBack;
    ExpAdd(10, ep - k, k);
    InsideScaled(z, v, above, below, Exp(10, ep), Pow(10, k), Exp(10, ep - k), w, Num(w, ep - k));
  }

  lemma InsideScaled(z: Scaled, v: real, above: real, below: real, r: real, t: nat, ek: real, w: int, x: real)
    requires z.d > 0 && ek > 0.0 && r == ek * (t as real) && x == (w as real) * ek
    requires (z.n as real) * r == v * (z.d as real)
    requires (z.plus as real) * r == above * (z.d as real) && (z.minus as real) * r == below * (z.d as real)
    ensures Inside(z, t, w) <==> ReadsBack(z.even, v, above, below, x)
  {
    var d := z.d as real;
    Plus(z.n as real, z.plus as real, r, v, above, d);
    Minus(z.n as real, z.minus as real, r, v, below, d);
    Transfer(w, z.d, z.n + z.plus, t, x, ek, v + above);
    Transfer(w, z.d, z.n - z.minus, t, x, ek, v - below);
    Ends(z.n, z.plus, z.minus, t);
  }

  lemma Ends(n: nat, plus: nat, minus: nat, t: nat)
    ensures (n + plus) * t == n * t + plus * t && (n - minus) * t == n * t - minus * t
  {}

  lemma Plus(x: real, y: real, t: real, a: real, b: real, d: real)
    requires x * t == a * d && y * t == b * d
    ensures (x + y) * t == (a + b) * d
  {}

  lemma Minus(x: real, y: real, t: real, a: real, b: real, d: real)
    requires x * t == a * d && y * t == b * d
    ensures (x - y) * t == (a - b) * d
  {}

  /** Distances at scale 10^k compare as the real distances from v. */
  lemma DistanceMeans(z: Scaled, v: real, above: real, below: real, ep: int, k: nat, w: int, u: int)
    requires Represents(z, v, above, below, ep)
    requires Distance(z, Pow(10, k), w) <= Distance(z, Pow(10, k), u)
    ensures Gap(Num(w, ep - k), v) <= Gap(Num(u, ep - k), v)
  {
    hide Exp, Pow, Distance;
    ExpAdd(10, ep - k, k);
    DistanceScaled(z, v, Exp(10, ep), Pow(10, k), Exp(10, ep - k), w, u, Num(w, ep - k), Num(u, ep - k));
  }

  lemma DistanceScaled(z: Scaled, v: real, r: real, t: nat, ek: real, w: int, u: int, x: real, y: real)
    requires z.d > 0 && ek > 0.0 && r == ek * (t as real) && (z.n as real) * r == v * (z.d as real)
    requires x == (w as real) * ek && y == (u as real) * ek
    requires Distance(z, t, w) <= Distance(z, t, u)
    ensures Gap(x, v) <= Gap(y, v)
  {
    hide Gap, Abs;
    ScaledGap(w, z.d, z.n, t, ek, r, v, x);
    ScaledGap(u, z.d, z.n, t, ek, r, v, y);
    GapOrder(Distance(z, t, w), Distance(z, t, u), ek, Gap(x, v), Gap(y, v), z.d as real);
  }

  ghost function Gap(x: real, y: real): real {
    if x < y then y - x else x - y
  }

  lemma ScaledGap(w: int, d: nat, n: nat, t: nat, ek: real, r: real, v: real, x: real)
    requires d > 0 && ek > 0.0 && r == ek * (t as real) && (n as real) * r == v * (d as real) && x == (w as real) * ek
    ensures (Abs(w * d - n * t) as real) * ek == Gap(x, v) * (d as real)
  {
    Transfer(w, d, n, t, x, ek, v);
    RealTimes(w, d);
    RealTimes(n, t);
    GapProduct(w as real, d as real, n as real, t as real, ek, r, v);
  }

  lemma GapProduct(w: real, d: real, n: real, t: real, ek: real, r: real, v: real)
    requires r == ek * t && n * r == v * d
    ensures (w * d - n * t) * ek == (w * ek - v) * d
    ensures (n * t - w * d) * ek == (v - w * ek) * d
  {
    assert (w * d) * ek == (w * ek) * d;
    assert (n * t) * ek == n * (ek * t);
  }

  lemma GapOrder(x: nat, y: nat, ek: real, a: real, b: real, d: real)
    requires x <= y && ek > 0.0 && d > 0.0
    requires (x as real) * ek == a * d && (y as real) * ek == b * d
    ensures a <= b
  {
    CompareScaled(y as real, x as real, ek, b, a, d);
  }

  /** What FixupMultiply10 tests: whether the upper boundary has reached one. */
  predicate ReachesOne(z: Scaled) {
    if z.even then z.n + z.plus >= z.d else z.n + z.plus > z.d
  }

  method FixupMultiply10(ep: int, z: Scaled, ghost v: real, ghost above: real, ghost below: real)
    returns (y: Scaled, point: int)
    requires Represents(z, v, above, below, ep)
    ensures Represents(y, v, above, below, point - 1) && y.d == z.d && y.even == z.even
    ensures if ReachesOne(z) then y == z && point == ep + 1
            else point == ep && y == Scaled(10 * z.n, z.d, 10 * z.minus, 10 * z.plus, z.even)
  {
    if ReachesOne(z) {
      y, point := z, ep + 1;
    } else {
      StandsDown(z.n, z.d, ep, v);
      StandsDown(z.minus, z.d, ep, below);
      StandsDown(z.plus, z.d, ep, above);
      y, point := Scaled(10 * z.n, z.d, 10 * z.minus, 10 * z.plus, z.even), ep;
    }
  }

  /** Whatever estimate meets the documented bound, the fixed-up fraction lies between one and ten. */
  lemma FixupInRange(z: Scaled, ep: int, v: real, above: real, below: real)
    requires Represents(z, v, above, below, ep) && Estimates(v, above, ep)
    requires 0.0 < below < v && z.minus > 0 && z.plus > 0
    ensures if ReachesOne(z) then InRange(z)
            else InRange(Scaled(10 * z.n, z.d, 10 * z.minus, 10 * z.plus, z.even))
  {
    hide Exp, Pow, Stands;
    StandsCompare(z.minus, z.n, z.d, ep, below, v);
    StandsPlus(z.n, z.plus, z.d, ep, v, above);
    PowerStands(1, z.d, ep);
    StandsCompare(z.n + z.plus, Pow(10, 1) * z.d, z.d, ep, v + above, Exp(10, ep + 1));
    StandsDown(z.n, z.d, ep, v);
    PowerStands(0, z.d, ep - 1);
    StandsCompare(10 * z.n, Pow(10, 0) * z.d, z.d, ep - 1, v, Exp(10, ep - 1));
    assert Pow(10, 1) == 10 && Pow(10, 0) == 1 by { FirstPowers(); }
  }

  lemma FirstPowers()
    ensures Pow(10, 1) == 10 && Pow(10, 0) == 1
  {}

  /** When one digit is not enough the whole interval lies above one. */
  lemma IntervalAboveOne(z: Scaled, v: real, above: real, below: real, ep: int, x: real)
    requires InRange(z) && Represents(z, v, above, below, ep)
    requires !Inside(z, 1, 1) && ReadsBack(z.even, v, above, below, x)
    ensures x > Exp(10, ep)
  {
    hide Exp, Pow;
    Minus(z.n as real, z.minus as real, Exp(10, ep), v, below, z.d as real);
    LowerEndAbove(z.n - z.minus, z.d, Exp(10, ep), v - below);
  }

  lemma LowerEndAbove(a: int, d: nat, t: real, b: real)
    requires d > 0 && t > 0.0 && (a as real) * t == b * (d as real)
    ensures a > d ==> b > t
    ensures a >= d ==> b >= t
  {
    CompareScaled(d as real, a as real, t, t, b, d as real);
    CompareScaled(a as real, d as real, t, b, t, d as real);
  }

  /** No decimal with fewer than k + 1 digits, wherever its point, reads back as v. */
  lemma NoShorterDecimal(z: Scaled, v: real, above: real, below: real, ep: int, k: nat, l: nat, w: nat, q: int)
    requires InRange(z) && Represents(z, v, above, below, ep) && 0.0 < below < v && NoneShorter(z, k)
    requires l <= k && w < Pow(10, l)
    ensures !ReadsBack(z.even, v, above, below, Num(w, q))
  {
    if l > 0 && ReadsBack(z.even, v, above, below, Num(w, q)) {
      assert Pow(10, 0) == 1;
      assert !Inside(z, Pow(10, 0), 1);
      IntervalAboveOne(z, v, above, below, ep, Num(w, q));
      NumBelow(w, l, q);
      PlaceOf(q + l, ep);
      var j := q + l - 1 - ep;
      NumShift(w, q - j, j);
      InsideMeans(z, v, above, below, ep, l - 1, w * Pow(10, j));
    }
  }

  lemma PlaceOf(a: int, b: int)
    requires Exp(10, b) < Exp(10, a)
    ensures b < a
  {
    if a <= b {
      ExpMonotone(10, a, b - a);
    }
  }

  /** The digits of a result: the number they denote with the decimal point in its place. */
  ghost function Printed(digits: seq<int>, point: int): real {
    Num(Dec(digits), point - |digits|)
  }

  /**
   * The promise of the shortest mode: the digits read back as v, no decimal
   * with fewer digits does, and none with as many in the same places is nearer.
   */
  ghost predicate ShortestFor(even: bool, v: real, above: real, below: real, digits: seq<int>, point: int) {
    && ReadsBack(even, v, above, below, Printed(digits, point))
    && (forall l: nat, w: nat, q: int {:trigger Pow(10, l), Num(w, q)} | l < |digits| && w < Pow(10, l) ::
          !ReadsBack(even, v, above, below, Num(w, q)))
    && (forall w: int {:trigger Num(w, point - |digits|)} | ReadsBack(even, v, above, below, Num(w, point - |digits|)) ::
          Gap(Printed(digits, point), v) <= Gap(Num(w, point - |digits|), v))
  }

  /** The integer result of the digit loop is the promise about the real number. */
  lemma BestIsShortest(z: Scaled, v: real, above: real, below: real, digits: seq<int>, point: int)
    requires InRange(z) && Represents(z, v, above, below, point - 1) && 0.0 < below < v
    requires digits != [] && BestAt(z, |digits| - 1, Dec(digits))
    ensures ShortestFor(z.even, v, above, below, digits, point)
  {
    var k, d := |digits| - 1, Dec(digits);
    InsideMeans(z, v, above, below, point - 1, k, d);
    forall l: nat, w: nat, q: int {:trigger Pow(10, l), Num(w, q)} | l < |digits| && w < Pow(10, l)
      ensures !ReadsBack(z.even, v, above, below, Num(w, q))
    {
      NoShorterDecimal(z, v, above, below, point - 1, k, l, w, q);
    }
    forall w: int {:trigger Num(w, point - |digits|)} | ReadsBack(z.even, v, above, below, Num(w, point - |digits|))
      ensures Gap(Printed(digits, point), v) <= Gap(Num(w, point - |digits|), v)
    {
      InsideMeans(z, v, above, below, point - 1, k, w);
      DistanceMeans(z, v, above, below, point - 1, k, d, w);
    }
  }

  /** No decimal with as many digits, wherever its point, reads back and is nearer. */
  ghost predicate NearestFor(even: bool, v: real, above: real, below: real, digits: seq<int>, point: int) {
    forall w: nat, q: int {:trigger Num(w, q)} |
      w < Pow(10, |digits|) && ReadsBack(even, v, above, below, Num(w, q)) ::
      Gap(Printed(digits, point), v) <= Gap(Num(w, q), v)
  }

  /** v lies below 0.95 * 10^t, and both 10^t and 0.9 * 10^t read back as v. */
  ghost predicate TenthIsNearer(even: bool, v: real, above: real, below: real, t: int) {
    && ReadsBack(even, v, above, below, Exp(10, t)) && ReadsBack(even, v, above, below, Num(9, t - 1))
    && 20.0 * v < 19.0 * Exp(10, t)
  }

  ghost predicate NoTenthIsNearer(even: bool, v: real, above: real, below: real) {
    forall t :: !TenthIsNearer(even, v, above, below, t)
  }

  /** The interval after the fixup: its upper end has reached one but not passed ten. */
  ghost predicate UpperEnd(even: bool, top: real, t: real) {
    if even then t <= top < 10.0 * t else t < top <= 10.0 * t
  }

  lemma UpperEndIs(z: Scaled, v: real, above: real, below: real, ep: int)
    requires InRange(z) && Represents(z, v, above, below, ep)
    ensures UpperEnd(z.even, v + above, Exp(10, ep))
  {
    hide Exp, Pow, Stands;
    var n, t := z.n + z.plus, Exp(10, ep);
    StandsPlus(z.n, z.plus, z.d, ep, v, above);
    PowerStands(0, z.d, ep);
    PowerStands(1, z.d, ep);
    FirstPowers();
    ExpNext(10, ep);
    StandsCompare(n, z.d, z.d, ep, v + above, t);
    StandsCompare(z.d, n, z.d, ep, t, v + above);
    StandsCompare(n, 10 * z.d, z.d, ep, v + above, 10.0 * t);
    StandsCompare(10 * z.d, n, z.d, ep, 10.0 * t, v + above);
  }

  /** A decimal with a digit below the last place of the result, but no more digits, lies below the first place. */
  lemma BelowFirstPlace(w: nat, l: nat, q: int, point: int)
    requires w < Pow(10, l) && q < point - l
    ensures Num(w, q) < Exp(10, point - 1)
  {
    hide Exp, Pow;
    NumBelow(w, l, q);
    ExpMonotone(10, q + l, point - 1 - (q + l));
  }

  lemma NineTenths(t: int)
    ensures 10.0 * Num(9, t - 1) == 9.0 * Exp(10, t) && Num(1, t) == Exp(10, t)
  {
    hide Exp;
    ExpNext(10, t - 1);
  }

  /** One digit below the first place is nine tenths of it at most. */
  lemma OneDigitBelow(w: nat, q: int, t: int)
    requires w < 10 && q < t
    ensures Num(w, q) <= Num(9, t - 1)
  {
    hide Exp;
    ExpMonotone(10, q, t - 1 - q);
    NineTimes(w as real, Exp(10, q), Exp(10, t - 1));
  }

  lemma NineTimes(w: real, x: real, y: real)
    requires 0.0 <= w <= 9.0 && 0.0 < x <= y
    ensures w * x <= 9.0 * y
  {
    assert (9.0 - w) * x >= 0.0;
  }

  /** The choices open to a decimal below the first place, on the real line. */
  lemma TenthDecides(even: bool, v: real, above: real, below: real, t: real, y: real, x: real)
    requires UpperEnd(even, v + above, t) && 10.0 * y == 9.0 * t && x <= y && 0.0 < t
    requires ReadsBack(even, v, above, below, x)
    ensures ReadsBack(even, v, above, below, t) && ReadsBack(even, v, above, below, y)
    ensures 20.0 * v >= 19.0 * t ==> Gap(t, v) <= Gap(x, v)
  {}

  lemma StaysNearest(even: bool, v: real, above: real, below: real, digits: seq<int>, point: int, w: nat, q: int)
    requires ShortestFor(even, v, above, below, digits, point) && digits != []
    requires UpperEnd(even, v + above, Exp(10, point - 1)) && !TenthIsNearer(even, v, above, below, point - 1)
    requires w < Pow(10, |digits|) && ReadsBack(even, v, above, below, Num(w, q))
    ensures Gap(Printed(digits, point), v) <= Gap(Num(w, q), v)
  {
    hide Exp, Pow, Printed, Num, Gap;
    if q >= point - |digits| {
      var n := q - (point - |digits|);
      NumShift(w, point - |digits|, n);
      var x := w * Pow(10, n);
      assert Num(x, point - |digits|) == Num(w, q);
    } else {
      BelowFirstPlace(w, |digits|, q, point);
      BetweenReadsBack(even, v, above, below, Num(w, q), Exp(10, point - 1));
      PowerHasOneDigit(even, v, above, below, digits, point, point - 1);
      NineTenths(point - 1);
      FirstPowers();
      OneDigitBelow(w, q, point - 1);
      TenthDecides(even, v, above, below, Exp(10, point - 1), Num(9, point - 2), Num(w, q));
      assert Gap(Printed(digits, point), v) <= Gap(Num(1, point - |digits|), v);
    }
  }

  lemma PowerHasOneDigit(even: bool, v: real, above: real, below: real, digits: seq<int>, point: int, t: int)
    requires ShortestFor(even, v, above, below, digits, point) && digits != []
    requires ReadsBack(even, v, above, below, Exp(10, t))
    ensures |digits| == 1
  {
    hide Exp, Pow, Num;
    NineTenths(t);
    FirstPowers();
    assert ReadsBack(even, v, above, below, Num(1, t)) && 1 < Pow(10, 1);
  }

  lemma BetweenReadsBack(even: bool, v: real, above: real, below: real, x: real, t: real)
    requires UpperEnd(even, v + above, t) && x < t && ReadsBack(even, v, above, below, x)
    ensures ReadsBack(even, v, above, below, t)
  {}

  /** Where nine tenths are nearer the result is the power of ten above, which is farther. */
  lemma PowerIsFarther(even: bool, v: real, above: real, below: real, digits: seq<int>, point: int, t: int)
    requires ShortestFor(even, v, above, below, digits, point) && Digits(digits) && 0.0 < below < v && above <= v
    requires UpperEnd(even, v + above, Exp(10, point - 1)) && TenthIsNearer(even, v, above, below, t)
    ensures |digits| == 1 && t == point - 1 && Gap(Num(9, t - 1), v) < Gap(Printed(digits, point), v)
  {
    hide Exp, Pow;
    NineTenths(t);
    PowerHasOneDigit(even, v, above, below, digits, point, t);
    SamePower(even, v, above, t, point - 1);
    FirstDigit(digits);
    NotSmaller(Exp(10, t), Dec(digits), Printed(digits, point));
    Farther(v, Exp(10, t), Num(9, t - 1), Printed(digits, point));
  }

  lemma Farther(v: real, t: real, y: real, p: real)
    requires 10.0 * y == 9.0 * t && 20.0 * v < 19.0 * t && 0.0 < t <= p
    ensures Gap(y, v) < Gap(p, v)
  {}

  lemma FirstDigit(digits: seq<int>)
    requires Digits(digits) && |digits| == 1
    ensures Dec(digits) >= 1
  {}

  lemma SamePower(even: bool, v: real, above: real, t: int, p: int)
    requires UpperEnd(even, v + above, Exp(10, p)) && above <= v && 20.0 * v < 19.0 * Exp(10, t)
    requires if even then Exp(10, t) <= v + above else Exp(10, t) < v + above
    ensures t == p
  {
    hide Exp;
    if t > p {
      ExpNext(10, p);
      ExpMonotone(10, p + 1, t - p - 1);
    } else if t < p {
      ExpNext(10, t);
      ExpMonotone(10, t + 1, p - t - 1);
    }
  }

  /**
   * The result is nearest among all decimals with as many digits, wherever
   * their point, exactly when no power of ten is read back for which nine
   * tenths of it are read back too and are nearer.
   */
  lemma NearestUnlessTenth(even: bool, v: real, above: real, below: real, digits: seq<int>, point: int)
    requires ShortestFor(even, v, above, below, digits, point) && Digits(digits) && 0.0 < below < v && above <= v
    requires UpperEnd(even, v + above, Exp(10, point - 1))
    ensures NearestFor(even, v, above, below, digits, point) <==> NoTenthIsNearer(even, v, above, below)
  {
    hide Exp, Pow, ShortestFor, ReadsBack, Printed, Num, Gap, UpperEnd, TenthIsNearer;
    if NoTenthIsNearer(even, v, above, below) {
      forall w: nat, q: int {:trigger Num(w, q)} | w < Pow(10, |digits|) && ReadsBack(even, v, above, below, Num(w, q))
        ensures Gap(Printed(digits, point), v) <= Gap(Num(w, q), v)
      {
        StaysNearest(even, v, above, below, digits, point, w, q);
      }
    } else {
      var t :| TenthIsNearer(even, v, above, below, t);
      NotNearest(even, v, above, below, digits, point, t);
    }
  }

  lemma NotNearest(even: bool, v: real, above: real, below: real, digits: seq<int>, point: int, t: int)
    requires ShortestFor(even, v, above, below, digits, point) && Digits(digits) && 0.0 < below < v && above <= v
    requires UpperEnd(even, v + above, Exp(10, point - 1)) && TenthIsNearer(even, v, above, below, t)
    ensures !NearestFor(even, v, above, below, digits, point)
  {
    hide Exp, Pow, ShortestFor, Printed, Num, Gap, UpperEnd;
    PowerIsFarther(even, v, above, below, digits, point, t);
    FirstPowers();
    assert 9 < Pow(10, |digits|) && ReadsBack(even, v, above, below, Num(9, t - 1));
  }

  /** The start values with the significand's parity. */
  method StartShortest(f: nat, e: int, closer: bool, ep: int) returns (z: Scaled)
    requires f > 0 && (e >= 0 ==> ep >= 0)
    ensures Represents(z, V(f, e), Above(e), Below(e, closer), ep) && z.even == (f % 2 == 0)
    ensures 0 < z.minus <= z.plus <= 2 * z.minus && z.n == 2 * f * z.plus
  {
    var num, den, minus, plus := InitialScaledStartValues(f, e, closer, ep, true);
    z := Scaled(num, den, minus, plus, f % 2 == 0);
  }

  lemma BoundariesApart(f: nat, e: int, closer: bool)
    requires f > 0
    ensures 0.0 < Below(e, closer) < V(f, e) && Above(e) <= V(f, e)
  {
    hide Exp;
    ExpNext(2, e - 1);
    ExpNext(2, e - 2);
    NotSmaller(Exp(2, e), f, V(f, e));
  }

  /** 4 * f + 2 distances below reach past one, which bounds the number of digits. */
  lemma DigitsBound(z: Scaled, f: nat, size: nat)
    requires InRange(z) && z.plus <= 2 * z.minus && z.n == 2 * f * z.plus
    requires size > 0 && 4 * f + 2 <= Pow(10, size - 1)
    ensures z.d <= z.minus * Pow(10, size - 1)
  {
    hide Pow;
    MulLe(z.plus, 2 * z.minus, 2 * f + 1);
    assert z.n + z.plus == (2 * f + 1) * z.plus;
    assert (2 * f + 1) * (2 * z.minus) == (4 * f + 2) * z.minus;
    MulLe(4 * f + 2, Pow(10, size - 1), z.minus);
  }

  /** BignumDtoa in shortest mode; an 18-place buffer is enough for any double. */
  method ShortestDtoa(f: nat, e: int, closer: bool, ep: int, buffer: array<int>) returns (length: nat, point: int)
    requires Estimates(V(f, e), Above(e), ep)
    requires buffer.Length > 0 && 4 * f + 2 <= Pow(10, buffer.Length - 1)
    modifies buffer
    ensures 0 < length <= buffer.Length && Shortest.Digits(buffer[..length])
    ensures ShortestFor(f % 2 == 0, V(f, e), Above(e), Below(e, closer), buffer[..length], point)
    ensures NearestFor(f % 2 == 0, V(f, e), Above(e), Below(e, closer), buffer[..length], point)
            <==> NoTenthIsNearer(f % 2 == 0, V(f, e), Above(e), Below(e, closer))
  {
    hide Exp, Pow, V, Above, Below, Represents, BestAt, ShortestFor, InRange, Dec, NearestFor, NoTenthIsNearer, UpperEnd;
    WholeNeedsPower(f, e, ep);
    ghost var v, above, below := V(f, e), Above(e), Below(e, closer);
    var z := StartShortest(f, e, closer, ep);
    BoundariesApart(f, e, closer);
    FixupInRange(z, ep, v, above, below);
    var y;
    y, point := FixupMultiply10(ep, z, v, above, below);
    TenTimes(2 * f, z.plus);
    DigitsBound(y, f, buffer.Length);
    length := GenerateShortestDigits(y, buffer);
    BestIsShortest(y, v, above, below, buffer[..length], point);
    UpperEndIs(y, v, above, below, point - 1);
    NearestUnlessTenth(y.even, v, above, below, buffer[..length], point);
  }
}
