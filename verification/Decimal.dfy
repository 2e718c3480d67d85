/** Decimal digit strings and powers with a possibly negative exponent. */
module Decimal {
  import opened Powers

  /** The number a digit string denotes; a character is given by its distance from '0'. */
  function Dec(s: seq<int>): int {
    if s == [] then 0 else 10 * Dec(s[..|s| - 1]) + s[|s| - 1]
  }

  predicate DecimalDigits(s: seq<int>) {
    forall i :: 0 <= i < |s| ==> 0 <= s[i] <= 9
  }

  lemma DecSnoc(s: seq<int>, d: int)
    ensures Dec(s + [d]) == 10 * Dec(s) + d
  {
    assert (s + [d])[..|s|] == s;
  }

  lemma {:induction false} DecBounds(s: seq<int>)
    requires DecimalDigits(s)
    ensures 0 <= Dec(s) < Pow(10, |s|)
    ensures s != [] && s[0] > 0 ==> Dec(s) >= Pow(10, |s| - 1)
  {
    if s != [] {
      DecBounds(s[..|s| - 1]);
    }
  }

  lemma {:induction false} DecConcat(s: seq<int>, t: seq<int>)
    ensures Dec(s + t) == Dec(s) * Pow(10, |t|) + Dec(t)
  {
    if t == [] {
      assert s + t == s;
    } else {
      var n := |t| - 1;
      DecConcat(s, t[..n]);
      assert s + t == (s + t[..n]) + [t[n]];
      DecSnoc(s + t[..n], t[n]);
      TenTimes(Dec(s), Pow(10, n));
    }
  }

  lemma TenTimes(x: int, p: int)
    ensures 10 * (x * p) == x * (10 * p)
  {}

  /** b to the power e, for any integer e. */
  ghost function Exp(b: nat, e: int): (r: real)
    requires b > 0
    ensures r > 0.0
    decreases if e < 0 then -e else e
  {
    if e == 0 then 1.0
    else if e > 0 then (b as real) * Exp(b, e - 1)
    else Exp(b, e + 1) / (b as real)
  }

  /** The decimal number w * 10^e. */
  ghost function Num(w: int, e: int): real {
    (w as real) * Exp(10, e)
  }

  lemma ExpNext(b: nat, e: int)
    requires b > 0
    ensures Exp(b, e + 1) == (b as real) * Exp(b, e)
  {}

  lemma {:induction false} ExpAdd(b: nat, e: int, n: nat)
    requires b > 0
    ensures Exp(b, e + n) == Exp(b, e) * (Pow(b, n) as real)
  {
    if n > 0 {
      ExpAdd(b, e, n - 1);
      ExpNext(b, e + n - 1);
      RealTimes(b, Pow(b, n - 1));
      ExpStep(b as real, Exp(b, e), Pow(b, n - 1) as real, Exp(b, e + n - 1), Exp(b, e + n), Pow(b, n) as real);
    }
  }

  lemma ExpStep(b: real, x: real, p: real, y: real, z: real, q: real)
    requires y == x * p && z == b * y && q == b * p
    ensures z == x * q
  {}

  lemma RealTimes(x: int, y: int)
    ensures (x * y) as real == (x as real) * (y as real)
  {}

  lemma ExpNat(b: nat, n: nat)
    requires b > 0
    ensures Exp(b, n) == Pow(b, n) as real
  {
    ExpAdd(b, 0, n);
  }

  lemma ExpMonotone(b: nat, e: int, n: nat)
    requires b > 0
    ensures Exp(b, e) <= Exp(b, e + n)
  {
    hide Exp, Pow;
    ExpAdd(b, e, n);
    NotSmaller(Exp(b, e), Pow(b, n), Exp(b, e + n));
  }

  lemma NotSmaller(x: real, p: nat, y: real)
    requires x > 0.0 && p > 0 && y == x * (p as real)
    ensures x <= y
  {
    AtLeast(x, p as real);
  }

  lemma AtLeast(x: real, p: real)
    requires x > 0.0 && p >= 1.0
    ensures x <= x * p
  {
    assert x * (p - 1.0) >= 0.0;
  }

  lemma NoLarger(x: real, a: real, b: real)
    requires x >= 0.0 && a <= b
    ensures x * a <= x * b
  {
    assert x * (b - a) >= 0.0;
  }

  /** Moving n powers of ten from the exponent into the digits. */
  lemma NumShift(w: int, e: int, n: nat)
    ensures Num(w * Pow(10, n), e) == Num(w, e + n)
  {
    hide Exp, Pow;
    ExpAdd(10, e, n);
    RealTimes(w, Pow(10, n));
    MoveFactor(w as real, Pow(10, n) as real, Exp(10, e));
  }

  lemma MoveFactor(w: real, p: real, x: real)
    ensures (w * p) * x == w * (x * p)
  {}

  lemma NumBelow(w: nat, l: nat, e: int)
    requires w < Pow(10, l)
    ensures Num(w, e) < Exp(10, e + l)
  {
    hide Exp, Pow;
    ExpAdd(10, e, l);
    LessTimes(w as real, Pow(10, l) as real, Exp(10, e));
  }

  lemma LessTimes(x: real, y: real, k: real)
    requires x < y && k > 0.0
    ensures x * k < k * y
  {}
}
