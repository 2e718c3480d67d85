/** Division of a Bignum by another when the quotient fits 16 bits. */
module BignumDivide {
  import opened Powers
  import opened Bigits
  import opened Bignums
  import opened BignumCompare

  function W16(x: int): nat { x % 0x1_0000 }

  function Top(a: Bignum): nat
    reads a, a.bigits
    requires a.Valid() && a.used > 0
  {
    a.bigits[a.used - 1]
  }

  /** The weight of the leading digit. */
  ghost function Weight(a: Bignum): (p: nat)
    reads a
    requires a.used > 0
    ensures p >= 1
  {
    BPow(a.BigitLength() - 1)
  }

  /** A number is its leading digit at its place, plus something below that place. */
  lemma LeadingDigit(a: Bignum)
    requires a.Valid() && a.used > 0
    ensures Top(a) * Weight(a) <= a.Value() < (Top(a) + 1) * Weight(a)
    ensures a.used == 1 ==> a.Value() == Top(a) * Weight(a)
  {
    var s, n := a.bigits[..a.used], a.used - 1;
    ValSplit(s, n);
    assert s[n..] == [Top(a)];
    assert Val(s[n..]) == Top(a);
    LeadingScale(Val(s), Val(s[..n]), Top(a), n, a.exponent);
  }

  lemma LeadingScale(sig: nat, low: nat, top: nat, n: nat, e: nat)
    requires sig == low + BPow(n) * top && low < BPow(n)
    ensures top * BPow(n + e) <= sig * BPow(e) < (top + 1) * BPow(n + e)
    ensures low == 0 ==> sig * BPow(e) == top * BPow(n + e)
  {
    BPowAdd(n, e);
    var p, q := BPow(n), BPow(e);
    var lo, hi := top * p, (top + 1) * p;
    assert hi == lo + p;
    MulAssoc(top, p, q);
    MulAssoc(top + 1, p, q);
    Sandwich(lo, sig, hi, q);
  }

  lemma Sandwich(lo: nat, x: nat, hi: nat, q: nat)
    requires lo <= x < hi && q > 0
    ensures lo * q <= x * q < hi * q
  {
    MulLe(lo, x, q);
    MulLt(x, hi, q);
  }

  /**
   * Taking the leading digit's worth of the divisor away from a longer number
   * leaves something positive.  When it leaves fewer places than the divisor
   * has, the divisor's leading digit is the largest one and not its only one.
   */
  lemma AfterReduce(x: nat, t: nat, w: nat, v: nat, top: nat, wo: nat)
    requires t >= 1 && t * w <= x && 0x1000_0000 * wo <= w
    requires top * wo <= v < (top + 1) * wo && top < 0x1000_0000
    ensures t * v <= x && x - t * v > 0
    ensures x - t * v < wo ==> top == 0x0FFF_FFFF && v != top * wo
    ensures w <= x - t * v + v
  {
    MulLe(top + 1, 0x1000_0000, wo);
    TimesGap(t, w, v);
    if x - t * v < wo && top < 0x0FFF_FFFF {
      MulLe(top + 1, 0x0FFF_FFFF, wo);
    }
  }

  lemma TimesGap(t: nat, w: nat, v: nat)
    requires t >= 1 && v <= w
    ensures t * w - t * v >= w - v
  {
    assert t * w - t * v == t * (w - v);
    MulLe(1, t, w - v);
  }

  /** What the first loop keeps: never zero, and short only below a divisor led by the largest digit. */
  ghost predicate Reduced(x: Bignum, other: Bignum)
    reads x, x.bigits, other, other.bigits
  {
    && x.Valid() && other.Valid() && other.used > 0 && x.bigits != other.bigits && x != other
    && x.exponent <= other.exponent && x.used > 0
    && (x.BigitLength() < other.BigitLength() ==> Top(other) == 0x0FFF_FFFF && other.used > 1)
  }

  lemma LengthBetween(n: nat, k: nat)
    requires BPow(k) <= n < BPow(k + 1)
    ensures Length(n) == k + 1
  {
    var s := FromNat(n);
    FromNatValue(n);
    ValBounds(s);
    hide BPow, Val, FromNat;
    if |s| > k + 1 {
      BPowMonotone(k + 1, |s| - 1);
    } else if |s| < k + 1 {
      BPowMonotone(|s|, k);
    }
  }

  /**
   * When the loop ends with fewer places than the divisor v has, of which
   * there are n: it has run, and the remainder is so short, and the next
   * larger number of its residue class so long, that it cannot stop between.
   */
  ghost predicate EndsShort(x: nat, places: nat, v: nat, n: nat)
    requires v > 0 && n > 0
  {
    places > n && x % v < BPow(n - 1) && x % v + v >= BPow(n)
  }

  /** What the loop has left, read off its last step: rest + v reached place n, or nothing was taken off. */
  lemma ShortExactly(x0: nat, places: nat, v: nat, n: nat, q: nat, rest: nat)
    requires n > 0 && x0 == q * v + rest && BPow(n - 1) <= v && rest < BPow(n) && places >= n
    requires if places > n then rest + v >= BPow(n) else rest >= BPow(n - 1)
    ensures rest < BPow(n - 1) <==> EndsShort(x0, places, v, n)
  {
    hide BPow;
    var r := x0 % v;
    Division(x0, v, x0 / v, r);
    if rest < v {
      Quotient(x0, v, q, rest);
    } else if x0 / v <= q {
      MulLe(x0 / v, q, v);
    } else {
      MulLe(q + 1, x0 / v, v);
    }
  }

  /** So the lengths asserted to be equal differ for B^n over B^n - 1, whatever n above one. */
  lemma LengthsDiffer(n: nat)
    requires n > 1
    ensures BPow(n) > 1 && Length(BPow(n)) == n + 1 && Length(BPow(n) - 1) == n
    ensures EndsShort(BPow(n), n + 1, BPow(n) - 1, n)
  {
    hide BPow, Length;
    BPowMonotone(0, n - 1);
    BPowMonotone(n - 1, n);
    BPowMonotone(n, n + 1);
    LengthBetween(BPow(n), n);
    LengthBetween(BPow(n) - 1, n - 1);
    Quotient(BPow(n), BPow(n) - 1, 1, 1);
  }

  method ReduceOnce(x: Bignum, other: Bignum) returns (t: nat)
    requires Reduced(x, other) && x.BigitLength() > other.BigitLength()
    modifies x, x.bigits
    ensures Reduced(x, other) && 0 < t && old(x.Value()) == t * other.Value() + x.Value()
    ensures x.Value() + other.Value() >= BPow(other.BigitLength())
  {
    t := x.bigits[x.used - 1];
    LeadingDigit(x);
    LeadingDigit(other);
    BPowMonotone(other.BigitLength(), x.BigitLength() - 1);
    AfterReduce(x.Value(), t, Weight(x), other.Value(), Top(other), Weight(other));
    x.SubtractTimes(other, t);
    ShortMeansSmall(x, other);
  }

  lemma ShortMeansSmall(x: Bignum, other: Bignum)
    requires x.Valid() && other.Valid() && other.used > 0
    ensures x.BigitLength() < other.BigitLength() ==> x.Value() < Weight(other)
    ensures x.used == 0 ==> x.Value() == 0
  {
    x.Bounds();
    if x.BigitLength() < other.BigitLength() {
      BPowMonotone(x.BigitLength(), other.BigitLength() - 1);
    }
  }

  /** Lowering the leading digit lowers the number by that much at its place. */
  lemma ReplaceTop(s: seq<nat>, d: nat, e: nat)
    requires Digits(s) && s != [] && d <= s[|s| - 1]
    ensures var n := |s| - 1;
         && Val(s) * BPow(e) == Val(s[n := d]) * BPow(e) + (s[n] - d) * BPow(n + e)
         && Val(s[n := d]) * BPow(e) < (d + 1) * BPow(n + e)
  {
    hide Val, BPow;
    var n := |s| - 1;
    var t := s[n := d];
    ValSplit(s, n);
    ValSplit(t, n);
    assert s[n..] == [s[n]] && t[n..] == [d] && s[..n] == t[..n];
    OneDigit(s[n]);
    OneDigit(d);
    LeadingScale(Val(t), Val(t[..n]), d, n, e);
    BPowAdd(n, e);
    LowerScale(Val(s), Val(t), s[n] - d, BPow(n), BPow(e));
  }

  lemma OneDigit(d: nat)
    ensures Val([d]) == d
  {}

  lemma LowerScale(x: nat, y: nat, k: nat, p: nat, q: nat)
    requires x == y + p * k
    ensures x * q == y * q + k * (p * q)
  {
    MulAssoc(k, p, q);
    assert (y + p * k) * q == y * q + (p * k) * q;
  }

  method LowerTop(x: Bignum, d: nat)
    requires x.Valid() && x.used > 0 && d <= Top(x)
    modifies x, x.bigits
    ensures x.Valid() && old(x.Value()) == x.Value() + (old(Top(x)) - d) * old(Weight(x))
    ensures x.Value() < (d + 1) * old(Weight(x))
  {
    ghost var s := x.bigits[..x.used];
    ReplaceTop(s, d, x.exponent);
    x.bigits[x.used - 1] := d;
    assert x.bigits[..x.used] == s[x.used - 1 := d];
    x.Clamp();
  }

  method DivideDigit(top: nat, ob: nat) returns (quotient: nat, rest: nat)
    requires 0 < ob < 0x1000_0000 && top < 0x1000_0000
    ensures rest == top - ob * quotient && rest < ob
  {
    quotient := top / ob;
    assert top == ob * quotient + top % ob;
    rest := W32(top - W32(ob * quotient));
  }

  method DivideByOneDigit(x: Bignum, other: Bignum) returns (quotient: nat)
    requires Reduced(x, other) && x.BigitLength() == other.BigitLength() && other.used == 1
    modifies x, x.bigits
    ensures x.Valid() && x.Value() < other.Value()
    ensures old(x.Value()) == quotient * other.Value() + x.Value()
  {
    var rest;
    quotient, rest := DivideDigit(Top(x), Top(other));
    LeadingDigit(other);
    OneDigitQuotient(Top(x), Top(other), quotient, rest, Weight(x));
    LowerTop(x, rest);
  }

  lemma OneDigitQuotient(top: nat, ob: nat, q: nat, rest: nat, w: nat)
    requires rest == top - ob * q && rest < ob
    ensures (top - rest) * w == q * (ob * w)
    ensures (rest + 1) * w <= ob * w
  {
    MulAssoc(q, ob, w);
    assert top - rest == q * ob;
    MulLe(rest + 1, ob, w);
  }

  /** The estimate from the leading digits never overshoots, and the early exit test is right. */
  lemma Overshoot(x: nat, tb: nat, v: nat, ob: nat, w: nat, e: nat)
    requires tb * w <= x < (tb + 1) * w && ob * w <= v < (ob + 1) * w
    requires e * (ob + 1) <= tb
    ensures e * v <= x
    ensures ob * (e + 1) > tb ==> x - e * v < v
  {
    MulLe(v, (ob + 1) * w, e);
    MulAssoc(e, ob + 1, w);
    MulLe(e * (ob + 1), tb, w);
    if ob * (e + 1) > tb {
      MulLe(tb + 1, ob * (e + 1), w);
      MulAssoc(e + 1, ob, w);
      MulLe(ob * w, v, e + 1);
      assert (e + 1) * v == e * v + v;
    }
  }

  method Estimate(tb: nat, ob: nat) returns (estimate: nat)
    requires tb < 0x1000_0000 && ob < 0x1000_0000
    ensures estimate * (ob + 1) <= tb && estimate < 0x1000_0000
    ensures ob == 0x0FFF_FFFF ==> estimate == 0
    ensures W32(ob * (estimate + 1)) == ob * (estimate + 1)
  {
    estimate := tb / (ob + 1);
    assert tb == (ob + 1) * estimate + tb % (ob + 1);
    MulLe(1, ob + 1, estimate);
    NextMultiple(tb, ob, estimate);
  }

  lemma NextMultiple(tb: nat, ob: nat, e: nat)
    requires e * (ob + 1) <= tb
    ensures ob * (e + 1) <= tb + ob
  {
    assert ob * (e + 1) == e * (ob + 1) - e + ob;
  }

  /** The estimate is safe also when the first loop left fewer places than the divisor has. */
  lemma EstimateFits(x: Bignum, other: Bignum, e: nat)
    requires Reduced(x, other) && x.BigitLength() <= other.BigitLength()
    requires e * (Top(other) + 1) <= Top(x)
    requires Top(other) == 0x0FFF_FFFF ==> e == 0
    ensures e * other.Value() <= x.Value() && other.Value() > 0
    ensures Top(other) * (e + 1) > Top(x) ==> x.Value() - e * other.Value() < other.Value()
  {
    hide Bignum.Value, Bignum.Sig, Bignum.WellFormed;
    other.Bounds();
    if x.BigitLength() == other.BigitLength() {
      LeadingDigit(x);
      LeadingDigit(other);
      Overshoot(x.Value(), Top(x), other.Value(), Top(other), Weight(x), e);
    } else {
      LongerIsLarger(x, other);
    }
  }

  method DivideSameLength(x: Bignum, other: Bignum) returns (quotient: nat)
    requires Reduced(x, other) && x.BigitLength() <= other.BigitLength() && other.used > 1
    modifies x, x.bigits
    ensures x.Valid() && x.Value() < other.Value()
    ensures old(x.Value()) == quotient * other.Value() + x.Value()
  {
    var thisBigit, otherBigit := Top(x), Top(other);
    quotient := Estimate(thisBigit, otherBigit);
    EstimateFits(x, other, quotient);
    x.SubtractTimes(other, quotient);
    if W32(otherBigit * (quotient + 1)) > thisBigit {
      return;
    }
    ghost var v, x0 := other.Value(), old(x.Value());
    while true
      invariant x.Valid() && x.exponent <= other.exponent
      invariant x0 == quotient * v + x.Value()
      decreases x.Value()
    {
      var c := Compare(other, x);
      if c > 0 { return; }
      TimesNext(quotient, v);
      x.SubtractBignum(other);
      quotient := quotient + 1;
    }
  }

  /** Adding a partial quotient keeps the division equation and the 16-bit bound. */
  lemma Accumulate(x0: nat, v: nat, q: nat, t: nat, rest: nat)
    requires v > 0 && x0 < 0x1_0000 * v && x0 == q * v + (t * v + rest)
    ensures x0 == (q + t) * v + rest && q + t < 0x1_0000
    ensures t > 0 ==> rest < t * v + rest
  {
    assert (q + t) * v == q * v + t * v;
    if q + t >= 0x1_0000 {
      MulLe(0x1_0000, q + t, v);
    }
    if t > 0 {
      MulLe(1, t, v);
    }
  }

  /** Removes multiples of other until x has no more places than other. */
  method Reduce(x: Bignum, other: Bignum, ghost x0: nat, ghost v: nat) returns (result: nat)
    requires Reduced(x, other) && x0 == x.Value() < 0x1_0000 * v && v == other.Value() > 0
    requires x.BigitLength() >= other.BigitLength()
    modifies x, x.bigits
    ensures Reduced(x, other) && x.BigitLength() <= other.BigitLength()
    ensures x0 == result * v + x.Value() && result < 0x1_0000
    ensures x.BigitLength() != other.BigitLength() <==> EndsShort(x0, old(x.BigitLength()), v, other.BigitLength())
  {
    hide Bignum.Value, Bignum.WellFormed, BPow, EndsShort;
    ghost var places, n := x.BigitLength(), other.BigitLength();
    result := 0;
    while x.BigitLength() > other.BigitLength()
      invariant Reduced(x, other) && x0 == result * v + x.Value() && result < 0x1_0000
      invariant x.BigitLength() == places || x.Value() + v >= BPow(n)
      invariant places == n ==> x.BigitLength() == n
      decreases x.Value()
    {
      var t := ReduceOnce(x, other);
      Accumulate(x0, v, result, t, x.Value());
      result := W16(result + W16(t));
    }
    LengthByValue(x, n);
    LengthByValue(other, n);
    ShortExactly(x0, places, v, n, result, x.Value());
  }

  lemma LengthByValue(x: Bignum, n: nat)
    requires x.Valid() && x.used > 0 && 0 < n && x.BigitLength() <= n
    ensures x.Value() < BPow(n) && (x.BigitLength() < n <==> x.Value() < BPow(n - 1))
  {
    hide Bignum.Value, Bignum.WellFormed, BPow, Bignum.Sig;
    x.Bounds();
    BPowMonotone(x.BigitLength(), n);
    if x.BigitLength() < n {
      BPowMonotone(x.BigitLength(), n - 1);
    }
  }

  method DivideLonger(x: Bignum, other: Bignum, ghost x0: nat, ghost v: nat) returns (result: nat)
    requires Reduced(x, other) && x0 == x.Value() < 0x1_0000 * v && v == other.Value() > 0
    requires x.BigitLength() >= other.BigitLength()
    modifies x, x.bigits
    ensures x.Valid() && x.Value() < v
    ensures x0 == result * v + x.Value()
  {
    hide Bignum.Value, Bignum.WellFormed;
    result := Reduce(x, other, x0, v);
    var quotient;
    if other.used == 1 {
      quotient := DivideByOneDigit(x, other);
    } else {
      quotient := DivideSameLength(x, other);
    }
    Accumulate(x0, v, result, quotient, x.Value());
    result := W16(result + W16(quotient));
  }

  /** The source demands a quotient that fits 16 bits, and that x fits once aligned. */
  method DivideModuloIntBignum(x: Bignum, other: Bignum) returns (result: nat)
    requires x.Valid() && other.Valid() && x.bigits != other.bigits && x != other
    requires 0 < other.used && other.Value() > 0 && x.Value() < 0x1_0000 * other.Value()
    requires other.exponent < x.exponent ==> x.BigitLength() - other.exponent <= 128
    modifies x, x.bigits
    ensures x.Valid()
    ensures result == old(x.Value()) / other.Value()
    ensures x.Value() == old(x.Value()) % other.Value()
  {
    ghost var v, x0 := other.Value(), x.Value();
    if x.BigitLength() < other.BigitLength() {
      LongerIsLarger(x, other);
      Quotient(x0, v, 0, x0);
      return 0;
    }
    x.Align(other);
    result := DivideLonger(x, other, x0, v);
    Quotient(x0, v, result, x.Value());
  }
}
