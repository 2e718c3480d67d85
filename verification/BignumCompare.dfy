/** Comparison of Bignums, and of a sum with a Bignum without forming the sum. */
module BignumCompare {
  import opened Powers
  import opened Bigits
  import opened Bignums

  function Sign(x: int): int {
    if x < 0 then -1 else if x > 0 then 1 else 0
  }

  function Min(x: nat, y: nat): nat {
    if x < y then x else y
  }

  /** All digits of a number from place 0 up to place n - 1, hidden ones included. */
  ghost function Spread(a: Bignum, n: nat): (s: seq<nat>)
    reads a, a.bigits
    requires a.Valid() && a.BigitLength() <= n
    ensures |s| == n
  {
    Placed(a.bigits[..a.used], a.exponent, n)
  }

  lemma SpreadValue(a: Bignum, n: nat)
    requires a.Valid() && a.BigitLength() <= n
    ensures Val(Spread(a, n)) == a.Value() && Digits(Spread(a, n))
    ensures forall k :: 0 <= k < a.exponent && k < n ==> Spread(a, n)[k] == 0
  {
    hide Val, BPow;
    PlacedValue(a.bigits[..a.used], a.exponent, n);
  }

  method BigitAt(a: Bignum, index: nat, ghost n: nat) returns (d: nat)
    requires a.Valid() && a.BigitLength() <= n && index < n
    ensures d == Spread(a, n)[index]
  {
    if index >= a.BigitLength() { return 0; }
    if index < a.exponent { return 0; }
    return a.bigits[index - a.exponent];
  }

  /** A number with more digits is larger. */
  lemma LongerIsLarger(a: Bignum, b: Bignum)
    requires a.Valid() && b.Valid() && a.BigitLength() < b.BigitLength()
    ensures a.Value() < b.Value()
  {
    a.Bounds();
    b.Bounds();
    BPowMonotone(a.BigitLength(), b.BigitLength() - 1);
  }

  method Compare(a: Bignum, b: Bignum) returns (c: int)
    requires a.Valid() && b.Valid()
    ensures c == Sign(a.Value() - b.Value())
  {
    hide Bignum.Value, Bignum.WellFormed, Val, Spread;
    var n := a.BigitLength();
    if n < b.BigitLength() {
      LongerIsLarger(a, b);
      return -1;
    }
    if n > b.BigitLength() {
      LongerIsLarger(b, a);
      return 1;
    }
    SpreadValue(a, n);
    SpreadValue(b, n);
    ghost var s, t := Spread(a, n), Spread(b, n);
    var low := Min(a.exponent, b.exponent);
    var i := n;
    while i > low
      invariant low <= i <= n
      invariant forall k :: i <= k < n ==> s[k] == t[k]
    {
      i := i - 1;
      var bigitA := BigitAt(a, i, n);
      var bigitB := BigitAt(b, i, n);
      if bigitA < bigitB {
        ValLess(s, t, i);
        return -1;
      }
      if bigitA > bigitB {
        ValLess(t, s, i);
        return 1;
      }
    }
    assert s == t;
    return 0;
  }

  /** The digits from place j up, as a number: what c has more there than a + b. */
  ghost function Excess(s: seq<nat>, t: seq<nat>, u: seq<nat>, j: nat): int
    requires j <= |s| == |t| == |u|
  {
    Val(u[j..]) - Val(s[j..]) - Val(t[j..])
  }

  lemma ExcessStep(s: seq<nat>, t: seq<nat>, u: seq<nat>, j: nat)
    requires j < |s| == |t| == |u|
    ensures Excess(s, t, u, j) == 0x1000_0000 * Excess(s, t, u, j + 1) + u[j] - s[j] - t[j]
  {
    assert s[j..][1..] == s[j + 1..];
    assert t[j..][1..] == t[j + 1..];
    assert u[j..][1..] == u[j + 1..];
  }

  /** A negative excess, or one above 1, is not made up for by the lower digits. */
  lemma ExcessDecides(s: seq<nat>, t: seq<nat>, u: seq<nat>, j: nat)
    requires j <= |s| == |t| == |u| && Digits(s) && Digits(t) && Digits(u)
    ensures Excess(s, t, u, j) < 0 ==> Val(s) + Val(t) > Val(u)
    ensures Excess(s, t, u, j) > 1 ==> Val(s) + Val(t) < Val(u)
  {
    ValSplit(s, j);
    ValSplit(t, j);
    ValSplit(u, j);
    HighDecides(Val(s[..j]), Val(t[..j]), Val(u[..j]), Val(s[j..]), Val(t[j..]), Val(u[j..]), BPow(j));
  }

  lemma HighDecides(sl: nat, tl: nat, ul: nat, sh: nat, th: nat, uh: nat, p: nat)
    requires sl < p && tl < p && ul < p
    ensures uh < sh + th ==> ul + p * uh < (sl + p * sh) + (tl + p * th)
    ensures uh > sh + th + 1 ==> ul + p * uh > (sl + p * sh) + (tl + p * th)
  {
    if uh < sh + th {
      MulLe(uh + 1, sh + th, p);
    } else if uh > sh + th + 1 {
      MulLe(sh + th + 2, uh, p);
    }
  }

  /** When the digits below j are all zero the excess gives the sign of the difference. */
  lemma ExcessExact(s: seq<nat>, t: seq<nat>, u: seq<nat>, j: nat)
    requires j <= |s| == |t| == |u| && Digits(s) && Digits(t) && Digits(u)
    requires forall k :: 0 <= k < j ==> s[k] == 0 && t[k] == 0 && u[k] == 0
    ensures Sign(Val(s) + Val(t) - Val(u)) == -Sign(Excess(s, t, u, j))
  {
    ValSplit(s, j);
    ValSplit(t, j);
    ValSplit(u, j);
    ValZeros(s[..j]);
    ValZeros(t[..j]);
    ValZeros(u[..j]);
    HighExact(Val(s[j..]), Val(t[j..]), Val(u[j..]), BPow(j));
  }

  lemma HighExact(sh: nat, th: nat, uh: nat, p: nat)
    requires p > 0
    ensures Sign(p * sh + p * th - p * uh) == -Sign(uh - sh - th)
  {
    assert p * sh + p * th == p * (sh + th);
    if uh < sh + th {
      MulLt(uh, sh + th, p);
    } else if uh > sh + th {
      MulLt(sh + th, uh, p);
    }
  }

  /** No carry leaves the top of a when b ends below a's stored digits. */
  lemma NoCarry(a: Bignum, b: Bignum)
    requires a.Valid() && b.Valid() && b.BigitLength() <= a.exponent
    ensures a.Value() + b.Value() < BPow(a.BigitLength())
  {
    a.Bounds();
    b.Bounds();
    BPowMonotone(b.BigitLength(), a.exponent);
    RoomBelow(a.Sig(), a.used, a.exponent, b.Value());
  }

  lemma RoomBelow(sig: nat, used: nat, exponent: nat, x: nat)
    requires sig < BPow(used) && x < BPow(exponent)
    ensures sig * BPow(exponent) + x < BPow(used + exponent)
  {
    BPowAdd(used, exponent);
    MulLe(sig + 1, BPow(used), BPow(exponent));
    assert (sig + 1) * BPow(exponent) == sig * BPow(exponent) + BPow(exponent);
  }

  /** The cases PlusCompare decides from the lengths alone. */
  lemma LengthsDecide(a: Bignum, b: Bignum, c: Bignum)
    requires a.Valid() && b.Valid() && c.Valid() && b.BigitLength() <= a.BigitLength()
    ensures a.BigitLength() + 1 < c.BigitLength() ==> a.Value() + b.Value() < c.Value()
    ensures a.BigitLength() > c.BigitLength() ==> a.Value() + b.Value() > c.Value()
    ensures a.exponent >= b.BigitLength() && a.BigitLength() < c.BigitLength() ==> a.Value() + b.Value() < c.Value()
  {
    hide Bignum.Value, Bignum.Sig, Bignum.WellFormed;
    c.Bounds();
    if a.BigitLength() > c.BigitLength() {
      LongerIsLarger(c, a);
    } else if a.BigitLength() + 1 < c.BigitLength() {
      a.Bounds();
      b.Bounds();
      BPowMonotone(b.BigitLength(), a.BigitLength());
      BPowMonotone(a.BigitLength() + 1, c.BigitLength() - 1);
    } else if a.exponent >= b.BigitLength() && a.BigitLength() < c.BigitLength() {
      NoCarry(a, b);
      BPowMonotone(a.BigitLength(), c.BigitLength() - 1);
    }
  }

  method PlusCompare(a: Bignum, b: Bignum, c: Bignum) returns (r: int)
    requires a.Valid() && b.Valid() && c.Valid()
    ensures r == Sign(a.Value() + b.Value() - c.Value())
    decreases a.BigitLength() < b.BigitLength()
  {
    if a.BigitLength() < b.BigitLength() {
      r := PlusCompare(b, a, c);
      return;
    }
    LengthsDecide(a, b, c);
    if a.BigitLength() + 1 < c.BigitLength() { return -1; }
    if a.BigitLength() > c.BigitLength() { return 1; }
    if a.exponent >= b.BigitLength() && a.BigitLength() < c.BigitLength() { return -1; }
    var n := c.BigitLength();
    SpreadValue(a, n);
    SpreadValue(b, n);
    SpreadValue(c, n);
    r := PlusCompareDigits(a, b, c, Spread(a, n), Spread(b, n), Spread(c, n));
  }

  /** One place of the scan in 32-bit arithmetic: a verdict, or the borrow for the place below. */
  method PlusCompareStep(chunkA: nat, chunkB: nat, chunkC: nat, borrow: nat) returns (verdict: int, next: nat)
    requires chunkA < 0x1000_0000 && chunkB < 0x1000_0000 && chunkC < 0x1000_0000
    requires borrow == 0 || borrow == 0x1000_0000
    ensures var excess := borrow + chunkC - chunkA - chunkB;
         && verdict == (if excess < 0 then 1 else if excess > 1 then -1 else 0)
         && (verdict == 0 ==> next == 0x1000_0000 * excess)
  {
    var sum := W32(chunkA + chunkB);
    next := 0;
    if sum > W32(chunkC + borrow) {
      return 1, next;
    }
    next := W32(W32(chunkC + borrow) - sum);
    if next > 1 { return -1, next; }
    next := W32(next * 0x1000_0000);
    verdict := 0;
  }

  /** Every number's digits up to c's highest place. */
  ghost predicate Aligned(a: Bignum, b: Bignum, c: Bignum, s: seq<nat>, t: seq<nat>, u: seq<nat>)
    reads a, a.bigits, b, b.bigits, c, c.bigits
  {
    && a.Valid() && b.Valid() && c.Valid()
    && b.BigitLength() <= a.BigitLength() <= c.BigitLength() == |u|
    && s == Spread(a, |u|) && t == Spread(b, |u|) && u == Spread(c, |u|)
    && Digits(s) && Digits(t) && Digits(u)
  }

  method PlusCompareAt(a: Bignum, b: Bignum, c: Bignum, i: nat, borrow: nat,
                       ghost s: seq<nat>, ghost t: seq<nat>, ghost u: seq<nat>)
    returns (r: int, next: nat)
    requires Aligned(a, b, c, s, t, u) && i < |u|
    requires 0 <= Excess(s, t, u, i + 1) <= 1 && borrow == 0x1000_0000 * Excess(s, t, u, i + 1)
    ensures r != 0 ==> r == Sign(Val(s) + Val(t) - Val(u))
    ensures r == 0 ==> 0 <= Excess(s, t, u, i) <= 1 && next == 0x1000_0000 * Excess(s, t, u, i)
  {
    hide Bignum.Valid, Val, Excess, Spread;
    var chunkA := BigitAt(a, i, |u|);
    var chunkB := BigitAt(b, i, |u|);
    var chunkC := BigitAt(c, i, |u|);
    ExcessStep(s, t, u, i);
    ExcessDecides(s, t, u, i);
    r, next := PlusCompareStep(chunkA, chunkB, chunkC, borrow);
  }

  /** The scan from the highest digit down, with a borrow of at most one unit of the place above. */
  method PlusCompareDigits(a: Bignum, b: Bignum, c: Bignum, ghost s: seq<nat>, ghost t: seq<nat>, ghost u: seq<nat>)
    returns (r: int)
    requires Aligned(a, b, c, s, t, u)
    ensures r == Sign(Val(s) + Val(t) - Val(u))
  {
    var borrow: nat := 0;
    var minExponent := Min(Min(a.exponent, b.exponent), c.exponent);
    var i := c.BigitLength();
    while i > minExponent
      invariant minExponent <= i <= |u|
      invariant 0 <= Excess(s, t, u, i) <= 1 && borrow == 0x1000_0000 * Excess(s, t, u, i)
    {
      i := i - 1;
      r, borrow := PlusCompareAt(a, b, c, i, borrow, s, t, u);
      if r != 0 { return; }
    }
    ExcessExact(s, t, u, i);
    if borrow == 0 { return 0; }
    return -1;
  }

  /** The comparison without the sum agrees with forming the sum and comparing. */
  method AddThenCompare(a: Bignum, b: Bignum, c: Bignum) returns (direct: int, summed: int)
    requires a.Valid() && b.Valid() && c.Valid() && a != b && a != c && a.bigits != b.bigits && a.bigits != c.bigits
    requires 1 + Larger(a.BigitLength(), b.BigitLength()) <= 128 + Min(a.exponent, b.exponent)
    modifies a, a.bigits
    ensures direct == summed == Sign(old(a.Value()) + b.Value() - c.Value())
  {
    hide Bignum.Value, Bignum.WellFormed;
    direct := PlusCompare(a, b, c);
    a.AddBignum(b);
    summed := Compare(a, c);
  }
}
