/**
 * Positional numerals in base 2^28, least significant digit first: the meaning
 * of the digit vector inside a Bignum, and the schoolbook row operations its
 * loops carry out.  The base is written as the literal 0x1000_0000 so that
 * multiplication by it stays linear arithmetic.
 */
module Bigits {
  import opened Powers

  function BPow(k: nat): (p: nat)
    ensures p >= 1
  {
    if k == 0 then 1 else 0x1000_0000 * BPow(k - 1)
  }

  /** A digit vector all of whose entries fit in 28 bits. */
  predicate Digits(s: seq<nat>) {
    forall i :: 0 <= i < |s| ==> s[i] < 0x1000_0000
  }

  function Val(s: seq<nat>): nat {
    if s == [] then 0 else s[0] + 0x1000_0000 * Val(s[1..])
  }

  /** The digits of a number, without leading zeros. */
  function FromNat(n: nat): (s: seq<nat>)
    ensures Digits(s)
    ensures s == [] <==> n == 0
  {
    if n == 0 then [] else [n % 0x1000_0000] + FromNat(n / 0x1000_0000)
  }

  lemma {:induction false} FromNatValue(n: nat)
    ensures Val(FromNat(n)) == n
    ensures n > 0 ==> FromNat(n)[|FromNat(n)| - 1] != 0
  {
    if n > 0 {
      FromNatValue(n / 0x1000_0000);
    }
  }

  /** How many digits a number needs. */
  function Length(n: nat): nat {
    |FromNat(n)|
  }

  /** Digit vectors without leading zeros are determined by their value. */
  lemma {:induction false} Canonical(s: seq<nat>)
    requires Digits(s)
    requires s != [] ==> s[|s| - 1] != 0
    ensures FromNat(Val(s)) == s
  {
    if s != [] {
      Canonical(s[1..]);
      FromNatValue(Val(s[1..]));
    }
  }

  lemma {:induction false} BPowAdd(m: nat, n: nat)
    ensures BPow(m + n) == BPow(m) * BPow(n)
  {
    if m > 0 {
      BPowAdd(m - 1, n);
      MulAssoc(0x1000_0000, BPow(m - 1), BPow(n));
    }
  }

  lemma {:induction false} BPowMonotone(m: nat, n: nat)
    requires m <= n
    ensures BPow(m) <= BPow(n)
    ensures m < n ==> 0x1000_0000 * BPow(m) <= BPow(n)
    decreases n - m
  {
    if m < n {
      BPowMonotone(m + 1, n);
    }
  }

  lemma BaseIsPow()
    ensures Pow(2, 28) == 0x1000_0000
  {
    assert Pow(2, 7) == 128;
    PowAdd(2, 7, 7);
    PowAdd(2, 14, 14);
  }

  lemma {:induction false} BPowIsPow(k: nat)
    ensures BPow(k) == Pow(2, 28 * k)
  {
    if k > 0 {
      BPowIsPow(k - 1);
      PowAdd(2, 28, 28 * (k - 1));
      BaseIsPow();
    }
  }

  lemma {:induction false} ValConcat(s: seq<nat>, t: seq<nat>)
    ensures Val(s + t) == Val(s) + BPow(|s|) * Val(t)
  {
    if s == [] {
      assert s + t == t;
    } else {
      assert (s + t)[1..] == s[1..] + t;
      ValConcat(s[1..], t);
      MulAssoc(0x1000_0000, BPow(|s| - 1), Val(t));
    }
  }

  lemma {:induction false} ValZeros(s: seq<nat>)
    requires forall i :: 0 <= i < |s| ==> s[i] == 0
    ensures Val(s) == 0
  {
    if s != [] {
      ValZeros(s[1..]);
    }
  }

  /** Zero digits past position k do not change the value. */
  lemma ValTrailingZeros(s: seq<nat>, k: nat)
    requires k <= |s|
    requires forall i :: k <= i < |s| ==> s[i] == 0
    ensures Val(s) == Val(s[..k])
  {
    assert s == s[..k] + s[k..];
    ValConcat(s[..k], s[k..]);
    ValZeros(s[k..]);
  }

  /** A clamped vector lies between two successive powers of the base. */
  lemma {:induction false} ValBounds(s: seq<nat>)
    requires Digits(s)
    ensures Val(s) < BPow(|s|)
    ensures s != [] && s[|s| - 1] != 0 ==> Val(s) >= BPow(|s| - 1)
  {
    if s != [] {
      ValBounds(s[1..]);
    }
  }

  /**
   * Carry propagation over a row of column sums of any size: the loop that
   * ends every addition, shift, multiplication and squaring.
   */
  function CarryRow(cols: seq<nat>, carry: nat): (r: seq<nat>)
    ensures Digits(r) && |r| >= |cols|
  {
    if cols == [] then
      FromNat(carry)
    else
      [(cols[0] + carry) % 0x1000_0000] + CarryRow(cols[1..], (cols[0] + carry) / 0x1000_0000)
  }

  lemma {:induction false} CarryRowValue(cols: seq<nat>, carry: nat)
    ensures Val(CarryRow(cols, carry)) == Val(cols) + carry
  {
    if cols == [] {
      FromNatValue(carry);
    } else {
      CarryRowValue(cols[1..], (cols[0] + carry) / 0x1000_0000);
    }
  }

  /** A row whose last column is not zero yields a number without leading zeros. */
  lemma {:induction false} CarryRowLead(cols: seq<nat>, carry: nat)
    requires cols != [] && cols[|cols| - 1] != 0
    ensures var r := CarryRow(cols, carry); r[|r| - 1] != 0
  {
    var next := (cols[0] + carry) / 0x1000_0000;
    if |cols| > 1 {
      CarryRowLead(cols[1..], next);
    } else {
      FromNatValue(next);
    }
  }

  /** Borrow propagation: the digits left, and the borrow out of the last column. */
  function BorrowRow(s: seq<nat>, cols: seq<nat>, borrow: nat): (r: (seq<nat>, nat))
    requires |cols| == |s| && Digits(s)
    ensures Digits(r.0) && |r.0| == |s|
  {
    if s == [] then
      ([], borrow)
    else
      var x := s[0] - cols[0] - borrow;
      var rest := BorrowRow(s[1..], cols[1..], -(x / 0x1000_0000));
      ([x % 0x1000_0000] + rest.0, rest.1)
  }

  /** A difference that is not negative leaves no borrow. */
  lemma {:induction false} BorrowRowValue(s: seq<nat>, cols: seq<nat>, borrow: nat)
    requires |cols| == |s| && Digits(s)
    requires Val(s) >= Val(cols) + borrow
    ensures BorrowRow(s, cols, borrow).1 == 0
    ensures Val(BorrowRow(s, cols, borrow).0) == Val(s) - Val(cols) - borrow
  {
    if s != [] {
      BorrowRowValue(s[1..], cols[1..], -((s[0] - cols[0] - borrow) / 0x1000_0000));
    }
  }

  /** The borrow that enters column i. */
  function BorrowAt(s: seq<nat>, cols: seq<nat>, borrow: nat, i: nat): nat
    requires i <= |s| == |cols| && Digits(s)
  {
    if i == 0 then borrow
    else -((s[i - 1] - cols[i - 1] - BorrowAt(s, cols, borrow, i - 1)) / 0x1000_0000)
  }

  lemma {:induction false} BorrowAtTail(s: seq<nat>, cols: seq<nat>, borrow: nat, i: nat)
    requires 0 < i <= |s| == |cols| && Digits(s)
    ensures BorrowAt(s, cols, borrow, i) == BorrowAt(s[1..], cols[1..], BorrowAt(s, cols, borrow, 1), i - 1)
  {
    if i > 1 {
      BorrowAtTail(s, cols, borrow, i - 1);
    }
  }

  /** Column by column the row is what a loop that carries the borrow along writes. */
  lemma {:induction false} BorrowColumn(s: seq<nat>, cols: seq<nat>, borrow: nat, i: nat)
    requires i < |s| == |cols| && Digits(s)
    ensures BorrowRow(s, cols, borrow).0[i] == (s[i] - cols[i] - BorrowAt(s, cols, borrow, i)) % 0x1000_0000
  {
    if i > 0 {
      BorrowAtTail(s, cols, borrow, i);
      BorrowColumn(s[1..], cols[1..], BorrowAt(s, cols, borrow, 1), i - 1);
    }
  }

  lemma {:induction false} BorrowOut(s: seq<nat>, cols: seq<nat>, borrow: nat)
    requires |s| == |cols| && Digits(s)
    ensures BorrowRow(s, cols, borrow).1 == BorrowAt(s, cols, borrow, |s|)
  {
    if s != [] {
      BorrowAtTail(s, cols, borrow, |s|);
      BorrowOut(s[1..], cols[1..], BorrowAt(s, cols, borrow, 1));
    }
  }

  /** Where no borrow enters and nothing is taken away the digits are untouched. */
  lemma {:induction false} BorrowIdle(s: seq<nat>, cols: seq<nat>, borrow: nat, i: nat, k: nat)
    requires i <= k <= |s| == |cols| && Digits(s)
    requires BorrowAt(s, cols, borrow, i) == 0
    requires forall j :: i <= j < k ==> cols[j] == 0
    ensures BorrowAt(s, cols, borrow, k) == 0
    ensures forall j :: i <= j < k ==> BorrowRow(s, cols, borrow).0[j] == s[j]
  {
    if i < k {
      BorrowIdle(s, cols, borrow, i, k - 1);
      BorrowColumn(s, cols, borrow, k - 1);
    }
  }

  /** A digit vector moved up by off places inside a vector of n zeros. */
  function Placed(s: seq<nat>, off: nat, n: nat): (t: seq<nat>)
    requires off + |s| <= n
    ensures |t| == n
    ensures forall k :: 0 <= k < n ==> t[k] == if off <= k < off + |s| then s[k - off] else 0
  {
    seq(n, k => if off <= k < off + |s| then s[k - off] else 0)
  }

  lemma PlacedValue(s: seq<nat>, off: nat, n: nat)
    requires off + |s| <= n
    ensures Val(Placed(s, off, n)) == BPow(off) * Val(s)
  {
    var t := Placed(s, off, n);
    ValTrailingZeros(t, off + |s|);
    assert t[..off + |s|] == t[..off] + s;
    ValConcat(t[..off], s);
    ValZeros(t[..off]);
  }

  /** Column sums of two numbers, the second one no longer than the first. */
  function Sums(s: seq<nat>, t: seq<nat>): (cols: seq<nat>)
    requires |t| <= |s|
    ensures |cols| == |s|
  {
    if t == [] then s else [s[0] + t[0]] + Sums(s[1..], t[1..])
  }

  lemma {:induction false} SumsValue(s: seq<nat>, t: seq<nat>)
    requires |t| <= |s|
    ensures Val(Sums(s, t)) == Val(s) + Val(t)
  {
    if t != [] {
      SumsValue(s[1..], t[1..]);
    }
  }

  lemma {:induction false} SumsAt(s: seq<nat>, t: seq<nat>, i: nat)
    requires |t| <= |s| && i < |s|
    ensures Sums(s, t)[i] == s[i] + (if i < |t| then t[i] else 0)
  {
    if t != [] && i > 0 {
      SumsAt(s[1..], t[1..], i - 1);
    }
  }

  /** Every digit times one factor. */
  function Scaled(s: seq<nat>, factor: nat): (cols: seq<nat>)
    ensures |cols| == |s|
  {
    if s == [] then [] else [factor * s[0]] + Scaled(s[1..], factor)
  }

  lemma {:induction false} ScaledValue(s: seq<nat>, factor: nat)
    ensures Val(Scaled(s, factor)) == factor * Val(s)
    ensures factor > 0 && s != [] && s[|s| - 1] != 0 ==> Scaled(s, factor)[|s| - 1] != 0
  {
    if s != [] {
      ScaledValue(s[1..], factor);
      Distribute(factor, s[0], Val(s[1..]));
    }
  }

  lemma {:induction false} ScaledAt(s: seq<nat>, factor: nat, i: nat)
    requires i < |s|
    ensures Scaled(s, factor)[i] == factor * s[i]
  {
    if i > 0 {
      ScaledAt(s[1..], factor, i - 1);
    }
  }

  /** The carry that enters column i. */
  function CarryAt(cols: seq<nat>, carry: nat, i: nat): nat
    requires i <= |cols|
  {
    if i == 0 then carry else (cols[i - 1] + CarryAt(cols, carry, i - 1)) / 0x1000_0000
  }

  lemma {:induction false} CarryAtTail(cols: seq<nat>, carry: nat, i: nat)
    requires 0 < i <= |cols|
    ensures CarryAt(cols, carry, i) == CarryAt(cols[1..], CarryAt(cols, carry, 1), i - 1)
  {
    if i > 1 {
      CarryAtTail(cols, carry, i - 1);
    }
  }

  /** Column by column the row is what a loop that carries along writes. */
  lemma {:induction false} CarryColumn(cols: seq<nat>, carry: nat, i: nat)
    requires i < |cols|
    ensures CarryRow(cols, carry)[i] == (cols[i] + CarryAt(cols, carry, i)) % 0x1000_0000
  {
    if i > 0 {
      CarryAtTail(cols, carry, i);
      CarryColumn(cols[1..], CarryAt(cols, carry, 1), i - 1);
    }
  }

  /** Where no carry enters and the columns are digits already nothing changes. */
  lemma {:induction false} CarryIdle(cols: seq<nat>, i: nat, k: nat)
    requires i <= k <= |cols| && CarryAt(cols, 0, i) == 0
    requires forall j :: i <= j < k ==> cols[j] < 0x1000_0000
    ensures CarryAt(cols, 0, k) == 0
    ensures forall j :: i <= j < k ==> CarryRow(cols, 0)[j] == cols[j]
  {
    if i < k {
      CarryIdle(cols, i, k - 1);
      CarryColumn(cols, 0, k - 1);
    }
  }

  lemma {:induction false} CarryOut(cols: seq<nat>, carry: nat)
    ensures CarryRow(cols, carry)[|cols|..] == FromNat(CarryAt(cols, carry, |cols|))
  {
    if cols != [] {
      CarryAtTail(cols, carry, |cols|);
      CarryOut(cols[1..], CarryAt(cols, carry, 1));
    }
  }

  lemma Distribute(factor: nat, d: nat, v: nat)
    ensures factor * (d + 0x1000_0000 * v) == factor * d + 0x1000_0000 * (factor * v)
  {}

  /** The highest place where two vectors differ decides. */
  lemma {:induction false} ValLess(s: seq<nat>, t: seq<nat>, i: nat)
    requires i < |s| == |t| && Digits(s) && s[i] < t[i]
    requires forall k :: i < k < |s| ==> s[k] == t[k]
    ensures Val(s) < Val(t)
  {
    if i == 0 {
      assert s[1..] == t[1..];
    } else {
      ValLess(s[1..], t[1..], i - 1);
    }
  }

  lemma ValSplit(s: seq<nat>, j: nat)
    requires j <= |s| && Digits(s)
    ensures Val(s) == Val(s[..j]) + BPow(j) * Val(s[j..])
    ensures Val(s[..j]) < BPow(j)
  {
    assert s == s[..j] + s[j..];
    ValConcat(s[..j], s[j..]);
    ValBounds(s[..j]);
  }
}
