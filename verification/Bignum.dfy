/**
 * The in-place big integer of double-conversion: at most 128 digits of 28 bits
 * and a count of hidden low zero digits.  Every operation is specified by the
 * natural number the object stands for.
 */
module Bignums {
  import opened Powers
  import opened Bigits

  /** Unsigned 32-bit and 64-bit machine arithmetic. */
  function W32(x: int): nat { x % 0x1_0000_0000 }
  function W64(x: int): nat { x % 0x1_0000_0000_0000_0000 }

  /** Shifting by hidden digits keeps a number between the same powers of the base. */
  lemma Scale(sig: nat, used: nat, exponent: nat)
    ensures sig < BPow(used) ==> sig * BPow(exponent) < BPow(used + exponent)
    ensures used > 0 && sig >= BPow(used - 1) ==> sig * BPow(exponent) >= BPow(used + exponent - 1)
  {
    BPowAdd(used, exponent);
    if sig < BPow(used) {
      MulLt(sig, BPow(used), BPow(exponent));
    }
    if used > 0 && sig >= BPow(used - 1) {
      BPowAdd(used - 1, exponent);
      MulLe(BPow(used - 1), sig, BPow(exponent));
    }
  }

  /** A column of a multiplication leaves a carry below the factor. */
  lemma ColumnBound(factor: nat, d: nat, carry: nat, product: nat)
    requires carry < factor && d < 0x1000_0000
    requires product == factor * d
    ensures product + carry < 0x1000_0000 * factor
    ensures (product + carry) / 0x1000_0000 < factor
  {
    MulLe(d, 0x0FFF_FFFF, factor);
    DivBound(product + carry, factor);
  }

  lemma DivBound(x: nat, factor: nat)
    requires x < 0x1000_0000 * factor
    ensures x / 0x1000_0000 < factor
  {}

  /** One column of a multiplication by a 32-bit factor. */
  method Column32(factor: nat, d: nat, carry: nat, ghost product: nat) returns (digit: nat, next: nat)
    requires carry < factor < 0x1_0000_0000 && d < 0x1000_0000 && product == factor * d
    ensures digit == (product + carry) % 0x1000_0000
    ensures next == (product + carry) / 0x1000_0000 < factor
  {
    ColumnBound(factor, d, carry, product);
    digit, next := SplitWord(W64(W64(factor * d) + carry), product + carry);
  }

  method SplitWord(word: nat, ghost expected: nat) returns (digit: nat, next: nat)
    requires word == expected
    ensures digit == expected % 0x1000_0000 && next == expected / 0x1000_0000
  {
    digit, next := word % 0x1000_0000, word / 0x1000_0000;
  }

  /** One column of a multiplication by a 64-bit factor given by its two halves. */
  method Column64(low: nat, high: nat, d: nat, carry: nat, ghost factor: nat, ghost product: nat)
    returns (digit: nat, next: nat)
    requires low < 0x1_0000_0000 && high < 0x1_0000_0000 && factor == low + 0x1_0000_0000 * high
    requires carry < factor && d < 0x1000_0000 && product == factor * d
    ensures digit == (product + carry) % 0x1000_0000
    ensures next == (product + carry) / 0x1000_0000 < factor
  {
    ColumnBound(factor, d, carry, product);
    ProductBound(low, d, low * d);
    ProductBound(high, d, high * d);
    Halves(low, high, d);
    digit, next := Combine(W64(low * d), W64(high * d), carry, product + carry, factor);
  }

  lemma Halves(low: nat, high: nat, d: nat)
    ensures (low + 0x1_0000_0000 * high) * d == low * d + 0x1_0000_0000 * (high * d)
  {}

  method Combine(productLow: nat, productHigh: nat, carry: nat, ghost total: nat, ghost factor: nat)
    returns (digit: nat, next: nat)
    requires productLow < 0x1000_0000_0000_0000 && productHigh < 0x1000_0000_0000_0000
    requires carry < factor < 0x1_0000_0000_0000_0000
    requires total == productLow + 0x1_0000_0000 * productHigh + carry < 0x1000_0000 * factor
    ensures digit == total % 0x1000_0000 && next == total / 0x1000_0000
  {
    var tmp := W64(carry % 0x1000_0000 + productLow);
    digit := tmp % 0x1000_0000;
    next := W64(W64(carry / 0x1000_0000 + tmp / 0x1000_0000) + W64(productHigh * 16));
    Euclid(total, carry / 0x1000_0000 + tmp / 0x1000_0000 + productHigh * 16, digit);
  }

  /** The digits a multiplication has to leave behind. */
  lemma Product(s: seq<nat>, factor: nat) returns (r: seq<nat>)
    requires Digits(s) && factor > 0 && s != [] && s[|s| - 1] != 0
    ensures r == CarryRow(Scaled(s, factor), 0)
    ensures Val(r) == factor * Val(s)
    ensures 0 < |r| == Length(factor * Val(s)) && r[|r| - 1] != 0
  {
    var cols := Scaled(s, factor);
    r := CarryRow(cols, 0);
    ScaledValue(s, factor);
    CarryRowValue(cols, 0);
    CarryRowLead(cols, 0);
    Canonical(r);
  }

  /** Hidden zero digits made explicit leave the number as it was. */
  lemma AlignValue(zeros: seq<nat>, s: seq<nat>, exponent: nat)
    requires forall i :: 0 <= i < |zeros| ==> zeros[i] == 0
    ensures Val(zeros + s) * BPow(exponent) == Val(s) * BPow(|zeros| + exponent)
  {
    ValConcat(zeros, s);
    ValZeros(zeros);
    assert Val(zeros + s) == Val(s) * BPow(|zeros|);
    BPowAdd(|zeros|, exponent);
    MulAssoc(Val(s), BPow(|zeros|), BPow(exponent));
  }

  lemma Cancel(x: nat, y: nat, p: nat)
    requires p > 0 && x * p >= y * p
    ensures x >= y
  {
    if x < y {
      MulLt(x, y, p);
    }
  }

  /** A subtrahend no larger than a has its leading column inside a. */
  lemma ColumnsFit(a: seq<nat>, e: nat, c: seq<nat>, off: nat)
    requires Digits(a) && c != [] && c[|c| - 1] != 0
    requires Val(a) * BPow(e) >= Val(c) * BPow(off + e)
    ensures off + |c| <= |a|
  {
    ValBounds(a);
    LeadBound(c);
    Scale(Val(a), |a|, e);
    Scale(Val(c), |c|, off + e);
    if off + |c| > |a| {
      BPowMonotone(|a| + e, |c| + off + e - 1);
    }
  }

  lemma {:induction false} LeadBound(c: seq<nat>)
    requires c != [] && c[|c| - 1] != 0
    ensures Val(c) >= BPow(|c| - 1)
  {
    if |c| > 1 {
      LeadBound(c[1..]);
    }
  }

  /** The digits a subtraction has to leave behind. */
  lemma Difference(a: seq<nat>, e: nat, c: seq<nat>, off: nat) returns (cols: seq<nat>, r: seq<nat>)
    requires Digits(a) && off + |c| <= |a|
    requires Val(a) * BPow(e) >= Val(c) * BPow(off + e)
    ensures cols == Placed(c, off, |a|) && BorrowRow(a, cols, 0) == (r, 0)
    ensures Val(r) * BPow(e) == Val(a) * BPow(e) - Val(c) * BPow(off + e)
  {
    cols := Placed(c, off, |a|);
    r := BorrowRow(a, cols, 0).0;
    PlacedScale(c, off, |a|, e);
    Cancel(Val(a), Val(cols), BPow(e));
    BorrowRowValue(a, cols, 0);
    MinusTimes(Val(r), Val(a), Val(cols), BPow(e));
  }

  lemma PlacedScale(c: seq<nat>, off: nat, n: nat, e: nat)
    requires off + |c| <= n
    ensures Val(Placed(c, off, n)) * BPow(e) == Val(c) * BPow(off + e)
  {
    PlacedValue(c, off, n);
    BPowAdd(off, e);
    MulAssoc(Val(c), BPow(off), BPow(e));
    assert Val(Placed(c, off, n)) == Val(c) * BPow(off);
  }

  lemma MinusTimes(x: int, y: int, z: int, p: nat)
    requires x == y - z
    ensures x * p == y * p - z * p
  {}

  /** Subtraction that wraps around in 32 bits: the low 28 bits and the sign bit. */
  lemma WrappedDifference(a: nat, c: nat, borrow: nat)
    requires a < 0x1000_0000 && c < 0x1000_0000 && borrow <= 0x1000_0000 - c
    ensures W32(W32(a - c) - borrow) % 0x1000_0000 == (a - c - borrow) % 0x1000_0000
    ensures W32(W32(a - c) - borrow) / 0x8000_0000 == -((a - c - borrow) / 0x1000_0000) <= 1
  {}

  lemma Euclid(x: int, q: int, r: int)
    requires x == r + 0x1000_0000 * q && 0 <= r < 0x1000_0000
    ensures x / 0x1000_0000 == q && x % 0x1000_0000 == r
  {}

  /** Takes a product and a borrow away from one digit, in 64 and 32 bits. */
  method RemoveStep(a: nat, factor: nat, d: nat, borrow: nat, ghost product: nat) returns (digit: nat, next: nat)
    requires a < 0x1000_0000 && d < 0x1000_0000 && borrow <= factor < 0x1000_0000
    requires product == factor * d
    ensures digit == (a - product - borrow) % 0x1000_0000
    ensures next == -((a - product - borrow) / 0x1000_0000) <= factor
  {
    ProductBound(factor, d, product);
    digit, next := RemoveWord(a, W64(factor * d), borrow, factor);
  }

  method RemoveWord(a: nat, product: nat, borrow: nat, ghost factor: nat) returns (digit: nat, next: nat)
    requires a < 0x1000_0000 && product + borrow <= 0x1000_0000 * factor && factor < 0x1000_0000
    ensures digit == (a - product - borrow) % 0x1000_0000
    ensures next == -((a - product - borrow) / 0x1000_0000) <= factor
  {
    var remove := W64(borrow + product);
    var difference := W32(a - remove % 0x1000_0000);
    WrapSmall(a, remove % 0x1000_0000);
    digit := difference % 0x1000_0000;
    next := W32(difference / 0x8000_0000 + remove / 0x1000_0000);
    Euclid(a - remove, -(next as int), digit);
  }

  lemma WrapSmall(a: nat, m: nat)
    requires a < 0x1000_0000 && m < 0x1000_0000
    ensures W32(a - m) % 0x1000_0000 == a - m + 0x1000_0000 * (if a < m then 1 else 0)
    ensures W32(a - m) / 0x8000_0000 == if a < m then 1 else 0
  {}

  lemma ProductBound(factor: nat, d: nat, product: nat)
    requires product == factor * d && d < 0x1000_0000
    ensures product <= 0x0FFF_FFFF * factor
  {
    MulLe(d, 0x0FFF_FFFF, factor);
  }

  class Bignum {
    const bigits: array<nat>
    var used: nat
    var exponent: nat

    ghost predicate WellFormed()
      reads this, bigits
    {
      && bigits.Length == 128
      && used <= 128
      && Digits(bigits[..])
      && (forall i :: used <= i < 128 ==> bigits[i] == 0)
    }

    ghost predicate Valid()
      reads this, bigits
    {
      && WellFormed()
      && (used == 0 ==> exponent == 0)
      && (used > 0 ==> bigits[used - 1] != 0)
    }

    /** The number formed by the stored digits, hidden zeros not counted. */
    ghost function Sig(): nat
      reads this, bigits
      requires WellFormed()
    {
      Val(bigits[..used])
    }

    ghost function Value(): nat
      reads this, bigits
      requires WellFormed()
    {
      Sig() * BPow(exponent)
    }

    function BigitLength(): nat
      reads this
    {
      used + exponent
    }

    lemma Bounds()
      requires Valid()
      ensures Sig() < BPow(used) && Value() < BPow(BigitLength())
      ensures used > 0 ==> Sig() >= BPow(used - 1) && Value() >= BPow(BigitLength() - 1)
    {
      ValBounds(bigits[..used]);
      Scale(Sig(), used, exponent);
    }

    constructor ()
      ensures Valid() && fresh(bigits)
      ensures used == 0 && Value() == 0
    {
      bigits := new nat[128](_ => 0);
      used, exponent := 0, 0;
    }

    method Zero()
      requires WellFormed()
      modifies this, bigits
      ensures Valid() && used == 0 && Value() == 0
    {
      for i := 0 to used
        invariant forall k :: 0 <= k < i ==> bigits[k] == 0
        invariant forall k :: i <= k < 128 ==> bigits[k] == old(bigits[k])
        invariant used == old(used)
      {
        bigits[i] := 0;
      }
      used, exponent := 0, 0;
    }

    method Clamp()
      requires WellFormed()
      modifies this
      ensures Valid() && Value() == old(Value())
      ensures used <= old(used)
      ensures used > 0 ==> exponent == old(exponent) && Sig() == old(Sig())
    {
      while used > 0 && bigits[used - 1] == 0
        invariant used <= old(used) && exponent == old(exponent)
        invariant WellFormed()
      {
        used := used - 1;
      }
      ValTrailingZeros(bigits[..old(used)], used);
      assert bigits[..old(used)][..used] == bigits[..used];
      if used == 0 {
        exponent := 0;
      }
    }

    /** Appends what is left of a carry above the digits already written. */
    method AppendCarry(value: nat, ghost s: seq<nat>, ghost factor: nat, ghost r: seq<nat>)
      requires Multiplying(used, value, s, factor, r) && |r| <= 128
      modifies this`used, bigits
      ensures WellFormed() && bigits[..used] == r
    {
      CarryOut(Scaled(s, factor), 0);
      var carry := value;
      while carry != 0
        invariant WellFormed() && used <= |r|
        invariant (forall k :: 0 <= k < used ==> bigits[k] == r[k]) && FromNat(carry) == r[used..]
      {
        bigits[used] := carry % 0x1000_0000;
        assert r[used..][1..] == r[used + 1..];
        used := used + 1;
        carry := carry / 0x1000_0000;
      }
    }

    /** Below pos the digits are those of the product r, from pos on still those of s. */
    ghost predicate Multiplying(pos: nat, carry: nat, s: seq<nat>, factor: nat, r: seq<nat>)
      reads this, bigits
    {
      && WellFormed() && pos <= used == |s| && Digits(s) && factor > 0
      && r == CarryRow(Scaled(s, factor), 0) && carry == CarryAt(Scaled(s, factor), 0, pos) < factor
      && (forall k :: 0 <= k < pos ==> bigits[k] == r[k])
      && (forall k :: pos <= k < used ==> bigits[k] == s[k])
    }

    method StoreColumn(pos: nat, digit: nat, next: nat,
                       ghost carry: nat, ghost s: seq<nat>, ghost factor: nat, ghost r: seq<nat>)
      requires Multiplying(pos, carry, s, factor, r) && pos < used
      requires digit == (factor * s[pos] + carry) % 0x1000_0000
      requires next == (factor * s[pos] + carry) / 0x1000_0000 < factor
      modifies bigits
      ensures Multiplying(pos + 1, next, s, factor, r)
    {
      ScaledAt(s, factor, pos);
      CarryColumn(Scaled(s, factor), 0, pos);
      bigits[pos] := digit;
    }

    method MultiplyByUInt32(factor: nat)
      requires Valid() && factor < 0x1_0000_0000
      requires Length(factor * Sig()) <= 128
      modifies this, bigits
      ensures Valid() && Sig() == factor * old(Sig())
      ensures exponent == if factor == 0 then 0 else old(exponent)
    {
      if factor == 1 { return; }
      if factor == 0 {
        Zero();
        return;
      }
      if used == 0 { return; }
      ghost var s := bigits[..used];
      ghost var r := Product(s, factor);
      var carry := MultiplyDigits32(factor, s, r);
      AppendCarry(carry, s, factor, r);
    }

    method MultiplyDigits32(factor: nat, ghost s: seq<nat>, ghost r: seq<nat>) returns (carry: nat)
      requires Multiplying(0, 0, s, factor, r) && factor < 0x1_0000_0000
      modifies bigits
      ensures Multiplying(used, carry, s, factor, r)
    {
      carry := 0;
      for i := 0 to used
        invariant Multiplying(i, carry, s, factor, r)
      {
        var digit, next := Column32(factor, bigits[i], carry, factor * s[i]);
        StoreColumn(i, digit, next, carry, s, factor, r);
        carry := next;
      }
    }

    method MultiplyByUInt64(factor: nat)
      requires Valid() && factor < 0x1_0000_0000_0000_0000
      requires Length(factor * Sig()) <= 128
      modifies this, bigits
      ensures Valid() && Sig() == factor * old(Sig())
      ensures exponent == if factor == 0 then 0 else old(exponent)
    {
      if factor == 1 { return; }
      if factor == 0 {
        Zero();
        return;
      }
      if used == 0 { return; }
      ghost var s := bigits[..used];
      ghost var r := Product(s, factor);
      var carry := MultiplyDigits64(factor, s, r);
      AppendCarry(carry, s, factor, r);
    }

    method MultiplyDigits64(factor: nat, ghost s: seq<nat>, ghost r: seq<nat>) returns (carry: nat)
      requires Multiplying(0, 0, s, factor, r) && factor < 0x1_0000_0000_0000_0000
      modifies bigits
      ensures Multiplying(used, carry, s, factor, r)
    {
      carry := 0;
      var low, high := factor % 0x1_0000_0000, factor / 0x1_0000_0000;
      for i := 0 to used
        invariant Multiplying(i, carry, s, factor, r)
      {
        var digit, next := Column64(low, high, bigits[i], carry, factor, factor * s[i]);
        StoreColumn(i, digit, next, carry, s, factor, r);
        carry := next;
      }
    }

    /** Moves the digits up and clears the places they leave. */
    method CopyUp(zeros: nat)
      requires WellFormed() && used + zeros <= 128
      modifies bigits
      ensures bigits[zeros..zeros + used] == old(bigits[..used])
      ensures forall k :: used + zeros <= k < 128 ==> bigits[k] == 0
    {
      var i := used;
      while i > 0
        invariant 0 <= i <= used
        invariant bigits[..i] == old(bigits[..i])
        invariant bigits[zeros + i..zeros + used] == old(bigits[i..used])
        invariant forall k :: used + zeros <= k < 128 ==> bigits[k] == 0
      {
        i := i - 1;
        bigits[i + zeros] := bigits[i];
      }
    }

    method MoveUp(zeros: nat)
      requires WellFormed() && used + zeros <= 128
      modifies bigits
      ensures forall k :: 0 <= k < zeros ==> bigits[k] == 0
      ensures bigits[zeros..zeros + used] == old(bigits[..used])
      ensures forall k :: used + zeros <= k < 128 ==> bigits[k] == 0
    {
      CopyUp(zeros);
      for j := 0 to zeros
        invariant bigits[zeros..zeros + used] == old(bigits[..used])
        invariant forall k :: 0 <= k < j ==> bigits[k] == 0
        invariant forall k :: used + zeros <= k < 128 ==> bigits[k] == 0
      {
        bigits[j] := 0;
      }
    }

    /** Replaces hidden zero digits by stored ones until no more are hidden than in other. */
    method Align(other: Bignum)
      requires Valid() && other.bigits != bigits
      requires exponent > other.exponent ==> used + exponent - other.exponent <= 128
      modifies this, bigits
      ensures Valid() && Value() == old(Value()) && BigitLength() == old(BigitLength())
      ensures exponent == if old(exponent) > other.exponent then other.exponent else old(exponent)
    {
      if exponent > other.exponent {
        hide Val, BPow;
        ghost var s := bigits[..used];
        var zeros := exponent - other.exponent;
        MoveUp(zeros);
        used, exponent := used + zeros, exponent - zeros;
        assert bigits[..used] == bigits[..zeros] + s;
        AlignValue(bigits[..zeros], s, exponent);
      }
    }

    /** Below pos the digits are those of the difference r, from pos on still those of a. */
    ghost predicate Subtracting(pos: nat, borrow: nat, a: seq<nat>, cols: seq<nat>, r: seq<nat>)
      reads this, bigits
    {
      && WellFormed() && pos <= used == |a| == |cols| && Digits(a)
      && BorrowRow(a, cols, 0) == (r, 0) && borrow == BorrowAt(a, cols, 0, pos)
      && (forall k :: 0 <= k < pos ==> bigits[k] == r[k])
      && (forall k :: pos <= k < used ==> bigits[k] == a[k])
    }

    /** One column of a subtraction in 32-bit arithmetic that wraps around. */
    method SubtractColumn(pos: nat, c: nat, borrow: nat, ghost a: seq<nat>, ghost cols: seq<nat>, ghost r: seq<nat>)
      returns (next: nat)
      requires Subtracting(pos, borrow, a, cols, r) && pos < used
      requires c == cols[pos] < 0x1000_0000 && borrow <= 0x1000_0000 - c
      modifies bigits
      ensures Subtracting(pos + 1, next, a, cols, r) && next <= 1
    {
      BorrowColumn(a, cols, 0, pos);
      WrappedDifference(bigits[pos], c, borrow);
      var difference := W32(W32(bigits[pos] - c) - borrow);
      bigits[pos] := difference % 0x1000_0000;
      next := difference / 0x8000_0000;
    }

    /** Takes other's digits away from digit offset upwards, then what is left of the borrow. */
    method SubtractDigits(other: Bignum, offset: nat, ghost cols: seq<nat>, ghost r: seq<nat>)
      requires WellFormed() && other.WellFormed() && other.bigits != bigits
      requires offset + other.used <= used && cols == Placed(other.bigits[..other.used], offset, used)
      requires BorrowRow(bigits[..used], cols, 0) == (r, 0)
      modifies bigits
      ensures WellFormed() && bigits[..used] == r
    {
      hide BorrowAt, BorrowRow;
      ghost var a := bigits[..used];
      var borrow: nat := 0;
      var i := 0;
      NoBorrowYet(a, cols);
      BorrowIdle(a, cols, 0, 0, offset);
      while i < other.used
        invariant 0 <= i <= other.used && borrow <= 1
        invariant Subtracting(offset + i, borrow, a, cols, r)
      {
        borrow := SubtractColumn(i + offset, other.bigits[i], borrow, a, cols, r);
        i := i + 1;
      }
      SubtractBorrow(i + offset, borrow, a, cols, r);
    }

    /** Carries a borrow through the digits above the subtrahend. */
    method SubtractBorrow(from: nat, initial: nat, ghost a: seq<nat>, ghost cols: seq<nat>, ghost r: seq<nat>)
      requires Subtracting(from, initial, a, cols, r) && initial <= 0x1000_0000
      requires forall k :: from <= k < used ==> cols[k] == 0
      modifies bigits
      ensures WellFormed() && bigits[..used] == r
    {
      var i, borrow := from, initial;
      BorrowOut(a, cols, 0);
      while borrow != 0
        invariant from <= i && borrow <= 0x1000_0000 && Subtracting(i, borrow, a, cols, r)
        decreases used - i
      {
        borrow := SubtractColumn(i, 0, borrow, a, cols, r);
        i := i + 1;
      }
      BorrowIdle(a, cols, 0, i, used);
    }

    method SubtractBignum(other: Bignum)
      requires Valid() && other.Valid() && other.bigits != bigits && other != this
      requires other.Value() <= Value()
      requires exponent > other.exponent ==> used + exponent - other.exponent <= 128
      modifies this, bigits
      ensures Valid() && Value() == old(Value()) - other.Value()
      ensures used > 0 ==> exponent <= old(exponent)
      ensures BigitLength() <= old(BigitLength())
    {
      Align(other);
      var offset := other.exponent - exponent;
      ghost var a, o := bigits[..used], other.bigits[..other.used];
      if o != [] {
        ColumnsFit(a, exponent, o, offset);
      }
      ghost var cols, r := Difference(a, exponent, o, offset);
      SubtractDigits(other, offset, cols, r);
      Clamp();
    }

    /** One column of the subtraction of a multiple. */
    method SubtractProductColumn(pos: nat, d: nat, factor: nat, borrow: nat,
                                 ghost a: seq<nat>, ghost cols: seq<nat>, ghost r: seq<nat>)
      returns (next: nat)
      requires Subtracting(pos, borrow, a, cols, r) && pos < used
      requires d < 0x1000_0000 && borrow <= factor < 0x1000_0000 && cols[pos] == factor * d
      modifies bigits
      ensures Subtracting(pos + 1, next, a, cols, r) && next <= factor
    {
      BorrowColumn(a, cols, 0, pos);
      var digit;
      digit, next := RemoveStep(bigits[pos], factor, d, borrow, cols[pos]);
      bigits[pos] := digit;
    }

    /** The columns of factor * other, taken away from digit offset upwards. */
    method SubtractProducts(other: Bignum, factor: nat, offset: nat,
                            ghost a: seq<nat>, ghost cols: seq<nat>, ghost r: seq<nat>)
      returns (borrow: nat)
      requires Subtracting(0, 0, a, cols, r) && other.WellFormed() && other.bigits != bigits
      requires factor < 0x1000_0000 && offset + other.used <= used
      requires cols == Placed(Scaled(other.bigits[..other.used], factor), offset, used)
      modifies bigits
      ensures Subtracting(offset + other.used, borrow, a, cols, r) && borrow <= factor
    {
      borrow := 0;
      BorrowIdle(a, cols, 0, 0, offset);
      for i := 0 to other.used
        invariant Subtracting(offset + i, borrow, a, cols, r) && borrow <= factor
      {
        ScaledAt(other.bigits[..other.used], factor, i);
        borrow := SubtractProductColumn(i + offset, other.bigits[i], factor, borrow, a, cols, r);
      }
    }

    method SubtractFew(other: Bignum, factor: nat)
      requires Valid() && other.Valid() && other.bigits != bigits && other != this
      requires exponent <= other.exponent && factor * other.Value() <= Value()
      modifies this, bigits
      ensures Valid() && Value() == old(Value()) - factor * other.Value()
      ensures exponent <= other.exponent && BigitLength() <= old(BigitLength())
    {
      ghost var v := other.Value();
      for i := 0 to factor
        invariant Valid() && exponent <= other.exponent && BigitLength() <= old(BigitLength())
        invariant Value() == old(Value()) - i * v
      {
        MulLe(i + 1, factor, v);
        TimesNext(i, v);
        SubtractBignum(other);
      }
    }

    /** Requires this >= factor * other and no more hidden digits here than in other. */
    method SubtractTimes(other: Bignum, factor: nat)
      requires Valid() && other.Valid() && other.bigits != bigits && other != this
      requires exponent <= other.exponent && factor < 0x1000_0000
      requires factor * other.Value() <= Value()
      modifies this, bigits
      ensures Valid() && Value() == old(Value()) - factor * other.Value()
      ensures exponent <= other.exponent && BigitLength() <= old(BigitLength())
    {
      hide Val, BPow, Scaled, BorrowAt, BorrowRow;
      if factor < 3 {
        SubtractFew(other, factor);
        return;
      }
      var exponentDiff := other.exponent - exponent;
      ghost var a, c := bigits[..used], Scaled(other.bigits[..other.used], factor);
      Multiple(other.bigits[..other.used], factor, other.exponent);
      if c != [] {
        ColumnsFit(a, exponent, c, exponentDiff);
      }
      ghost var cols, r := Difference(a, exponent, c, exponentDiff);
      NoBorrowYet(a, cols);
      var borrow := SubtractProducts(other, factor, exponentDiff, a, cols, r);
      SubtractRest(other.used + exponentDiff, borrow, a, cols, r);
    }

    /** The digits above the subtrahend; when no borrow is left the leading digit has not changed. */
    method SubtractRest(from: nat, initial: nat, ghost a: seq<nat>, ghost cols: seq<nat>, ghost r: seq<nat>)
      requires Subtracting(from, initial, a, cols, r) && initial < 0x1000_0000
      requires used > 0 ==> a[used - 1] != 0
      requires used == 0 ==> exponent == 0
      requires forall k :: from <= k < used ==> cols[k] == 0
      modifies this, bigits
      ensures Valid() && Value() == Val(r) * BPow(old(exponent))
      ensures exponent <= old(exponent) && used <= old(used)
    {
      var borrow := initial;
      BorrowOut(a, cols, 0);
      for i := from to used
        invariant Subtracting(i, borrow, a, cols, r) && borrow < 0x1000_0000
        invariant used == old(used) && exponent == old(exponent)
      {
        if borrow == 0 {
          BorrowIdle(a, cols, 0, i, used);
          assert bigits[..used] == r;
          return;
        }
        borrow := SubtractColumn(i, 0, borrow, a, cols, r);
      }
      assert bigits[..used] == r;
      Clamp();
    }

    method AssignUInt16(value: nat)
      requires WellFormed() && value < 0x1_0000
      modifies this, bigits
      ensures Valid() && Value() == value && exponent == 0 && used <= 1
    {
      Zero();
      if value == 0 { return; }
      bigits[0] := value;
      used := 1;
      assert bigits[..used] == [value];
      assert Val([value]) == value;
    }

    method AssignUInt64(value: nat)
      requires WellFormed() && value < 0x1_0000_0000_0000_0000
      modifies this, bigits
      ensures Valid() && Value() == value && exponent == 0
    {
      hide Val;
      Zero();
      if value == 0 { return; }
      var rest := value;
      for i := 0 to 3
        invariant used == 0 && exponent == 0 && Digits(bigits[..])
        invariant rest == Dropped(value, i)
        invariant forall k :: 0 <= k < i ==> bigits[k] == Dropped(value, k) % 0x1000_0000
        invariant forall k :: i <= k < 128 ==> bigits[k] == 0
      {
        bigits[i] := rest % 0x1000_0000;
        rest := rest / 0x1000_0000;
      }
      used := 3;
      ThreeDigits(bigits[..used], value);
      Clamp();
    }

    method AssignBignum(other: Bignum)
      requires WellFormed() && other.Valid() && other.bigits != bigits && other != this
      modifies this, bigits
      ensures Valid() && Value() == other.Value() && used == other.used && exponent == other.exponent
    {
      exponent := other.exponent;
      for i := 0 to other.used
        invariant used == old(used) && exponent == other.exponent
        invariant forall k :: 0 <= k < i ==> bigits[k] == other.bigits[k]
        invariant forall k :: i <= k < 128 ==> bigits[k] == old(bigits[k])
      {
        bigits[i] := other.bigits[i];
      }
      for i := other.used to if used < other.used then other.used else used
        invariant used == old(used) && exponent == other.exponent
        invariant forall k :: 0 <= k < other.used ==> bigits[k] == other.bigits[k]
        invariant forall k :: other.used <= k < i ==> bigits[k] == 0
        invariant forall k :: i <= k < 128 ==> bigits[k] == old(bigits[k])
      {
        bigits[i] := 0;
      }
      used := other.used;
      assert bigits[..used] == other.bigits[..used];
    }

    /** Below pos the digits are those of the sum r, from pos on still those of a. */
    ghost predicate Adding(pos: nat, carry: nat, a: seq<nat>, cols: seq<nat>, r: seq<nat>)
      reads this, bigits
    {
      && bigits.Length == 128 && Digits(bigits[..]) && pos <= |a| == |cols| <= 128
      && r == CarryRow(cols, 0) && carry == CarryAt(cols, 0, pos) <= 1
      && (forall k :: 0 <= k < pos ==> bigits[k] == r[k])
      && (forall k :: pos <= k < |a| ==> bigits[k] == a[k])
      && (forall k :: |a| <= k < 128 ==> bigits[k] == 0)
    }

    method AddColumn(pos: nat, d: nat, carry: nat, ghost a: seq<nat>, ghost cols: seq<nat>, ghost r: seq<nat>)
      returns (next: nat)
      requires Adding(pos, carry, a, cols, r) && pos < |a|
      requires d < 0x1000_0000 && cols[pos] == a[pos] + d
      modifies bigits
      ensures Adding(pos + 1, next, a, cols, r)
    {
      hide CarryRow;
      CarryColumn(cols, 0, pos);
      SumFits(bigits[pos], d, carry);
      var sum := W32(W32(bigits[pos] + d) + carry);
      next := sum / 0x1000_0000;
      assert next == CarryAt(cols, 0, pos + 1);
      hide CarryAt;
      bigits[pos] := sum % 0x1000_0000;
    }

    /** Adds other's digits from digit offset upwards, then what is left of the carry. */
    method AddDigits(other: Bignum, offset: nat, ghost a: seq<nat>, ghost cols: seq<nat>, ghost r: seq<nat>)
      returns (pos: nat)
      requires Adding(0, 0, a, cols, r) && other.Valid() && other.bigits != bigits
      requires offset + other.used < |a| && Digits(a) && a[|a| - 1] == 0
      requires cols == Sums(a, Placed(other.bigits[..other.used], offset, |a|))
      modifies bigits
      ensures Adding(pos, 0, a, cols, r) && offset + other.used <= pos
      ensures pos == offset + other.used || CarryAt(cols, 0, pos - 1) != 0
    {
      hide Bignum.Adding, Sums, Placed, CarryAt, CarryRow;
      ghost var o := other.bigits[..other.used];
      var carry := AddOther(other, offset, a, cols, r);
      pos := AddCarry(offset + other.used, carry, a, o, offset, cols, r);
    }

    method AddOther(other: Bignum, offset: nat, ghost a: seq<nat>, ghost cols: seq<nat>, ghost r: seq<nat>)
      returns (carry: nat)
      requires Adding(0, 0, a, cols, r) && other.Valid() && other.bigits != bigits
      requires offset + other.used < |a| && Digits(a)
      requires cols == Sums(a, Placed(other.bigits[..other.used], offset, |a|))
      modifies bigits
      ensures Adding(offset + other.used, carry, a, cols, r)
    {
      hide Sums, Placed, CarryAt, CarryRow;
      ghost var o := other.bigits[..other.used];
      forall k | 0 <= k < offset ensures cols[k] == a[k] {
        SumOf(a, o, offset, k);
      }
      CarryIdle(cols, 0, offset);
      carry := 0;
      for i := 0 to other.used
        invariant Adding(offset + i, carry, a, cols, r)
      {
        SumOf(a, o, offset, offset + i);
        carry := AddColumn(offset + i, other.bigits[i], carry, a, cols, r);
      }
    }

    /** What is left of the carry runs on through the digits above. */
    method AddCarry(from: nat, initial: nat, ghost a: seq<nat>, ghost o: seq<nat>, ghost offset: nat,
                    ghost cols: seq<nat>, ghost r: seq<nat>)
      returns (pos: nat)
      requires Adding(from, initial, a, cols, r) && from == offset + |o| < |a|
      requires Digits(a) && Digits(o) && a[|a| - 1] == 0 && cols == Sums(a, Placed(o, offset, |a|))
      modifies bigits
      ensures Adding(pos, 0, a, cols, r) && from <= pos
      ensures pos == from || CarryAt(cols, 0, pos - 1) != 0
    {
      hide Sums, Placed, CarryAt, CarryRow;
      NoCarryOut(a, Placed(o, offset, |a|), |a|);
      pos := from;
      var carry := initial;
      while carry != 0
        invariant from <= pos && Adding(pos, carry, a, cols, r)
        invariant pos == from || CarryAt(cols, 0, pos - 1) != 0
        decreases |a| - pos
      {
        SumOf(a, o, offset, pos);
        carry := AddColumn(pos, 0, carry, a, cols, r);
        pos := pos + 1;
      }
    }

    method AddPlaces(other: Bignum, offset: nat, ghost a: seq<nat>, ghost cols: seq<nat>, ghost r: seq<nat>)
      requires Valid() && other.Valid() && other.bigits != bigits && other != this
      requires Adding(0, 0, a, cols, r) && |r| == |a|
      requires used < |a| && offset + other.used < |a| && Digits(a)
      requires other.used == 0 ==> offset == 0
      requires cols == Sums(a, Placed(other.bigits[..other.used], offset, |a|))
      modifies this`used, bigits
      ensures WellFormed() && used <= |r| && bigits[..|r|] == r
      ensures used > 0 ==> bigits[used - 1] != 0
      ensures used == 0 ==> old(used) == 0
    {
      hide Sums, Placed, CarryRow, CarryAt;
      ghost var o := other.bigits[..other.used];
      var pos := AddDigits(other, offset, a, cols, r);
      SumLead(a, o, offset, pos, used);
      SumRest(a, o, offset, pos);
      if used < pos {
        used := pos;
      }
    }

    /** Addition once no more digits are hidden here than in other; m places hold the result. */
    method AddAligned(other: Bignum, ghost m: nat)
      requires Valid() && other.Valid() && other.bigits != bigits && other != this
      requires exponent <= other.exponent
      requires 1 + Larger(BigitLength(), other.BigitLength()) == m + exponent && m <= 128
      modifies this, bigits
      ensures Valid() && Value() == old(Value()) + other.Value()
    {
      hide Val, BPow, Sums, CarryRow, CarryAt;
      var offset := other.exponent - exponent;
      ghost var a := bigits[..m];
      ghost var cols, r := Total(a, exponent, other.bigits[..other.used], offset);
      NoCarryYet(cols);
      ValTrailingZeros(a, used);
      assert a[..used] == bigits[..used];
      AddPlaces(other, offset, a, cols, r);
      ValTrailingZeros(r, used);
      assert r[..used] == bigits[..used];
    }

    method AddBignum(other: Bignum)
      requires Valid() && other.Valid() && other.bigits != bigits && other != this
      requires 1 + Larger(BigitLength(), other.BigitLength()) <= 128 + exponent
      requires 1 + Larger(BigitLength(), other.BigitLength()) <= 128 + other.exponent
      modifies this, bigits
      ensures Valid() && Value() == old(Value()) + other.Value()
    {
      Align(other);
      AddAligned(other, 1 + Larger(BigitLength(), other.BigitLength()) - exponent);
    }

    method ShiftDigits(shift: nat, ghost s: seq<nat>, ghost m: nat, ghost r: seq<nat>) returns (carry: nat)
      requires Multiplying(0, 0, s, m, r) && shift < 28 && m == Pow(2, shift)
      modifies bigits
      ensures Multiplying(used, carry, s, m, r)
    {
      carry := 0;
      for i := 0 to used
        invariant Multiplying(i, carry, s, m, r)
      {
        var digit, next := ColumnShift(shift, bigits[i], carry, m, m * s[i]);
        StoreColumn(i, digit, next, carry, s, m, r);
        carry := next;
      }
    }

    method BigitsShiftLeft(shift: nat)
      requires Valid() && 0 < used < 128 && shift < 28
      modifies this`used, bigits
      ensures Valid() && Sig() == Pow(2, shift) * old(Sig())
      ensures old(used) <= used <= old(used) + 1
    {
      hide Val, CarryAt, CarryRow, Scaled, FromNat, Pow;
      ghost var s, m := bigits[..used], Pow(2, shift);
      HalfBase(shift);
      ghost var r := Product(s, m);
      NoCarryYet(Scaled(s, m));
      var carry := ShiftDigits(shift, s, m, r);
      TopDigit(s, m, r, carry);
      if carry != 0 {
        bigits[used] := carry;
        used := used + 1;
      }
      assert bigits[..used] == r;
    }

    method ShiftLeft(shiftAmount: nat)
      requires Valid() && used < 128
      modifies this, bigits
      ensures Valid() && Value() == old(Value()) * Pow(2, shiftAmount)
      ensures old(used) <= used <= old(used) + 1
    {
      if used == 0 { return; }
      ShiftValue(Sig(), exponent, shiftAmount);
      BigitsShiftLeft(shiftAmount % 28);
      exponent := exponent + shiftAmount / 28;
    }
  }

  function Larger(x: nat, y: nat): nat {
    if x < y then y else x
  }

  /** The last carry is the only digit above the multiplied ones. */
  lemma TopDigit(s: seq<nat>, factor: nat, r: seq<nat>, carry: nat)
    requires r == CarryRow(Scaled(s, factor), 0) && carry == CarryAt(Scaled(s, factor), 0, |s|) < 0x1000_0000
    ensures |s| <= |r| && r == r[..|s|] + if carry == 0 then [] else [carry]
  {
    hide CarryAt, CarryRow, Scaled;
    CarryOut(Scaled(s, factor), 0);
  }

  lemma SumFits(a: nat, d: nat, carry: nat)
    requires a < 0x1000_0000 && d < 0x1000_0000 && carry <= 1
    ensures W32(W32(a + d) + carry) == a + d + carry
    ensures (a + d + carry) / 0x1000_0000 <= 1
  {}

  lemma NoCarryYet(cols: seq<nat>)
    ensures CarryAt(cols, 0, 0) == 0
  {}

  lemma NoBorrowYet(s: seq<nat>, cols: seq<nat>)
    requires |s| == |cols| && Digits(s)
    ensures BorrowAt(s, cols, 0, 0) == 0
  {}

  lemma SumOf(a: seq<nat>, o: seq<nat>, off: nat, k: nat)
    requires off + |o| <= |a| && k < |a|
    ensures Sums(a, Placed(o, off, |a|))[k] == a[k] + if off <= k < off + |o| then o[k - off] else 0
  {
    SumsAt(a, Placed(o, off, |a|), k);
  }

  /** The digits an addition has to leave behind when the top column is empty. */
  lemma Total(a: seq<nat>, e: nat, o: seq<nat>, off: nat) returns (cols: seq<nat>, r: seq<nat>)
    requires Digits(a) && Digits(o) && off + |o| < |a| && a[|a| - 1] == 0
    ensures cols == Sums(a, Placed(o, off, |a|)) && r == CarryRow(cols, 0)
    ensures |r| == |a|
    ensures Val(r) * BPow(e) == Val(a) * BPow(e) + Val(o) * BPow(off + e)
  {
    var placed := Placed(o, off, |a|);
    cols := Sums(a, placed);
    r := CarryRow(cols, 0);
    CarryRowValue(cols, 0);
    SumsValue(a, placed);
    PlacedScale(o, off, |a|, e);
    PlusTimes(Val(r), Val(a), Val(placed), BPow(e));
    NoCarryOut(a, placed, |a|);
    CarryOut(cols, 0);
  }

  lemma PlusTimes(x: int, y: int, z: int, p: nat)
    requires x == y + z
    ensures x * p == y * p + z * p
  {}

  lemma {:induction false} NoCarryOut(a: seq<nat>, b: seq<nat>, i: nat)
    requires Digits(a) && Digits(b) && i <= |a| == |b|
    ensures CarryAt(Sums(a, b), 0, i) <= 1
    ensures i > 0 && a[i - 1] == 0 && b[i - 1] == 0 ==> CarryAt(Sums(a, b), 0, i) == 0
  {
    if i > 0 {
      NoCarryOut(a, b, i - 1);
      SumsAt(a, b, i - 1);
    }
  }

  /** Above the last place a carry reached the sum has a's digits. */
  lemma SumRest(a: seq<nat>, o: seq<nat>, off: nat, pos: nat)
    requires Digits(a) && Digits(o) && off + |o| <= pos <= |a|
    requires CarryAt(Sums(a, Placed(o, off, |a|)), 0, pos) == 0
    ensures forall k :: pos <= k < |a| ==> CarryRow(Sums(a, Placed(o, off, |a|)), 0)[k] == a[k]
    ensures forall k :: pos <= k <= |a| ==> CarryAt(Sums(a, Placed(o, off, |a|)), 0, k) == 0
  {
    var placed := Placed(o, off, |a|);
    var cols := Sums(a, placed);
    forall k | pos <= k < |a| ensures cols[k] == a[k] {
      SumsAt(a, placed, k);
    }
    forall k | pos <= k <= |a| ensures CarryAt(cols, 0, k) == 0 {
      CarryIdle(cols, pos, k);
    }
    CarryIdle(cols, pos, |a|);
  }

  /** The leading digit of a sum is not zero. */
  lemma SumLead(a: seq<nat>, o: seq<nat>, off: nat, pos: nat, used: nat)
    requires Digits(a) && Digits(o) && off + |o| <= pos <= |a| && used <= |a| && off + |o| < |a|
    requires forall k :: used <= k < |a| ==> a[k] == 0
    requires used > 0 ==> a[used - 1] != 0
    requires o != [] ==> o[|o| - 1] != 0
    requires o == [] ==> off == 0
    requires var cols := Sums(a, Placed(o, off, |a|));
             CarryAt(cols, 0, pos) == 0 && (pos == off + |o| || CarryAt(cols, 0, pos - 1) != 0)
    ensures var top := Larger(pos, used); top > 0 ==> CarryRow(Sums(a, Placed(o, off, |a|)), 0)[top - 1] != 0
  {
    hide Sums, Placed, CarryRow;
    var top, cols := Larger(pos, used), Sums(a, Placed(o, off, |a|));
    SumRest(a, o, off, pos);
    if top > 0 {
      SumOf(a, o, off, top - 1);
      CarryColumn(cols, 0, top - 1);
    }
  }

  lemma TimesNext(i: nat, v: nat)
    ensures (i + 1) * v == i * v + v
  {}

  /** The columns of a multiple of a number. */
  lemma Multiple(o: seq<nat>, factor: nat, e: nat)
    requires factor > 0 && (o != [] ==> o[|o| - 1] != 0)
    ensures Val(Scaled(o, factor)) * BPow(e) == factor * (Val(o) * BPow(e))
    ensures var c := Scaled(o, factor); c != [] ==> c[|c| - 1] != 0
  {
    ScaledValue(o, factor);
    MulAssoc(factor, Val(o), BPow(e));
  }

  /** What is left of a number after i of its digits have been taken off. */
  function Dropped(n: nat, i: nat): nat {
    if i == 0 then n else Dropped(n, i - 1) / 0x1000_0000
  }

  lemma ThreeDigits(s: seq<nat>, value: nat)
    requires |s| == 3 && value < 0x1_0000_0000_0000_0000
    requires forall k :: 0 <= k < 3 ==> s[k] == Dropped(value, k) % 0x1000_0000
    ensures Val(s) == value
  {
    assert Val(s[2..]) == s[2];
    assert s[1..][1..] == s[2..];
    assert Val(s[1..]) == s[1] + 0x1000_0000 * s[2];
    assert Dropped(value, 1) == value / 0x1000_0000;
    assert Dropped(value, 2) == value / 0x1000_0000 / 0x1000_0000;
  }

  lemma HalfBase(shift: nat)
    requires shift < 28
    ensures Pow(2, shift) * Pow(2, 28 - shift) == 0x1000_0000
    ensures 0 < Pow(2, shift) < 0x1000_0000 && Pow(2, 28 - shift) > 0
  {
    PowAdd(2, shift, 28 - shift);
    BaseIsPow();
    PowMonotone(2, 1, 28 - shift);
    MulLe(2, Pow(2, 28 - shift), Pow(2, shift));
  }

  /** One column of a shift by fewer than 28 bits, m being the power of two. */
  method ColumnShift(shift: nat, d: nat, carry: nat, ghost m: nat, ghost product: nat) returns (digit: nat, next: nat)
    requires shift < 28 && d < 0x1000_0000 && m == Pow(2, shift) && carry < m && product == m * d
    ensures digit == (product + carry) % 0x1000_0000
    ensures next == (product + carry) / 0x1000_0000 < m
  {
    ColumnBound(m, d, carry, product);
    next := HighBits(shift, d, m, carry, product);
    digit := MaskSum(d * Pow(2, shift), carry);
  }

  method HighBits(shift: nat, d: nat, ghost m: nat, ghost carry: nat, ghost product: nat) returns (next: nat)
    requires shift < 28 && m == Pow(2, shift) && carry < m && product == m * d
    ensures next == (product + carry) / 0x1000_0000
  {
    HalfBase(shift);
    next := d / Pow(2, 28 - shift);
    ShiftSplit(m, Pow(2, 28 - shift), d, carry, next, product);
  }

  /** Dropping the bits above 32 first does not disturb the low 28. */
  method MaskSum(x: nat, carry: nat) returns (digit: nat)
    ensures digit == (x + carry) % 0x1000_0000
  {
    var low := W32(x);
    digit := W32(low + carry) % 0x1000_0000;
    SameResidue(low + carry, W32(low + carry), 16 * ((low + carry) / 0x1_0000_0000));
    SameResidue(x + carry, low + carry, 16 * (x / 0x1_0000_0000));
  }

  lemma SameResidue(x: nat, y: nat, k: nat)
    requires x == y + 0x1000_0000 * k
    ensures x % 0x1000_0000 == y % 0x1000_0000
  {}

  lemma ShiftSplit(m: nat, q: nat, d: nat, carry: nat, next: nat, product: nat)
    requires m * q == 0x1000_0000 && q > 0 && carry < m && next == d / q && product == m * d
    ensures (product + carry) / 0x1000_0000 == next
  {
    var r := d % q;
    assert d == q * next + r;
    SplitTimes(m, q, next, r);
    MulLe(r + 1, q, m);
    Euclid(product + carry, next, m * r + carry);
  }

  lemma SplitTimes(m: nat, q: nat, k: nat, r: nat)
    requires m * q == 0x1000_0000
    ensures m * (q * k + r) == 0x1000_0000 * k + m * r
  {
    MulAssoc(m, q, k);
    assert m * (q * k + r) == m * (q * k) + m * r;
  }

  lemma ShiftValue(sig: nat, e: nat, shift: nat)
    ensures (Pow(2, shift % 28) * sig) * BPow(e + shift / 28) == (sig * BPow(e)) * Pow(2, shift)
  {
    var m, k := Pow(2, shift % 28), shift / 28;
    PowAdd(2, shift % 28, 28 * k);
    BPowIsPow(k);
    BPowAdd(e, k);
    MulSwap(sig, m, BPow(e), BPow(k));
  }
}
