/** Squaring in place, and powers built from it. */
module BignumPower {
  import opened Powers
  import opened Bigits
  import opened Bignums
  import opened Convolution

  /**
   * The state of the squaring loops at column pos: the digits s were copied to
   * places n up to 2n, the columns below pos have been replaced by digits of
   * the square, and no copied digit that is still needed has been overwritten.
   */
  ghost predicate Squaring(x: Bignum, pos: nat, acc: nat, s: seq<nat>)
    reads x, x.bigits
  {
    var cols := Columns(s, s, 2 * |s|);
    && x.bigits.Length == 128 && x.used == |s| && 2 * |s| <= 128 && pos <= 2 * |s|
    && Digits(x.bigits[..]) && Digits(s)
    && acc == CarryAt(cols, 0, pos)
    && (forall k :: 0 <= k < pos ==> x.bigits[k] == CarryRow(cols, 0)[k])
    && (forall k :: Larger(pos, |s|) <= k < 2 * |s| ==> x.bigits[k] == s[k - |s|])
    && (forall k :: 2 * |s| <= k < 128 ==> x.bigits[k] == 0)
  }

  /** With at most 64 digits no accumulator reaches 64 bits. */
  lemma {:induction false} AccumulatorBound(s: seq<nat>, pos: nat)
    requires Digits(s) && |s| <= 64 && pos <= 2 * |s|
    ensures CarryAt(Columns(s, s, 2 * |s|), 0, pos) <= 0x4_0000_0000
  {
    if pos > 0 {
      AccumulatorBound(s, pos - 1);
      PartialIsColumn(s, s, pos - 1);
      PartialBound(s, s, pos - 1, |s|);
    }
  }

  /** One product added to the accumulator of column k. */
  method AddProduct(chunk1: nat, chunk2: nat, acc: nat, ghost s: seq<nat>, ghost k: nat, ghost j: nat, ghost base: nat)
    returns (next: nat)
    requires Digits(s) && j < |s| <= 64 && 0 <= k - j < |s| && base <= 0x4_0000_0000
    requires chunk1 == s[k - j] && chunk2 == s[j] && acc == base + Partial(s, s, k, j)
    ensures next == base + Partial(s, s, k, j + 1)
  {
    PartialBound(s, s, k, j + 1);
    next := AddWord(acc, chunk1 * chunk2, base + Partial(s, s, k, j + 1));
  }

  method AddWord(acc: nat, product: nat, ghost total: nat) returns (next: nat)
    requires total == acc + product < 0x1_0000_0000_0000_0000
    ensures next == total
  {
    next := W64(acc + W64(product));
  }

  /** The products of column i, from the second index start upwards. */
  method SumColumn(x: Bignum, i: nat, start: nat, stop: nat, acc: nat, ghost s: seq<nat>) returns (sum: nat)
    requires Squaring(x, i, acc, s) && i < 2 * |s|
    requires start <= stop <= |s| && stop <= i + 1 && i < start + |s|
    requires i < |s| ==> start == 0 && stop == i + 1
    requires |s| <= i ==> start == i - |s| + 1 && stop == |s|
    ensures sum == acc + Column(s, s, i)
  {
    AccumulatorBound(s, i);
    PartialIdle(s, s, i, 0, start);
    sum := acc;
    var index2 := start;
    while index2 < stop
      invariant start <= index2 <= stop && sum == acc + Partial(s, s, i, index2)
    {
      var index1 := i - index2;
      sum := AddProduct(x.bigits[x.used + index1], x.bigits[x.used + index2], sum, s, i, index2, acc);
      index2 := index2 + 1;
    }
    PartialIdle(s, s, i, stop, |s|);
    PartialIsColumn(s, s, i);
  }

  /** Replaces column i by its digit and hands the rest on. */
  method StoreSquare(x: Bignum, i: nat, sum: nat, ghost acc: nat, ghost s: seq<nat>) returns (next: nat)
    requires Squaring(x, i, acc, s) && i < 2 * |s| && sum == acc + Column(s, s, i)
    modifies x.bigits
    ensures Squaring(x, i + 1, next, s)
  {
    CarryColumn(Columns(s, s, 2 * |s|), 0, i);
    x.bigits[i] := MaskLow(sum);
    next := sum / 0x1000_0000;
  }

  function MaskLow(sum: nat): (d: nat)
    ensures d == sum % 0x1000_0000
  {
    SameResidue(sum, W32(sum), 16 * (sum / 0x1_0000_0000));
    W32(sum) % 0x1000_0000
  }

  method CopyUp(x: Bignum)
    requires x.Valid() && 2 * x.used <= 128
    modifies x.bigits
    ensures Squaring(x, 0, 0, old(x.bigits[..x.used]))
  {
    ghost var s := x.bigits[..x.used];
    for i := 0 to x.used
      invariant Digits(x.bigits[..])
      invariant forall k :: 0 <= k < x.used ==> x.bigits[k] == s[k]
      invariant forall k :: x.used <= k < x.used + i ==> x.bigits[k] == s[k - x.used]
      invariant forall k :: 2 * x.used <= k < 128 ==> x.bigits[k] == 0
    {
      x.bigits[x.used + i] := x.bigits[i];
    }
  }

  method SquareDigits(x: Bignum, ghost s: seq<nat>)
    requires Squaring(x, 0, 0, s)
    modifies x.bigits
    ensures exists acc :: Squaring(x, 2 * |s|, acc, s)
  {
    var accumulator := 0;
    for i := 0 to x.used
      invariant Squaring(x, i, accumulator, s)
    {
      var sum := SumColumn(x, i, 0, i + 1, accumulator, s);
      accumulator := StoreSquare(x, i, sum, accumulator, s);
    }
    for i := x.used to 2 * x.used
      invariant Squaring(x, i, accumulator, s)
    {
      var sum := SumColumn(x, i, i - x.used + 1, x.used, accumulator, s);
      accumulator := StoreSquare(x, i, sum, accumulator, s);
    }
  }

  /** The columns of a square of n digits leave no carry above place 2n. */
  lemma SquareFits(s: seq<nat>)
    requires Digits(s)
    ensures var r := CarryRow(Columns(s, s, 2 * |s|), 0); |r| == 2 * |s| && Val(r) == Val(s) * Val(s)
  {
    var n := 2 * |s|;
    var cols := Columns(s, s, n);
    var r := CarryRow(cols, 0);
    ColumnsValue(s, s, n);
    CarryRowValue(cols, 0);
    CarryOut(cols, 0);
    var carry := CarryAt(cols, 0, n);
    FromNatValue(carry);
    ValSplit(r, n);
    SquareBound(s);
    if carry > 0 {
      MulLe(1, carry, BPow(n));
    }
  }

  lemma SquareBound(s: seq<nat>)
    requires Digits(s)
    ensures Val(s) * Val(s) < BPow(2 * |s|)
  {
    ValBounds(s);
    BPowAdd(|s|, |s|);
    var v, p := Val(s), BPow(|s|);
    MulLe(v, p, v);
    MulLt(v, p, p);
  }

  method Square(x: Bignum)
    requires x.Valid() && 2 * x.used <= 128
    modifies x, x.bigits
    ensures x.Valid() && x.Value() == old(x.Value()) * old(x.Value())
    ensures x.used <= 2 * old(x.used) && (old(x.exponent) == 0 ==> x.exponent == 0)
  {
    hide Val, BPow, CarryRow, Columns;
    ghost var s := x.bigits[..x.used];
    CopyUp(x);
    SquareDigits(x, s);
    SquareScaled(s, x.exponent);
    x.used := 2 * x.used;
    assert x.bigits[..x.used] == CarryRow(Columns(s, s, 2 * |s|), 0);
    x.exponent := 2 * x.exponent;
    x.Clamp();
  }

  lemma SquareScaled(s: seq<nat>, e: nat)
    requires Digits(s)
    ensures var r := CarryRow(Columns(s, s, 2 * |s|), 0);
            |r| == 2 * |s| && Val(r) * BPow(2 * e) == (Val(s) * BPow(e)) * (Val(s) * BPow(e))
  {
    hide Val, BPow, CarryRow, Columns;
    SquareFits(s);
    BPowAdd(e, e);
    MulSwap(Val(s), Val(s), BPow(e), BPow(e));
  }

  /** How many times two divides a positive number, and what is left. */
  function Twos(n: nat): nat
    requires n > 0
  {
    if n % 2 == 0 then 1 + Twos(n / 2) else 0
  }

  function BitSize(n: nat): nat {
    if n == 0 then 0 else 1 + BitSize(n / 2)
  }

  lemma {:induction false} BitSizeBounds(n: nat)
    ensures n < Pow(2, BitSize(n))
    ensures n > 0 ==> Pow(2, BitSize(n) - 1) <= n
  {
    if n > 1 {
      BitSizeBounds(n / 2);
    }
  }

  lemma {:induction false} BitSizeMonotone(n: nat, m: nat)
    requires n <= m
    ensures BitSize(n) <= BitSize(m)
  {
    if n > 0 {
      BitSizeMonotone(n / 2, m / 2);
    }
  }

  /** What is left of a positive number once its factors of two are taken out. */
  function OddPart(n: nat): (m: nat)
    requires n > 0
    ensures m > 0 && m % 2 == 1 && m <= n
  {
    if n % 2 == 0 then OddPart(n / 2) else n
  }

  lemma {:induction false} OddPartTimesTwos(n: nat)
    requires n > 0
    ensures n == OddPart(n) * Pow(2, Twos(n))
  {
    if n % 2 == 0 {
      OddPartTimesTwos(n / 2);
    }
  }

  /** A number below 2^m needs at most m/28 digits, rounded up. */
  lemma LengthBound(n: nat, m: nat)
    requires n < Pow(2, m)
    ensures n > 0 ==> 28 * (Length(n) - 1) < m
    ensures n == 0 ==> Length(n) == 0
  {
    if n > 0 {
      var s := FromNat(n);
      FromNatValue(n);
      ValBounds(s);
      BPowIsPow(|s| - 1);
      if 28 * (|s| - 1) >= m {
        PowMonotone(2, m, 28 * (|s| - 1));
      }
    }
  }

  lemma PowBits(b: nat, e: nat)
    requires b > 0 && e > 0
    ensures Pow(b, e) < Pow(2, BitSize(b) * e)
  {
    BitSizeBounds(b);
    PowBase(b, Pow(2, BitSize(b)), e);
    PowPower(2, BitSize(b), e);
  }

  /** The exponent without its j lowest bits. */
  function Prefix(p: nat, j: nat): nat {
    if j == 0 then p else Prefix(p, j - 1) / 2
  }

  lemma PrefixIsQuotient(p: nat, j: nat)
    ensures p / Pow(2, j) == Prefix(p, j) <= p
  {
    PrefixBounds(p, j);
    hide Prefix, Pow;
    var q, m := Prefix(p, j), Pow(2, j);
    Quotient(p, m, q, p - q * m);
  }

  lemma {:induction false} PrefixBounds(p: nat, j: nat)
    ensures var q, m := Prefix(p, j), Pow(2, j); q <= p && q * m <= p < q * m + m
  {
    if j > 0 {
      PrefixBounds(p, j - 1);
      HalfBounds(p, Prefix(p, j - 1), Prefix(p, j), Pow(2, j - 1), Pow(2, j));
    }
  }

  lemma HalfBounds(p: nat, q: nat, h: nat, m: nat, w: nat)
    requires h == q / 2 && w == 2 * m && q * m <= p < q * m + m
    ensures h * w <= p < h * w + w
  {
    assert h * (2 * m) == (2 * h) * m;
    MulLe(2 * h, q, m);
    MulLe(q + 1, 2 * h + 2, m);
  }

  lemma PowSquare(b: nat, e: nat)
    ensures Pow(b, 2 * e) == Pow(b, e) * Pow(b, e)
    ensures Pow(b, 2 * e + 1) == b * (Pow(b, e) * Pow(b, e))
  {
    PowAdd(b, e, e);
  }

  /** Counting and removing the factors of two of the base. */
  method SplitBase(base: nat) returns (odd: nat, shifts: nat)
    requires base > 0
    ensures odd == OddPart(base) && shifts == Twos(base)
  {
    odd, shifts := base, 0;
    while odd % 2 == 0
      invariant odd > 0 && OddPart(odd) == OddPart(base) && shifts + Twos(odd) == Twos(base)
      decreases odd
    {
      odd := odd / 2;
      shifts := shifts + 1;
    }
  }

  method CountBits(n: nat) returns (bits: nat)
    ensures bits == BitSize(n)
  {
    bits := 0;
    var tmp := n;
    while tmp != 0
      invariant bits + BitSize(tmp) == BitSize(n)
    {
      tmp := tmp / 2;
      bits := bits + 1;
    }
  }

  /** The exponent's leading bit has been taken; j more bits follow. */
  ghost predicate Pending(mask: nat, j: nat) {
    mask == if j == 0 then 0 else Pow(2, j - 1)
  }

  method LeadingMask(power: nat) returns (mask: nat, ghost j: nat)
    requires power > 0
    ensures Pending(mask, j) && Prefix(power, j) == 1
  {
    mask := 1;
    j := 0;
    while power >= mask
      invariant mask == Pow(2, j) && (j > 0 ==> Pow(2, j - 1) <= power)
      decreases power + 1 - mask
    {
      mask := 2 * mask;
      j := j + 1;
    }
    assert j >= 1;
    j := j - 1;
    Quotient(power, Pow(2, j), 1, power - Pow(2, j));
    PrefixIsQuotient(power, j);
    mask := mask / 4;
    if j > 0 {
      assert Pow(2, j + 1) == 2 * (2 * Pow(2, j - 1));
    }
  }

  /** Whether the bit under the mask is set. */
  method TestBit(power: nat, mask: nat, ghost j: nat) returns (odd: bool)
    requires mask != 0 && Pending(mask, j)
    ensures j > 0 && odd == (Prefix(power, j - 1) % 2 == 1)
  {
    PrefixIsQuotient(power, j - 1);
    odd := power / mask % 2 == 1;
  }

  /** The value reached while it still fits a machine word, with one multiplication possibly owed. */
  ghost predicate Reached(value: nat, owed: bool, b: nat, e: nat) {
    if owed then b * value == Pow(b, e) else value == Pow(b, e)
  }

  method WordStep(value: nat, b: nat, bits: nat, odd: bool, ghost e: nat) returns (next: nat, owed: bool)
    requires value <= 0xFFFF_FFFF && Reached(value, false, b, e) && b > 0
    requires bits == BitSize(b) <= 16
    ensures next < 0x1_0000_0000_0000_0000 && (owed ==> next > 0xFFFF_FFFF)
    ensures Reached(next, owed, b, 2 * e + (if odd then 1 else 0))
  {
    WordSquare(value);
    PowSquare(b, e);
    assert value == Pow(b, e);
    next := W64(value * value);
    assert next == Pow(b, 2 * e);
    owed := false;
    if odd {
      next, owed := WordMultiply(next, b, bits);
    }
  }

  /** Multiplies by the base unless one of the high bits it could reach is set. */
  method WordMultiply(x: nat, b: nat, bits: nat) returns (next: nat, owed: bool)
    requires x < 0x1_0000_0000_0000_0000 && b > 0 && bits == BitSize(b) <= 16
    ensures next < 0x1_0000_0000_0000_0000 && (owed ==> next > 0xFFFF_FFFF)
    ensures (if owed then b * next else next) == b * x
  {
    BitSizeBounds(b);
    WordTimes(x, b, bits);
    next, owed := x, true;
    if x < Pow(2, 64 - bits) {
      next, owed := W64(x * b), false;
    }
  }

  lemma WordSquare(value: nat)
    requires value <= 0xFFFF_FFFF
    ensures value * value < 0x1_0000_0000_0000_0000
  {
    MulLe(value, 0xFFFF_FFFF, value);
  }

  lemma WordPowers()
    ensures Pow(2, 48) == 0x1_0000_0000_0000
    ensures Pow(2, 64) == 0x1_0000_0000_0000_0000
  {
    assert Pow(2, 8) == 256;
    hide Pow;
    PowAdd(2, 8, 8);
    assert Pow(2, 16) == 0x1_0000;
    PowAdd(2, 16, 16);
    assert Pow(2, 32) == 0x1_0000_0000;
    PowAdd(2, 32, 16);
    PowAdd(2, 48, 16);
  }

  lemma WordTimes(x: nat, b: nat, bits: nat)
    requires b < Pow(2, bits) && bits <= 16
    ensures x < Pow(2, 64 - bits) ==> x * b < 0x1_0000_0000_0000_0000
    ensures Pow(2, 64 - bits) > 0xFFFF_FFFF
  {
    WordPowers();
    PowMonotone(2, 48, 64 - bits);
    PowAdd(2, 64 - bits, bits);
    if x < Pow(2, 64 - bits) {
      ProductBelow(x, b, Pow(2, 64 - bits), Pow(2, bits));
    }
  }

  lemma ProductBelow(a: nat, x: nat, b: nat, y: nat)
    requires a < b && x < y
    ensures a * x < b * y
  {
    MulLe(x, y, a);
    MulLt(a, b, y);
  }

  /** There is room for every power up to the one asked for, and for squaring on the way. */
  ghost predicate Roomy(b: nat, power: nat) {
    forall e {:trigger Pow(b, e)} :: 0 < e <= power ==>
      Length(Pow(b, e)) <= 127 && (2 * e <= power ==> 2 * Length(Pow(b, e)) <= 128)
  }

  /** The places EnsureCapacity asks for are enough for every intermediate power. */
  lemma CapacityIsEnough(b: nat, power: nat, all: nat)
    requires b > 0 && all == BitSize(b) * power && all / 28 + 2 <= 128
    ensures Roomy(b, power)
  {
    forall e {:trigger Pow(b, e)} | 0 < e <= power
      ensures Length(Pow(b, e)) <= 127 && (2 * e <= power ==> 2 * Length(Pow(b, e)) <= 128)
    {
      PowerRoom(b, e, power, all);
    }
  }

  lemma PowerRoom(b: nat, e: nat, power: nat, all: nat)
    requires b > 0 && 0 < e <= power && all == BitSize(b) * power && all / 28 + 2 <= 128
    ensures Length(Pow(b, e)) <= 127 && (2 * e <= power ==> 2 * Length(Pow(b, e)) <= 128)
  {
    var bits := BitSize(b) * e;
    PowBits(b, e);
    LengthBound(Pow(b, e), bits);
    BitsScale(BitSize(b), e, power, bits, all);
    PlacesFit(Length(Pow(b, e)), bits, all, 2 * e <= power);
  }

  lemma BitsScale(k: nat, e: nat, power: nat, bits: nat, all: nat)
    requires e <= power && bits == k * e && all == k * power
    ensures bits <= all && (2 * e <= power ==> 2 * bits <= all)
  {
    MulLe(e, power, k);
    if 2 * e <= power {
      MulLe(2 * e, power, k);
      assert (2 * e) * k == 2 * bits;
    }
  }

  lemma PlacesFit(places: nat, bits: nat, all: nat, half: bool)
    requires 28 * (places - 1) < bits <= all && all / 28 + 2 <= 128
    requires half ==> 2 * bits <= all
    ensures places <= 127 && (half ==> 2 * places <= 128)
  {}

  /** A number without hidden digits has as many places as its value needs. */
  lemma UsedIsLength(x: Bignum)
    requires x.Valid() && x.exponent == 0
    ensures x.Sig() == x.Value() && x.used == Length(x.Value())
  {
    Canonical(x.bigits[..x.used]);
  }

  method WordPhase(b: nat, bits: nat, power: nat) returns (value: nat, owed: bool, mask: nat, ghost j: nat)
    requires 0 < b < 0x1_0000 && power > 0 && bits == BitSize(b) <= 16
    ensures Pending(mask, j) && value < 0x1_0000_0000_0000_0000
    ensures Reached(value, owed, b, Prefix(power, j)) && Prefix(power, j) > 0
  {
    mask, j := LeadingMask(power);
    value, owed := b, false;
    assert Pow(b, 1) == b;
    while mask != 0 && value <= 0xFFFF_FFFF
      invariant Pending(mask, j) && value < 0x1_0000_0000_0000_0000 && (owed ==> value > 0xFFFF_FFFF)
      invariant Reached(value, owed, b, Prefix(power, j)) && Prefix(power, j) > 0
      decreases j
    {
      var odd := TestBit(power, mask, j);
      value, owed := WordStep(value, b, bits, odd, Prefix(power, j));
      j := j - 1;
      mask := mask / 2;
    }
  }

  /** The bits of the exponent that are left, with the power held in a Bignum. */
  method BignumPhase(x: Bignum, b: nat, power: nat, first: nat, ghost bitsLeft: nat)
    requires x.Valid() && x.exponent == 0 && 0 < b < 0x1_0000 && Pending(first, bitsLeft) && Roomy(b, power)
    requires Prefix(power, bitsLeft) > 0 && x.Value() == Pow(b, Prefix(power, bitsLeft))
    modifies x, x.bigits
    ensures x.Valid() && x.exponent == 0 && x.Value() == Pow(b, power)
  {
    var mask := first;
    ghost var j := bitsLeft;
    while mask != 0
      invariant x.Valid() && x.exponent == 0 && Pending(mask, j)
      invariant Prefix(power, j) > 0 && x.Value() == Pow(b, Prefix(power, j))
      decreases j
    {
      var odd := TestBit(power, mask, j);
      PrefixIsQuotient(power, j - 1);
      SquareStep(x, b, power, odd, Prefix(power, j));
      j := j - 1;
      mask := mask / 2;
    }
  }

  method SquareStep(x: Bignum, b: nat, ghost power: nat, odd: bool, ghost e: nat)
    requires x.Valid() && x.exponent == 0 && 0 < b < 0x1_0000 && x.Value() == Pow(b, e)
    requires 0 < e && 2 * e + (if odd then 1 else 0) <= power && Roomy(b, power)
    modifies x, x.bigits
    ensures x.Valid() && x.exponent == 0 && x.Value() == Pow(b, 2 * e + (if odd then 1 else 0))
  {
    UsedIsLength(x);
    PowSquare(b, e);
    Square(x);
    if odd {
      UsedIsLength(x);
      x.MultiplyByUInt32(b);
    }
  }

  method AssignOddPower(x: Bignum, b: nat, bits: nat, power: nat)
    requires x.Valid() && 0 < b < 0x1_0000 && power > 0 && bits == BitSize(b) <= 16 && Roomy(b, power)
    modifies x, x.bigits
    ensures x.Valid() && x.exponent == 0 && x.Value() == Pow(b, power)
  {
    var value, owed, mask, j := WordPhase(b, bits, power);
    PrefixIsQuotient(power, j);
    AssignWord(x, value, owed, b, Prefix(power, j), power);
    BignumPhase(x, b, power, mask, j);
  }

  method AssignWord(x: Bignum, value: nat, owed: bool, b: nat, ghost e: nat, ghost power: nat)
    requires x.WellFormed() && value < 0x1_0000_0000_0000_0000 && Reached(value, owed, b, e)
    requires 0 < b < 0x1_0000 && 0 < e <= power && Roomy(b, power)
    modifies x, x.bigits
    ensures x.Valid() && x.exponent == 0 && x.Value() == Pow(b, e)
  {
    x.AssignUInt64(value);
    UsedIsLength(x);
    if owed {
      x.MultiplyByUInt32(b);
    }
  }

  method AssignPowerUInt16(x: Bignum, base: nat, power: nat)
    requires x.WellFormed() && 0 < base < 0x1_0000
    requires power > 0 ==> BitSize(OddPart(base)) * power / 28 + 2 <= 128
    modifies x, x.bigits
    ensures x.Valid() && x.Value() == Pow(base, power)
  {
    if power == 0 {
      x.AssignUInt16(1);
      return;
    }
    x.Zero();
    var b, shifts := SplitBase(base);
    var bits := CountBits(b);
    SmallBase(b);
    CapacityIsEnough(b, power, BitSize(b) * power);
    AssignOddPower(x, b, bits, power);
    UsedIsLength(x);
    x.ShiftLeft(shifts * power);
    OddPartTimesTwos(base);
    PowProduct(b, Pow(2, shifts), power);
    PowPower(2, shifts, power);
  }

  lemma SmallBase(b: nat)
    requires 0 < b < 0x1_0000
    ensures BitSize(b) <= 16
  {
    BitSizeBounds(b);
    assert Pow(2, 16) == 0x1_0000 by {
      assert Pow(2, 8) == 256;
      PowAdd(2, 8, 8);
    }
    if BitSize(b) > 16 {
      PowMonotone(2, 16, BitSize(b) - 1);
    }
  }

  lemma {:induction false} LengthMonotone(n: nat, m: nat)
    requires n <= m
    ensures Length(n) <= Length(m)
  {
    if n > 0 {
      LengthMonotone(n / 0x1000_0000, m / 0x1000_0000);
    }
  }

  const FIVE_13: nat := 1220703125
  const FIVE_27: nat := 0x6765_C793_FA10_079D
  const FIVE_1_TO_12: seq<nat> :=
    [5, 25, 125, 625, 3125, 15625, 78125, 390625, 1953125, 9765625, 48828125, 244140625]

  lemma SmallFives()
    ensures Pow(5, 13) == FIVE_13
    ensures forall k :: 0 <= k < 12 ==> FIVE_1_TO_12[k] == Pow(5, k + 1)
  {
    assert Pow(5, 3) == 125;
    assert Pow(5, 6) == 15625 by { PowAdd(5, 3, 3); }
    assert Pow(5, 9) == 1953125 by { PowAdd(5, 6, 3); }
    assert Pow(5, 12) == 244140625 by { PowAdd(5, 9, 3); }
  }

  lemma BigFive()
    ensures Pow(5, 27) == FIVE_27
  {
    SmallFives();
    PowAdd(5, 13, 13);
    assert Pow(5, 27) == 5 * Pow(5, 26);
  }

  /** Room for one more factor on the way to a larger power of five. */
  lemma FiveFits(sig: nat, done: nat, step: nat, exponent: nat)
    requires done + step <= exponent && Length(Pow(5, exponent) * sig) <= 127
    ensures Length(Pow(5, step) * (Pow(5, done) * sig)) <= 127
    ensures Pow(5, step) * (Pow(5, done) * sig) == Pow(5, done + step) * sig
  {
    PowAdd(5, step, done);
    MulAssoc(Pow(5, step), Pow(5, done), sig);
    PowMonotone(5, done + step, exponent);
    MulLe(Pow(5, done + step), Pow(5, exponent), sig);
    LengthMonotone(Pow(5, done + step) * sig, Pow(5, exponent) * sig);
  }

  /** All but remaining of the factors of five have been multiplied in. */
  ghost predicate Fives(x: Bignum, sig: nat, e: nat, remaining: nat, exponent: nat)
    reads x, x.bigits
  {
    && x.Valid() && x.exponent == e && remaining <= exponent
    && x.Sig() == Pow(5, exponent - remaining) * sig && Length(Pow(5, exponent) * sig) <= 127
  }

  /** Multiplies by one of the stored powers of five. */
  method TimesFives(x: Bignum, step: nat, factor: nat, ghost sig: nat, ghost e: nat, ghost remaining: nat, ghost exponent: nat)
    requires Fives(x, sig, e, remaining, exponent) && step <= remaining
    requires factor == Pow(5, step) < 0x1_0000_0000_0000_0000
    modifies x, x.bigits
    ensures Fives(x, sig, e, remaining - step, exponent)
  {
    FiveFits(sig, exponent - remaining, step, exponent);
    if factor < 0x1_0000_0000 {
      x.MultiplyByUInt32(factor);
    } else {
      x.MultiplyByUInt64(factor);
    }
  }

  /** The two loops that use one stored power as often as it fits. */
  method TimesFivesRepeatedly(x: Bignum, step: nat, factor: nat, initial: nat, ghost sig: nat, ghost e: nat, ghost exponent: nat)
    returns (remaining: nat)
    requires Fives(x, sig, e, initial, exponent) && step > 0
    requires factor == Pow(5, step) < 0x1_0000_0000_0000_0000
    modifies x, x.bigits
    ensures Fives(x, sig, e, remaining, exponent) && remaining < step
  {
    remaining := initial;
    while remaining >= step
      invariant Fives(x, sig, e, remaining, exponent)
    {
      TimesFives(x, step, factor, sig, e, remaining, exponent);
      remaining := remaining - step;
    }
  }

  method MultiplyByPowerOfFive(x: Bignum, exponent: nat)
    requires x.Valid() && Length(Pow(5, exponent) * x.Sig()) <= 127
    modifies x, x.bigits
    ensures x.Valid() && x.Sig() == Pow(5, exponent) * old(x.Sig()) && x.exponent == old(x.exponent)
  {
    ghost var sig, e := x.Sig(), x.exponent;
    BigFive();
    SmallFives();
    var remaining := TimesFivesRepeatedly(x, 27, FIVE_27, exponent, sig, e, exponent);
    remaining := TimesFivesRepeatedly(x, 13, FIVE_13, remaining, sig, e, exponent);
    if remaining > 0 {
      TimesFives(x, remaining, FIVE_1_TO_12[remaining - 1], sig, e, remaining, exponent);
    }
  }

  method MultiplyByPowerOfTen(x: Bignum, exponent: nat)
    requires x.Valid() && Length(Pow(5, exponent) * x.Sig()) <= 127
    modifies x, x.bigits
    ensures x.Valid() && x.Value() == old(x.Value()) * Pow(10, exponent)
  {
    if exponent == 0 || x.used == 0 { return; }
    ghost var sig, e := x.Sig(), x.exponent;
    MultiplyByPowerOfFive(x, exponent);
    Canonical(x.bigits[..x.used]);
    x.ShiftLeft(exponent);
    TenIsFiveTimesTwo(sig, BPow(e), exponent);
  }

  lemma TenIsFiveTimesTwo(sig: nat, p: nat, exponent: nat)
    ensures ((Pow(5, exponent) * sig) * p) * Pow(2, exponent) == (sig * p) * Pow(10, exponent)
  {
    PowProduct(5, 2, exponent);
    var f, t := Pow(5, exponent), Pow(2, exponent);
    MulAssoc(f, sig, p);
    MulAssoc(sig * p, f, t);
  }
}
