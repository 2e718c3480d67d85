/** The 128-bit number of fixed-dtoa as two 64-bit words. */
module Words128 {
  import opened Powers

  const W32: nat := 0x1_0000_0000
  const W64: nat := 0x1_0000_0000_0000_0000
  const W128: nat := 0x1_0000_0000_0000_0000_0000_0000_0000_0000

  /** What a 64-bit word keeps of a number. */
  function Word(n: nat): nat {
    n % W64
  }

  /** x << k in a 64-bit word. */
  function Shl(x: nat, k: nat): nat {
    (x * Pow(2, k)) % W64
  }

  function Shr(x: nat, k: nat): nat {
    x / Pow(2, k)
  }

  lemma SplitWords(k: nat)
    requires k <= 64
    ensures Pow(2, k) * Pow(2, 64 - k) == W64
  {
    PowAdd(2, k, 64 - k);
    WordPower();
  }

  lemma WordPower()
    ensures Pow(2, 64) == W64
  {
    assert Pow(2, 8) == 256;
    hide Pow;
    PowAdd(2, 8, 8);
    assert Pow(2, 16) == 0x1_0000;
    PowAdd(2, 16, 16);
    assert Pow(2, 32) == W32;
    PowAdd(2, 32, 32);
  }

  /** Shifting left drops what leaves the word. */
  lemma ShiftedOut(x: nat, k: nat)
    requires x < W64 && 0 < k <= 64
    ensures Shl(x, k) == (x % Pow(2, 64 - k)) * Pow(2, k) < W64
    ensures Shl(x, k) + x / Pow(2, 64 - k) * W64 == x * Pow(2, k)
  {
    hide Pow;
    var p, m := Pow(2, k), Pow(2, 64 - k);
    SplitWords(k);
    var q, r := x / m, x % m;
    Division(x, m, q, r);
    var xp, rp := x * p, r * p;
    ShiftParts(x, q, r, p, m, xp, rp);
    Quotient(xp, W64, q, rp);
  }

  lemma ShiftParts(x: nat, q: nat, r: nat, p: nat, m: nat, xp: nat, rp: nat)
    requires p > 0 && p * m == W64 && x == q * m + r && r < m && xp == x * p && rp == r * p
    ensures xp == q * W64 + rp && rp < W64
  {
    MulAssoc(q, m, p);
    assert (q * m + r) * p == (q * m) * p + r * p;
    MulLt(r, m, p);
  }

  /** A shift that loses nothing. */
  lemma ShiftFits(x: nat, k: nat)
    requires x * Pow(2, k) < W64
    ensures Shl(x, k) == x * Pow(2, k)
  {
    var y := x * Pow(2, k);
    assert y % W64 == y;
  }

  class UInt128 {
    var high: nat
    var low: nat

    ghost predicate Valid()
      reads this
    {
      high < W64 && low < W64
    }

    ghost function Value(): nat
      reads this
    {
      high * W64 + low
    }

    constructor (h: nat, l: nat)
      requires h < W64 && l < W64
      ensures Valid() && Value() == h * W64 + l
    {
      high, low := h, l;
    }

    /**
     * The product. Every product and sum is a 64-bit word, and only the shifts lose anything; what
     * does not fit in 128 bits is the carry that the source asserts to be zero.
     */
    method Multiply(m: nat) returns (carry: nat)
      requires Valid() && m < W32
      modifies this
      ensures Valid() && Value() + carry * W128 == old(Value()) * m
    {
      var l0, l1, h0, h1 := low % W32, low / W32, high % W32, high / W32;
      HalvesTimes(l0, l1, h0, h1, m);
      HalfProduct(l0, m);
      HalfProduct(l1, m);
      HalfProduct(h0, m);
      HalfProduct(h1, m);
      ghost var before := Value() * m;
      high, low, carry := AddColumns(Word(l0 * m), Word(l1 * m), Word(h0 * m), Word(h1 * m));
      assert Value() + carry * W128 == before;
    }

    method Shift(amount: int)
      requires Valid() && -64 <= amount <= 64
      modifies this
      ensures Valid()
      ensures amount >= 0 ==> Value() == old(Value()) / Pow(2, amount)
      ensures amount < 0 ==> Value() == (old(Value()) * Pow(2, -amount)) % W128
    {
      if amount == 0 {
        return;
      } else if amount == -64 {
        LeftWord(high, low);
        high := low;
        low := 0;
      } else if amount == 64 {
        RightWord(high, low);
        low := high;
        high := 0;
      } else if amount <= 0 {
        LeftShift(high, low, -amount);
        high := Shl(high, -amount) + Shr(low, 64 + amount);
        low := Shl(low, -amount);
      } else {
        RightShift(high, low, amount);
        low := Shr(low, amount) + Shl(high, 64 - amount);
        high := Shr(high, amount);
      }
    }

    /** The quotient by a power of two, which must fit an int; the remainder stays. */
    method DivModPowerOf2(power: nat) returns (result: nat)
      requires Valid() && 0 < power < 128 && Value() < 0x8000_0000 * Pow(2, power)
      modifies this
      ensures Valid()
      ensures old(Value()) == result * Pow(2, power) + Value() && Value() < Pow(2, power)
    {
      if power >= 64 {
        HighPart(high, low, power);
        result := Shr(high, power - 64);
        high := high - Shl(result, power - 64);
      } else {
        LowPart(high, low, power);
        var partLow := Shr(low, power);
        var partHigh := Shl(high, 64 - power);
        result := partLow + partHigh;
        high := 0;
        low := low - Shl(partLow, power);
      }
    }

    predicate IsZero()
      reads this
      ensures IsZero() <==> Value() == 0
    {
      high == 0 && low == 0
    }

    function BitAt(position: nat): (bit: nat)
      requires Valid() && position < 128
      reads this
      ensures bit == Value() / Pow(2, position) % 2
    {
      if position >= 64 then
        HighBit(high, low, position);
        Shr(high, position - 64) % 2
      else
        LowBit(high, low, position);
        Shr(low, position) % 2
    }
  }

  /** The products of the halves added up, 32 bits further each, with the carry out of 128 bits. */
  method AddColumns(p0: nat, p1: nat, p2: nat, p3: nat) returns (high: nat, low: nat, carry: nat)
    requires p0 <= (W32 - 1) * (W32 - 1) && p1 <= (W32 - 1) * (W32 - 1)
    requires p2 <= (W32 - 1) * (W32 - 1) && p3 <= (W32 - 1) * (W32 - 1)
    ensures high < W64 && low < W64
    ensures high * W64 + low + carry * W128 == p0 + W32 * p1 + W64 * p2 + W32 * W64 * p3
  {
    hide Word;
    var acc := p0;
    var part := acc % W32;
    SumFits(acc, p1, part);
    acc := Word(acc / W32 + p1);
    low := Word(Word(acc * W32) + part);
    SumFits(acc, p2, part);
    acc := Word(acc / W32 + p2);
    part := acc % W32;
    SumFits(acc, p3, part);
    acc := Word(acc / W32 + p3);
    high := Word(Word(acc * W32) + part);
    carry := acc / W32;
    Columns(p0, p1, p2, p3, high, low, carry);
  }

  lemma HalfProduct(x: nat, m: nat)
    requires x < W32 && m < W32
    ensures 0 <= x * m <= (W32 - 1) * (W32 - 1) && Word(x * m) == x * m
  {
    MulLe(x, W32 - 1, m);
    MulLe(m, W32 - 1, W32 - 1);
  }

  /** Adding a product of halves to what is carried never needs more than a word. */
  lemma SumFits(acc: nat, p: nat, part: nat)
    requires acc < W64 && p <= (W32 - 1) * (W32 - 1) && part < W32
    ensures var a := acc / W32 + p;
            a < W64 && Word(a) == a && Word(Word(a * W32) + part) == (a * W32) % W64 + part
  {
    UpperHalf(acc / W32 + p);
  }

  lemma HalvesTimes(l0: nat, l1: nat, h0: nat, h1: nat, m: nat)
    ensures ((h0 + W32 * h1) * W64 + (l0 + W32 * l1)) * m
            == l0 * m + W32 * (l1 * m) + W64 * (h0 * m) + W32 * W64 * (h1 * m)
  {}

  /** The four columns of the product, 32 bits each. */
  lemma Columns(p0: nat, p1: nat, p2: nat, p3: nat, high: nat, low: nat, carry: nat)
    requires p0 <= (W32 - 1) * (W32 - 1) && p1 <= (W32 - 1) * (W32 - 1)
    requires p2 <= (W32 - 1) * (W32 - 1) && p3 <= (W32 - 1) * (W32 - 1)
    requires var a1 := p0 / W32 + p1; var a2 := a1 / W32 + p2; var a3 := a2 / W32 + p3;
             && low == (a1 * W32) % W64 + p0 % W32 && high == (a3 * W32) % W64 + a2 % W32
             && carry == a3 / W32
    ensures high < W64 && low < W64
    ensures high * W64 + low + carry * W128 == p0 + W32 * p1 + W64 * p2 + W32 * W64 * p3
  {
    var a1 := p0 / W32 + p1;
    var a2 := a1 / W32 + p2;
    var a3 := a2 / W32 + p3;
    UpperHalf(a1);
    UpperHalf(a3);
  }

  lemma UpperHalf(a: nat)
    ensures (a * W32) % W64 == (a % W32) * W32
  {}

  lemma LeftWord(high: nat, low: nat)
    requires high < W64 && low < W64
    ensures low * W64 == ((high * W64 + low) * Pow(2, 64)) % W128
  {
    WordPower();
    Quotient((high * W64 + low) * W64, W128, high, low * W64);
  }

  lemma RightWord(high: nat, low: nat)
    requires high < W64 && low < W64
    ensures high == (high * W64 + low) / Pow(2, 64)
  {
    WordPower();
    Quotient(high * W64 + low, W64, high, low);
  }

  lemma LeftShift(high: nat, low: nat, k: nat)
    requires high < W64 && low < W64 && 0 < k < 64
    ensures Shl(high, k) + Shr(low, 64 - k) < W64 && Shl(low, k) < W64
    ensures (Shl(high, k) + Shr(low, 64 - k)) * W64 + Shl(low, k) == ((high * W64 + low) * Pow(2, k)) % W128
  {
    hide Pow, Shl;
    ShiftedOut(high, k);
    ShiftedOut(low, k);
    SplitWords(k);
    var p, m := Pow(2, k), Pow(2, 64 - k);
    Division(high, m, high / m, high % m);
    QuotientBelow(low, m, p);
    LeftParts(high, low, high / m, high % m, low / m, p, m, Shl(high, k), Shl(low, k));
  }

  lemma LeftParts(high: nat, low: nat, hq: nat, hr: nat, lq: nat, p: nat, m: nat, hs: nat, ls: nat)
    requires p * m == W64 && high == hq * m + hr && hr < m && lq < p && ls < W64
    requires hs == hr * p && hs + hq * W64 == high * p && ls + lq * W64 == low * p
    ensures hs + lq < W64 && (hs + lq) * W64 + ls == ((high * W64 + low) * p) % W128
  {
    MulLe(hr + 1, m, p);
    var x := (high * W64 + low) * p;
    assert x == (high * p) * W64 + low * p;
    Quotient(x, W128, hq, (hs + lq) * W64 + ls);
  }

  lemma QuotientBelow(x: nat, m: nat, p: nat)
    requires m > 0 && x < p * m
    ensures x / m < p
  {
    Division(x, m, x / m, x % m);
    if x / m >= p {
      MulLe(p, x / m, m);
    }
  }

  lemma RightShift(high: nat, low: nat, k: nat)
    requires high < W64 && low < W64 && 0 < k < 64
    ensures Shr(low, k) + Shl(high, 64 - k) < W64 && Shr(high, k) < W64
    ensures Shr(high, k) * W64 + (Shr(low, k) + Shl(high, 64 - k)) == (high * W64 + low) / Pow(2, k)
  {
    hide Pow, Shl;
    var p, m := Pow(2, k), Pow(2, 64 - k);
    ShiftedOut(high, 64 - k);
    SplitWords(k);
    Division(high, p, high / p, high % p);
    Division(low, p, low / p, low % p);
    QuotientBelow(low, p, m);
    RightParts(high, low, high / p, high % p, low / p, low % p, p, m, Shl(high, 64 - k));
  }

  lemma RightParts(high: nat, low: nat, hq: nat, hr: nat, lq: nat, lr: nat, p: nat, m: nat, hrm: nat)
    requires p * m == W64 && high == hq * p + hr < W64 && low == lq * p + lr
    requires hr < p && lr < p && lq < m && hrm == hr * m
    ensures lq + hrm < W64 && hq < W64 && hq * W64 + (lq + hrm) == (high * W64 + low) / p
  {
    MulLe(hr + 1, p, m);
    MulLe(1, p, hq);
    assert (hq * W64) * p == (hq * p) * W64;
    assert (hr * m) * p == hr * (p * m);
    assert (hq * W64 + (lq + hrm)) * p == (hq * W64) * p + lq * p + hrm * p;
    Quotient(high * W64 + low, p, hq * W64 + (lq + hrm), lr);
  }

  lemma HighPart(high: nat, low: nat, power: nat)
    requires high < W64 && low < W64 && 64 <= power < 128 && high * W64 + low < 0x8000_0000 * Pow(2, power)
    ensures var q := Shr(high, power - 64);
            Shl(q, power - 64) <= high && q < 0x8000_0000
            && high * W64 + low == q * Pow(2, power) + ((high - Shl(q, power - 64)) * W64 + low)
            && (high - Shl(q, power - 64)) * W64 + low < Pow(2, power)
  {
    hide Pow, Shl, Shr;
    PowAdd(2, power - 64, 64);
    WordPower();
    Shifted(high, power - 64);
    var q := Shr(high, power - 64);
    HighParts(high, low, q, high - Shl(q, power - 64), Pow(2, power - 64), Pow(2, power), Shl(q, power - 64));
  }

  lemma HighParts(high: nat, low: nat, q: nat, r: nat, p: nat, pw: nat, qp: nat)
    requires high == qp + r && r < p && qp == q * p && pw == p * W64 && low < W64
    requires high * W64 + low < 0x8000_0000 * pw
    ensures q < 0x8000_0000 && r * W64 + low < pw && high * W64 + low == q * pw + (r * W64 + low)
  {
    if q >= 0x8000_0000 {
      MulLe(0x8000_0000, q, p);
    }
    assert q * (p * W64) == (q * p) * W64;
  }

  lemma LowPart(high: nat, low: nat, power: nat)
    requires high < W64 && low < W64 && 0 < power < 64 && high * W64 + low < 0x8000_0000 * Pow(2, power)
    ensures var q := Shr(low, power) + Shl(high, 64 - power);
            Shl(Shr(low, power), power) <= low && q < 0x8000_0000
            && high * W64 + low == q * Pow(2, power) + (low - Shl(Shr(low, power), power))
            && low - Shl(Shr(low, power), power) < Pow(2, power)
  {
    hide Pow, Shl, Shr;
    SplitWords(power);
    Shifted(low, power);
    var q, m := Shr(low, power), Pow(2, 64 - power);
    LowParts(high, low, q, low - Shl(q, power), Pow(2, power), m, high * m);
    ShiftFits(high, 64 - power);
  }

  /** Shifting right and back again leaves the part above the k low bits. */
  lemma Shifted(x: nat, k: nat)
    requires x < W64
    ensures Pow(2, k) > 0 && Shl(Shr(x, k), k) == Shr(x, k) * Pow(2, k) <= x < Shl(Shr(x, k), k) + Pow(2, k)
  {
    hide Pow;
    var p := Pow(2, k);
    Division(x, p, x / p, x % p);
    ShiftFits(x / p, k);
    hide Shl;
  }

  lemma LowParts(high: nat, low: nat, lq: nat, lr: nat, p: nat, m: nat, hm: nat)
    requires p * m == W64 && p > 0 && hm == high * m && low == lq * p + lr && lr < p
    requires high * W64 + low < 0x8000_0000 * p
    ensures lq + hm < 0x8000_0000 && high * W64 + low == (lq + hm) * p + lr
  {
    assert (high * m) * p == high * (p * m);
    assert (lq + hm) * p == lq * p + hm * p;
    if lq + hm >= 0x8000_0000 {
      MulLe(0x8000_0000, lq + hm, p);
    }
  }

  lemma HighBit(high: nat, low: nat, position: nat)
    requires high < W64 && low < W64 && 64 <= position < 128
    ensures (high * W64 + low) / Pow(2, position) == Shr(high, position - 64)
  {
    hide Pow;
    var p := Pow(2, position - 64);
    PowAdd(2, position - 64, 64);
    WordPower();
    Division(high, p, high / p, high % p);
    BitParts(high, high / p, high % p, p, low, Pow(2, position));
  }

  lemma BitParts(high: nat, q: nat, r: nat, p: nat, low: nat, pw: nat)
    requires high == q * p + r && r < p && low < W64 && pw == p * W64
    ensures (high * W64 + low) / pw == q
  {
    assert (q * p) * W64 == q * (p * W64);
    Quotient(high * W64 + low, pw, q, r * W64 + low);
  }

  lemma LowBit(high: nat, low: nat, position: nat)
    requires high < W64 && low < W64 && position < 64
    ensures (high * W64 + low) / Pow(2, position) % 2 == Shr(low, position) % 2
  {
    hide Pow;
    var p, m := Pow(2, position), Pow(2, 63 - position);
    SplitWords(position);
    NextPower(63 - position);
    Division(low, p, low / p, low % p);
    EvenParts(high, low, low / p, low % p, p, m);
  }

  lemma NextPower(k: nat)
    ensures Pow(2, k + 1) == 2 * Pow(2, k)
  {}

  lemma EvenParts(high: nat, low: nat, q: nat, r: nat, p: nat, m: nat)
    requires p * (2 * m) == W64 && low == q * p + r && r < p
    ensures (high * W64 + low) / p % 2 == q % 2
  {
    var hm := high * m;
    assert (2 * hm) * p == high * (p * (2 * m));
    assert (2 * hm + q) * p == (2 * hm) * p + q * p;
    Quotient(high * W64 + low, p, 2 * hm + q, r);
    EvenOffset(hm, q);
  }

  lemma EvenOffset(x: nat, q: nat)
    ensures (2 * x + q) % 2 == q % 2
  {}
}
