/** The mixers line by line, in the shifts, sums and exclusive ors of machine words. */
module HashSteps {
  import opened Powers
  import opened HashMix

  /** Operations of a word of w bits. */
  function Not(x: nat, w: nat): nat
    requires x < Pow(2, w)
  {
    Pow(2, w) - 1 - x
  }

  function Shl(x: nat, k: nat, w: nat): nat {
    x * Pow(2, k) % Pow(2, w)
  }

  function Shr(x: nat, k: nat): nat {
    x / Pow(2, k)
  }

  function Plus(x: nat, y: nat, w: nat): nat {
    (x + y) % Pow(2, w)
  }

  /** Bit by bit. */
  function Xor(x: nat, y: nat, w: nat): nat {
    Val(seq(w, i requires 0 <= i < w => Bits(x, w)[i] != Bits(y, w)[i]))
  }

  /** Bit i of a word is the parity of what a shift by i leaves. */
  lemma {:induction false} BitMeans(x: nat, w: nat, i: nat)
    requires i < w
    ensures Bits(x, w)[i] <==> x / Pow(2, i) % 2 == 1
  {
    if i == 0 {
      Quotient(x, 1, x, 0);
    } else {
      BitMeans(x / 2, w - 1, i - 1);
      QuotientTwice(x, Pow(2, i - 1));
    }
  }

  lemma XorShiftIs(x: nat, n: nat, w: nat)
    requires x < Pow(2, w)
    ensures Xs(x, n, w) == Xor(x, Shr(x, n), w) < Pow(2, w)
  {
    var s := Bits(x, w);
    ValBits(x, w);
    ShiftRightValue(s, n);
    BitsVal(ShiftRight(s, n));
    assert Bits(Shr(x, n), w) == ShiftRight(s, n);
    assert XorShift(s, n) == seq(w, i requires 0 <= i < w => Bits(x, w)[i] != Bits(Shr(x, n), w)[i]);
    BitsVal(XorShift(s, n));
  }

  /** A sum of two shifts, or of one. */
  lemma SumIs(x: nat, j: nat, k: nat, w: nat)
    ensures Plus(Plus(x, Shl(x, j, w), w), Shl(x, k, w), w) == Sum(x, Pow(2, j), Pow(2, k), Pow(2, w)) < Pow(2, w)
  {
    var m, a, b := Pow(2, w), Shl(x, j, w), Shl(x, k, w);
    assert Plus(Plus(x, a, w), b, w) == ((x + a) % m + b) % m;
    assert Sum(x, Pow(2, j), Pow(2, k), m) == (x + a + b) % m;
    hide Pow, Shl, Plus, Sum;
    TwoSums(x, a, b, m);
  }

  lemma TwoSums(x: nat, a: nat, b: nat, m: nat)
    requires m > 0
    ensures ((x + a) % m + b) % m == (x + a + b) % m < m
  {
    var q, r := (x + a) / m, (x + a) % m;
    Division(x + a, m, q, r);
    SameRemainder(x + a + b, r + b, q, m);
  }

  lemma SumIsOne(x: nat, j: nat, w: nat)
    ensures Plus(x, Shl(x, j, w), w) == Sum(x, Pow(2, j), 0, Pow(2, w)) < Pow(2, w)
  {
    Zero(x, Pow(2, w));
  }

  lemma Zero(x: nat, m: nat)
    requires m > 0
    ensures x * 0 % m == 0
  {
    Quotient(0, m, 0, 0);
  }

  lemma Powers64()
    ensures Pow(2, 64) == M64 && Pow(2, 21) == 0x20_0000 && Pow(2, 3) == 8 && Pow(2, 8) == 256
    ensures Pow(2, 2) == 4 && Pow(2, 4) == 16 && Pow(2, 31) == 0x8000_0000
  {
    WordSizes();
    assert Pow(2, 2) == 4 && Pow(2, 3) == 8 && Pow(2, 4) == 16 && Pow(2, 5) == 32;
    assert Pow(2, 7) == 128 && Pow(2, 8) == 256;
    hide Pow;
    PowAdd(2, 8, 8);
    PowAdd(2, 16, 5);
    PowAdd(2, 16, 8);
    PowAdd(2, 24, 7);
  }

  lemma Powers32()
    ensures Pow(2, 32) == M32 && Pow(2, 12) == 4096 && Pow(2, 4) == 16 && Pow(2, 10) == 1024 && Pow(2, 7) == 128
  {
    WordSizes();
    assert Pow(2, 4) == 16 && Pow(2, 6) == 64 && Pow(2, 7) == 128 && Pow(2, 8) == 256;
    hide Pow;
    PowAdd(2, 8, 4);
    PowAdd(2, 6, 4);
  }

  /** The seven lines of twang_mix64. */
  lemma TwangSteps(key: nat)
    requires key < M64 && key < Pow(2, 64)
    ensures var k1 := Plus(Not(key, 64), Shl(key, 21, 64), 64);
            var k2 := Xor(k1, Shr(k1, 24), 64);
            var k3 := Plus(Plus(k2, Shl(k2, 3, 64), 64), Shl(k2, 8, 64), 64);
            var k4 := Xor(k3, Shr(k3, 14), 64);
            var k5 := Plus(Plus(k4, Shl(k4, 2, 64), 64), Shl(k4, 4, 64), 64);
            var k6 := Xor(k5, Shr(k5, 28), 64);
            TwangMix64(key) == Plus(k6, Shl(k6, 31, 64), 64)
  {
    Powers64();
    var k1 := Plus(Not(key, 64), Shl(key, 21, 64), 64);
    assert k1 == First(key);
    hide Pow, Plus, Shl, Shr, Xor, Xs, First, Not, Sum;
    XorShiftIs(k1, 24, 64);
    var k2 := Xor(k1, Shr(k1, 24), 64);
    SumIs(k2, 3, 8, 64);
    var k3 := Plus(Plus(k2, Shl(k2, 3, 64), 64), Shl(k2, 8, 64), 64);
    XorShiftIs(k3, 14, 64);
    var k4 := Xor(k3, Shr(k3, 14), 64);
    SumIs(k4, 2, 4, 64);
    var k5 := Plus(Plus(k4, Shl(k4, 2, 64), 64), Shl(k4, 4, 64), 64);
    XorShiftIs(k5, 28, 64);
    SumIsOne(Xor(k5, Shr(k5, 28), 64), 31, 64);
  }

  /** The eight lines of jenkins_rev_mix32. */
  lemma JenkinsSteps(key: nat)
    requires key < M32
    ensures var k1 := Plus(key, Shl(key, 12, 32), 32);
            var k2 := Xor(k1, Shr(k1, 22), 32);
            var k3 := Plus(k2, Shl(k2, 4, 32), 32);
            var k4 := Xor(k3, Shr(k3, 9), 32);
            var k5 := Plus(k4, Shl(k4, 10, 32), 32);
            var k6 := Xor(k5, Shr(k5, 2), 32);
            var k7 := Plus(k6, Shl(k6, 7, 32), 32);
            JenkinsRevMix32(key) == Plus(k7, Shl(k7, 12, 32), 32)
  {
    Powers32();
    hide Pow, Plus, Shl, Shr, Xor, Xs, Sum;
    SumIsOne(key, 12, 32);
    var k1 := Plus(key, Shl(key, 12, 32), 32);
    XorShiftIs(k1, 22, 32);
    var k2 := Xor(k1, Shr(k1, 22), 32);
    SumIsOne(k2, 4, 32);
    var k3 := Plus(k2, Shl(k2, 4, 32), 32);
    XorShiftIs(k3, 9, 32);
    var k4 := Xor(k3, Shr(k3, 9), 32);
    SumIsOne(k4, 10, 32);
    var k5 := Plus(k4, Shl(k4, 10, 32), 32);
    XorShiftIs(k5, 2, 32);
    var k6 := Xor(k5, Shr(k5, 2), 32);
    SumIsOne(k6, 7, 32);
    SumIsOne(Plus(k6, Shl(k6, 7, 32), 32), 12, 32);
  }
}
