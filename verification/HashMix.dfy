/** Thomas Wang's and Robert Jenkins' reversible mixers. */
module HashMix {
  import opened Powers

  /** A word as its bits, least significant first. */
  function Bits(x: nat, w: nat): (s: seq<bool>)
    ensures |s| == w
  {
    if w == 0 then [] else [x % 2 == 1] + Bits(x / 2, w - 1)
  }

  function Val(s: seq<bool>): nat {
    if s == [] then 0 else (if s[0] then 1 else 0) + 2 * Val(s[1..])
  }

  lemma {:induction false} ValBits(x: nat, w: nat)
    requires x < Pow(2, w)
    ensures Val(Bits(x, w)) == x
  {
    if w > 0 {
      ValBits(x / 2, w - 1);
      assert Bits(x, w)[1..] == Bits(x / 2, w - 1);
    }
  }

  lemma {:induction false} BitsVal(s: seq<bool>)
    ensures Bits(Val(s), |s|) == s && Val(s) < Pow(2, |s|)
  {
    if s != [] {
      BitsVal(s[1..]);
    }
  }

  /** Bit i of a word shifted right by n; bits shifted in are zero. */
  predicate BitAt(s: seq<bool>, i: nat) {
    i < |s| && s[i]
  }

  /** s >> n, whose value is that of s divided by a power of two. */
  function ShiftRight(s: seq<bool>, n: nat): (r: seq<bool>)
    ensures |r| == |s| && forall i :: 0 <= i < |s| ==> r[i] == BitAt(s, i + n)
  {
    seq(|s|, i requires 0 <= i => BitAt(s, i + n))
  }

  function XorBits(s: seq<bool>, t: seq<bool>): (r: seq<bool>)
    requires |s| == |t|
    ensures |r| == |s| && forall i :: 0 <= i < |s| ==> r[i] == (s[i] != t[i])
  {
    seq(|s|, i requires 0 <= i < |s| => s[i] != t[i])
  }

  lemma {:induction false} ShiftRightValue(s: seq<bool>, n: nat)
    ensures Val(ShiftRight(s, n)) == Val(s) / Pow(2, n)
    decreases n
  {
    if n == 0 {
      assert ShiftRight(s, 0) == s;
    } else if s == [] {
      QuotientOfZero(Pow(2, n));
      assert ShiftRight(s, n) == [];
    } else {
      HalfShift(s);
      var h := ShiftRight(s, 1);
      ShiftRightValue(h, n - 1);
      assert ShiftRight(h, n - 1) == ShiftRight(s, n);
      QuotientTwice(Val(s), Pow(2, n - 1));
    }
  }

  lemma QuotientOfZero(p: nat)
    requires p > 0
    ensures 0 / p == 0
  {
    Quotient(0, p, 0, 0);
  }

  lemma QuotientTwice(x: nat, p: nat)
    requires p > 0
    ensures (x / 2) / p == x / (2 * p)
  {
    var q, r := x / 2, x % 2;
    var a, b := q / p, q % p;
    Division(q, p, a, b);
    assert a * (2 * p) == 2 * (a * p);
    Quotient(x, 2 * p, a, 2 * b + r);
  }

  lemma {:induction false} HalfShift(s: seq<bool>)
    requires s != []
    ensures Val(ShiftRight(s, 1)) == Val(s) / 2
  {
    var h := ShiftRight(s, 1);
    assert h == s[1..] + [false];
    AppendZero(s[1..]);
  }

  lemma {:induction false} AppendZero(s: seq<bool>)
    ensures Val(s + [false]) == Val(s)
  {
    if s == [] {
      assert Val([false]) == 2 * Val([false][1..]);
    } else {
      AppendZero(s[1..]);
      assert (s + [false])[1..] == s[1..] + [false];
    }
  }

  /** Whether an odd number of the bits i, i + n, i + 2n and so on are set. */
  predicate Parity(s: seq<bool>, i: nat, n: nat)
    requires n > 0
    decreases |s| - i
  {
    i < |s| && (s[i] != Parity(s, i + n, n))
  }

  /** x ^= x >> n. */
  function XorShift(s: seq<bool>, n: nat): (r: seq<bool>)
    ensures |r| == |s|
  {
    XorBits(s, ShiftRight(s, n))
  }

  /** x ^ x >> n ^ x >> 2n and so on, as long as there are bits. */
  function Unshift(s: seq<bool>, n: nat): (r: seq<bool>)
    requires n > 0
    ensures |r| == |s| && forall i :: 0 <= i < |s| ==> r[i] == Parity(s, i, n)
  {
    seq(|s|, i requires 0 <= i => Parity(s, i, n))
  }

  lemma {:induction false} ParityOfShift(s: seq<bool>, i: nat, n: nat)
    requires n > 0
    ensures Parity(XorShift(s, n), i, n) == BitAt(s, i)
    decreases |s| - i
  {
    if i < |s| {
      ParityOfShift(s, i + n, n);
    }
  }

  /** For every word size and every shift the two undo each other. */
  lemma XorShiftInverse(s: seq<bool>, n: nat)
    requires n > 0
    ensures Unshift(XorShift(s, n), n) == s && XorShift(Unshift(s, n), n) == s
  {
    forall i | 0 <= i < |s|
      ensures Unshift(XorShift(s, n), n)[i] == s[i] && XorShift(Unshift(s, n), n)[i] == s[i]
    {
      ParityOfShift(s, i, n);
      assert BitAt(Unshift(s, n), i + n) == Parity(s, i + n, n);
    }
  }

  /** The source writes the shifts out; a list of them, from the last to the first. */
  function XorAll(s: seq<bool>, shifts: seq<nat>): (r: seq<bool>)
    ensures |r| == |s|
  {
    if shifts == [] then s else XorBits(XorAll(s, shifts[..|shifts| - 1]), ShiftRight(s, shifts[|shifts| - 1]))
  }

  function Multiples(n: nat, k: nat): (r: seq<nat>)
    ensures |r| == k && forall i :: 0 <= i < k ==> r[i] == (i + 1) * n
  {
    seq(k, i requires 0 <= i => (i + 1) * n)
  }

  /** The parity of the first k + 1 of those bits. */
  predicate ParityUpTo(s: seq<bool>, i: nat, n: nat, k: nat) {
    if k == 0 then BitAt(s, i) else ParityUpTo(s, i, n, k - 1) != BitAt(s, i + k * n)
  }

  lemma {:induction false} XorAllBits(s: seq<bool>, n: nat, k: nat, i: nat)
    requires i < |s|
    ensures XorAll(s, Multiples(n, k))[i] == ParityUpTo(s, i, n, k)
  {
    if k > 0 {
      XorAllBits(s, n, k - 1, i);
      assert Multiples(n, k)[..k - 1] == Multiples(n, k - 1);
    }
  }

  lemma {:induction false} ParitySplit(s: seq<bool>, i: nat, n: nat, k: nat)
    requires n > 0
    ensures Parity(s, i, n) == (ParityUpTo(s, i, n, k) != Parity(s, i + (k + 1) * n, n))
  {
    if k > 0 {
      ParitySplit(s, i, n, k - 1);
      assert i + (k + 1) * n == i + k * n + n;
    } else {
      assert i + (k + 1) * n == i + n;
    }
  }

  /** Enough multiples of the shift are all of them. */
  lemma XorAllIsUnshift(s: seq<bool>, n: nat, k: nat)
    requires n > 0 && (k + 1) * n >= |s|
    ensures XorAll(s, Multiples(n, k)) == Unshift(s, n)
  {
    forall i | 0 <= i < |s|
      ensures XorAll(s, Multiples(n, k))[i] == Unshift(s, n)[i]
    {
      XorAllBits(s, n, k, i);
      ParitySplit(s, i, n, k);
    }
  }

  /** x ^ (x >> n) and x ^ (x >> n) ^ (x >> 2n) ^ ... on words of w bits. */
  function Xs(x: nat, n: nat, w: nat): nat {
    Val(XorShift(Bits(x, w), n))
  }

  function Ux(x: nat, shifts: seq<nat>, w: nat): nat {
    Val(XorAll(Bits(x, w), shifts))
  }

  lemma WordInverse(x: nat, n: nat, shifts: seq<nat>, w: nat)
    requires x < Pow(2, w) && n > 0 && shifts == Multiples(n, |shifts|) && (|shifts| + 1) * n >= w
    ensures Xs(x, n, w) < Pow(2, w) && Ux(x, shifts, w) < Pow(2, w)
    ensures Ux(Xs(x, n, w), shifts, w) == x && Xs(Ux(x, shifts, w), n, w) == x
  {
    var s, k := Bits(x, w), |shifts|;
    ValBits(x, w);
    XorAllIsUnshift(s, n, k);
    XorAllIsUnshift(XorShift(s, n), n, k);
    XorShiftInverse(s, n);
    BitsVal(XorShift(s, n));
    BitsVal(Unshift(s, n));
  }

  /** Adding multiples of the modulus changes nothing. */
  lemma ModShift(r: int, q: int, m: nat)
    requires 0 <= r < m
    ensures (r + q * m) % m == r
  {
    var x := r + q * m;
    var d, e := x / m, x % m;
    assert x == d * m + e;
    assert (d - q) * m == r - e;
    Between(d - q, m, r - e);
  }

  lemma Between(k: int, m: nat, d: int)
    requires k * m == d && 0 - m < d < m
    ensures d == 0
  {
    if k > 0 {
      MulLe(1, k, m);
    } else if k < 0 {
      MulLe(1, -k, m);
    }
  }

  /** A factor and its inverse modulo m. */
  lemma ModInverse(x: nat, a: nat, b: nat, m: nat)
    requires x < m && a * b % m == 1
    ensures (x * a % m) * b % m == x
  {
    var p := x * a;
    var q, r := p / m, p % m;
    Division(p, m, q, r);
    var t := a * b / m;
    Division(a * b, m, t, 1);
    Rearranged(x, a, b, m, q, r, t);
    ModShift(x, x * t - q * b, m);
  }

  lemma Rearranged(x: nat, a: nat, b: nat, m: nat, q: nat, r: nat, t: nat)
    requires x * a == q * m + r && a * b == t * m + 1
    ensures r * b == x + (x * t - q * b) * m
  {
    assert (x * a) * b == x * (a * b);
    assert (q * m + r) * b == (q * b) * m + r * b;
    assert x * (t * m + 1) == (x * t) * m + x;
    assert (x * t - q * b) * m == (x * t) * m - (q * b) * m;
  }

  /** Equal numbers modulo m have equal remainders. */
  lemma SameRemainder(x: int, y: int, q: int, m: nat)
    requires m > 0 && x == y + q * m
    ensures x % m == y % m
  {
    var r := y % m;
    assert y == (y / m) * m + r;
    assert (y / m) * m + q * m == (y / m + q) * m;
    ModShift(r, y / m + q, m);
  }

  const M64: nat := 0x1_0000_0000_0000_0000
  const M32: nat := 0x1_0000_0000

  lemma WordSizes()
    ensures Pow(2, 64) == M64 && Pow(2, 32) == M32
  {
    assert Pow(2, 8) == 256;
    hide Pow;
    PowAdd(2, 8, 8);
    assert Pow(2, 16) == 0x1_0000;
    PowAdd(2, 16, 16);
    PowAdd(2, 32, 32);
  }

  /** key * c in a word, and key + (key << a) + (key << b), which is such a product. */
  function Times(x: nat, c: nat, m: nat): (r: nat)
    requires m > 0
    ensures r < m
  {
    x * c % m
  }

  function Sum(x: nat, a: nat, b: nat, m: nat): nat
    requires m > 0
  {
    (x + x * a % m + x * b % m) % m
  }

  lemma SumIsTimes(x: nat, a: nat, b: nat, m: nat)
    requires m > 0
    ensures Sum(x, a, b, m) == Times(x, 1 + a + b, m)
  {
    var p, q := x * a, x * b;
    Division(p, m, p / m, p % m);
    Division(q, m, q / m, q % m);
    assert x * (1 + a + b) == x + p + q;
    assert (p / m + q / m) * m == (p / m) * m + (q / m) * m;
    SameRemainder(x + p + q, x + p % m + q % m, p / m + q / m, m);
  }

  lemma TimesInverse(x: nat, a: nat, b: nat, m: nat)
    requires x < m && a * b % m == 1
    ensures Times(Times(x, a, m), b, m) == x && Times(Times(x, b, m), a, m) == x
  {
    ModInverse(x, a, b, m);
    assert b * a == a * b;
    ModInverse(x, b, a, m);
  }

  /** ~key + (key << 21), and what undoes it. */
  function First(x: nat): (r: nat)
    requires x < M64
    ensures r < M64
  {
    (M64 - 1 - x + x * 0x20_0000 % M64) % M64
  }

  function Unfirst(y: nat): (r: nat)
    ensures r < M64
  {
    Times((y + 1) % M64, 9223367638806167551, M64)
  }

  lemma FirstInverse(x: nat)
    requires x < M64
    ensures Unfirst(First(x)) == x && First(Unfirst(x)) == x
  {
    FirstIs(x);
    TimesInverse(x, 0x1F_FFFF, 9223367638806167551, M64);
    var z := (x + 1) % M64;
    TimesInverse(z, 0x1F_FFFF, 9223367638806167551, M64);
    FirstIs(Unfirst(x));
  }

  lemma FirstIs(x: nat)
    requires x < M64
    ensures (First(x) + 1) % M64 == Times(x, 0x1F_FFFF, M64)
    ensures First(x) == if Times(x, 0x1F_FFFF, M64) == 0 then M64 - 1 else Times(x, 0x1F_FFFF, M64) - 1
  {
    var p := x * 0x20_0000;
    var q, t := p / M64, p % M64;
    var d := if t >= x then t - x else t - x + M64;
    Wrapped(x * 0x1F_FFFF, if t >= x then q else q - 1, d);
    Wrapped(M64 - 1 - x + t, if t > x then 1 else 0, if t > x then t - x - 1 else M64 - 1 - x + t);
  }

  lemma Wrapped(y: nat, q: int, r: nat)
    requires y == q * M64 + r && r < M64
    ensures y % M64 == r
  {}

  function TwangMix64(key: nat): nat
    requires key < M64
  {
    var a := Xs(First(key), 24, 64);
    var b := Xs(Sum(a, 8, 256, M64), 14, 64);
    var c := Xs(Sum(b, 4, 16, M64), 28, 64);
    Sum(c, 0x8000_0000, 0, M64)
  }

  function TwangUnmix64(key: nat): nat {
    var c := Ux(Times(key, 4611686016279904257, M64), [28, 56], 64);
    var b := Ux(Times(c, 14933078535860113213, M64), [14, 28, 42, 56], 64);
    var a := Ux(Times(b, 15244667743933553977, M64), [24, 48], 64);
    Unfirst(a)
  }

  lemma Shifts64(x: nat)
    requires x < M64
    ensures Xs(x, 24, 64) < M64 && Ux(x, [24, 48], 64) < M64
    ensures Ux(Xs(x, 24, 64), [24, 48], 64) == x && Xs(Ux(x, [24, 48], 64), 24, 64) == x
    ensures Xs(x, 14, 64) < M64 && Ux(x, [14, 28, 42, 56], 64) < M64
    ensures Ux(Xs(x, 14, 64), [14, 28, 42, 56], 64) == x && Xs(Ux(x, [14, 28, 42, 56], 64), 14, 64) == x
    ensures Xs(x, 28, 64) < M64 && Ux(x, [28, 56], 64) < M64
    ensures Ux(Xs(x, 28, 64), [28, 56], 64) == x && Xs(Ux(x, [28, 56], 64), 28, 64) == x
  {
    WordSizes();
    hide Xs, Ux, Pow;
    WordInverse(x, 24, [24, 48], 64);
    WordInverse(x, 14, [14, 28, 42, 56], 64);
    WordInverse(x, 28, [28, 56], 64);
  }

  /** The two undo each other, so both are bijections of the 64-bit words. */
  lemma TwangInverse(key: nat)
    requires key < M64
    ensures TwangUnmix64(TwangMix64(key)) == key && TwangMix64(TwangUnmix64(key)) == key
  {
    hide Xs, Ux, First, Unfirst, Times, Sum;
    MixThenUnmix(key);
    UnmixThenMix(key);
  }

  lemma MixThenUnmix(key: nat)
    requires key < M64
    ensures TwangUnmix64(TwangMix64(key)) == key
  {
    hide Xs, Ux, First, Unfirst, Times, Sum;
    var a := Xs(First(key), 24, 64);
    FirstInverse(key);
    Shifts64(First(key));
    SumIsTimes(a, 8, 256, M64);
    TimesInverse(a, 265, 15244667743933553977, M64);
    Shifts64(Times(a, 265, M64));
    var b := Xs(Times(a, 265, M64), 14, 64);
    SumIsTimes(b, 4, 16, M64);
    TimesInverse(b, 21, 14933078535860113213, M64);
    Shifts64(Times(b, 21, M64));
    var c := Xs(Times(b, 21, M64), 28, 64);
    SumIsTimes(c, 0x8000_0000, 0, M64);
    TimesInverse(c, 0x8000_0001, 4611686016279904257, M64);
  }

  lemma UnmixThenMix(key: nat)
    requires key < M64
    ensures TwangMix64(TwangUnmix64(key)) == key
  {
    hide Xs, Ux, First, Unfirst, Times, Sum;
    var x := Times(key, 4611686016279904257, M64);
    TimesInverse(key, 0x8000_0001, 4611686016279904257, M64);
    SumIsTimes(x, 0x8000_0000, 0, M64);
    Shifts64(x);
    var c := Ux(x, [28, 56], 64);
    var y := Times(c, 14933078535860113213, M64);
    TimesInverse(c, 21, 14933078535860113213, M64);
    SumIsTimes(y, 4, 16, M64);
    Shifts64(y);
    var b := Ux(y, [14, 28, 42, 56], 64);
    var z := Times(b, 15244667743933553977, M64);
    TimesInverse(b, 265, 15244667743933553977, M64);
    SumIsTimes(z, 8, 256, M64);
    Shifts64(z);
    FirstInverse(Ux(z, [24, 48], 64));
  }

  const BY_TWO: seq<nat> := [2, 4, 6, 8, 10, 12, 14, 16, 18, 20, 22, 24, 26, 28, 30]

  function JenkinsRevMix32(key: nat): nat {
    var a := Xs(Sum(key, 4096, 0, M32), 22, 32);
    var b := Xs(Sum(a, 16, 0, M32), 9, 32);
    var c := Xs(Sum(b, 1024, 0, M32), 2, 32);
    Sum(Sum(c, 128, 0, M32), 4096, 0, M32)
  }

  function JenkinsRevUnmix32(key: nat): nat {
    var c := Ux(Times(key, 2364026753, M32), BY_TWO, 32);
    var b := Ux(Times(c, 3222273025, M32), [9, 18, 27], 32);
    var a := Ux(Times(b, 4042322161, M32), [22], 32);
    Times(a, 16773121, M32)
  }

  lemma Shifts32(x: nat)
    requires x < M32
    ensures Xs(x, 22, 32) < M32 && Ux(x, [22], 32) < M32
    ensures Ux(Xs(x, 22, 32), [22], 32) == x && Xs(Ux(x, [22], 32), 22, 32) == x
    ensures Xs(x, 9, 32) < M32 && Ux(x, [9, 18, 27], 32) < M32
    ensures Ux(Xs(x, 9, 32), [9, 18, 27], 32) == x && Xs(Ux(x, [9, 18, 27], 32), 9, 32) == x
    ensures Xs(x, 2, 32) < M32 && Ux(x, BY_TWO, 32) < M32
    ensures Ux(Xs(x, 2, 32), BY_TWO, 32) == x && Xs(Ux(x, BY_TWO, 32), 2, 32) == x
  {
    WordSizes();
    hide Xs, Ux, Pow;
    WordInverse(x, 22, [22], 32);
    WordInverse(x, 9, [9, 18, 27], 32);
    assert BY_TWO == Multiples(2, 15);
    WordInverse(x, 2, BY_TWO, 32);
  }

  /** Two odd factors in a row and the inverse of their product. */
  lemma TwoFactors(x: nat)
    requires x < M32
    ensures Times(Times(Times(x, 129, M32), 4097, M32), 2364026753, M32) == x
    ensures Times(Times(Times(x, 2364026753, M32), 129, M32), 4097, M32) == x
  {
    hide Times;
    FactorsJoin(x, 129, 4097, M32);
    FactorsJoin(Times(x, 2364026753, M32), 129, 4097, M32);
    TimesInverse(x, 129 * 4097, 2364026753, M32);
  }

  lemma FactorsJoin(x: nat, a: nat, b: nat, m: nat)
    requires m > 0
    ensures Times(Times(x, a, m), b, m) == Times(x, a * b, m)
  {
    var p := x * a;
    Division(p, m, p / m, p % m);
    MulAssoc(x, a, b);
    assert ((p / m) * m + p % m) * b == ((p / m) * b) * m + (p % m) * b;
    SameRemainder(x * (a * b), (p % m) * b, (p / m) * b, m);
  }

  lemma JenkinsInverse(key: nat)
    requires key < M32
    ensures JenkinsRevUnmix32(JenkinsRevMix32(key)) == key && JenkinsRevMix32(JenkinsRevUnmix32(key)) == key
  {
    hide Xs, Ux, Times, Sum;
    JenkinsForth(key);
    JenkinsBack(key);
  }

  lemma JenkinsForth(key: nat)
    requires key < M32
    ensures JenkinsRevUnmix32(JenkinsRevMix32(key)) == key
  {
    hide Xs, Ux, Times, Sum, BY_TWO;
    SumIsTimes(key, 4096, 0, M32);
    TimesInverse(key, 4097, 16773121, M32);
    Shifts32(Times(key, 4097, M32));
    var a := Xs(Times(key, 4097, M32), 22, 32);
    SumIsTimes(a, 16, 0, M32);
    TimesInverse(a, 17, 4042322161, M32);
    Shifts32(Times(a, 17, M32));
    var b := Xs(Times(a, 17, M32), 9, 32);
    SumIsTimes(b, 1024, 0, M32);
    TimesInverse(b, 1025, 3222273025, M32);
    Shifts32(Times(b, 1025, M32));
    var c := Xs(Times(b, 1025, M32), 2, 32);
    SumIsTimes(c, 128, 0, M32);
    SumIsTimes(Times(c, 129, M32), 4096, 0, M32);
    TwoFactors(c);
  }

  lemma JenkinsBack(key: nat)
    requires key < M32
    ensures JenkinsRevMix32(JenkinsRevUnmix32(key)) == key
  {
    hide Xs, Ux, Times, Sum, BY_TWO;
    var x := Times(key, 2364026753, M32);
    TwoFactors(key);
    SumIsTimes(x, 128, 0, M32);
    SumIsTimes(Times(x, 129, M32), 4096, 0, M32);
    Shifts32(x);
    var c := Ux(x, BY_TWO, 32);
    var y := Times(c, 3222273025, M32);
    TimesInverse(c, 1025, 3222273025, M32);
    SumIsTimes(y, 1024, 0, M32);
    Shifts32(y);
    var b := Ux(y, [9, 18, 27], 32);
    var z := Times(b, 4042322161, M32);
    TimesInverse(b, 17, 4042322161, M32);
    SumIsTimes(z, 16, 0, M32);
    Shifts32(z);
    var a := Ux(z, [22], 32);
    TimesInverse(a, 4097, 16773121, M32);
    SumIsTimes(Times(a, 16773121, M32), 4096, 0, M32);
  }
}
