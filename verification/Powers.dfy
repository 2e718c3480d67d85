/** Natural powers and the few non-linear facts the number modules share. */
module Powers {

  function Pow(b: nat, e: nat): (p: nat)
    ensures b > 0 ==> p > 0
  {
    if e == 0 then 1 else b * Pow(b, e - 1)
  }

  lemma {:induction false} PowAdd(b: nat, m: nat, n: nat)
    ensures Pow(b, m + n) == Pow(b, m) * Pow(b, n)
  {
    if m > 0 {
      PowAdd(b, m - 1, n);
      var p, q := Pow(b, m - 1), Pow(b, n);
      assert Pow(b, m + n) == b * Pow(b, m - 1 + n);
      assert b * (p * q) == (b * p) * q;
    }
  }

  lemma {:induction false} PowMonotone(b: nat, m: nat, n: nat)
    requires b > 0 && m <= n
    ensures Pow(b, m) <= Pow(b, n)
  {
    PowAdd(b, m, n - m);
    MulLe(1, Pow(b, n - m), Pow(b, m));
  }

  lemma {:induction false} PowProduct(a: nat, b: nat, e: nat)
    ensures Pow(a * b, e) == Pow(a, e) * Pow(b, e)
  {
    if e > 0 {
      PowProduct(a, b, e - 1);
      MulSwap(a, b, Pow(a, e - 1), Pow(b, e - 1));
    }
  }

  lemma MulSwap(a: int, b: int, p: int, q: int)
    ensures (a * b) * (p * q) == (a * p) * (b * q)
  {
    MulAssoc(a, b, p * q);
    MulAssoc(b, p, q);
    MulAssoc(p, b, q);
    MulAssoc(a, p, b * q);
  }

  lemma MulAssoc(a: int, b: int, c: int)
    ensures (a * b) * c == a * (b * c)
  {}

  lemma {:induction false} PowPower(b: nat, m: nat, n: nat)
    ensures Pow(Pow(b, m), n) == Pow(b, m * n)
  {
    if n == 0 {
      assert m * n == 0;
    } else {
      PowPower(b, m, n - 1);
      assert m * n == m + m * (n - 1);
      PowAdd(b, m, m * (n - 1));
    }
  }

  lemma {:induction false} PowBase(b: nat, c: nat, e: nat)
    requires b < c
    ensures Pow(b, e) <= Pow(c, e)
    ensures e > 0 ==> Pow(b, e) < Pow(c, e)
  {
    if e > 0 {
      PowBase(b, c, e - 1);
      MulLe(Pow(b, e - 1), Pow(c, e - 1), b);
      MulLt(b, c, Pow(c, e - 1));
    }
  }

  lemma MulLe(x: nat, y: nat, k: nat)
    requires x <= y
    ensures x * k <= y * k
  {
    assert (y - x) * k >= 0;
  }

  lemma MulLt(x: nat, y: nat, k: nat)
    requires x < y && k > 0
    ensures x * k < y * k
  {
    MulLe(x + 1, y, k);
  }

  /** What quotient and remainder mean. */
  lemma Division(x: nat, p: nat, q: nat, r: nat)
    requires p > 0 && q == x / p && r == x % p
    ensures x == q * p + r && r < p
  {}

  /** They are determined by that. */
  lemma Quotient(x: nat, p: nat, q: nat, r: nat)
    requires x == q * p + r && r < p
    ensures x / p == q && x % p == r
  {
    var d := x / p;
    Division(x, p, d, x % p);
    if d < q {
      MulLe(d + 1, q, p);
    } else if q < d {
      MulLe(q + 1, d, p);
    }
  }
}
