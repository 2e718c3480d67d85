/** The columns of a product of two digit vectors. */
module Convolution {
  import opened Powers
  import opened Bigits

  /** The digit at place j, zero outside the vector. */
  function At(t: seq<nat>, j: int): nat {
    if 0 <= j < |t| then t[j] else 0
  }

  /** Column k of s * t: the sum of all s[i] * t[j] with i + j == k. */
  function Column(s: seq<nat>, t: seq<nat>, k: int): nat {
    if s == [] then 0 else s[0] * At(t, k) + Column(s[1..], t, k - 1)
  }

  /** The part of column k that comes from the first j digits of s. */
  function Partial(s: seq<nat>, t: seq<nat>, k: int, j: nat): nat
    requires j <= |s|
  {
    if j == 0 then 0 else Partial(s, t, k, j - 1) + s[j - 1] * At(t, k - (j - 1))
  }

  function Columns(s: seq<nat>, t: seq<nat>, n: nat): (cols: seq<nat>)
    ensures |cols| == n
    ensures forall k :: 0 <= k < n ==> cols[k] == Column(s, t, k)
  {
    seq(n, k => Column(s, t, k))
  }

  lemma {:induction false} PartialTail(s: seq<nat>, t: seq<nat>, k: int, j: nat)
    requires 0 < j <= |s|
    ensures Partial(s, t, k, j) == s[0] * At(t, k) + Partial(s[1..], t, k - 1, j - 1)
  {
    if j > 1 {
      PartialTail(s, t, k, j - 1);
    }
  }

  lemma {:induction false} PartialIsColumn(s: seq<nat>, t: seq<nat>, k: int)
    ensures Partial(s, t, k, |s|) == Column(s, t, k)
  {
    if s != [] {
      PartialTail(s, t, k, |s|);
      PartialIsColumn(s[1..], t, k - 1);
    }
  }

  /** Digits of s that meet no digit of t add nothing. */
  lemma {:induction false} PartialIdle(s: seq<nat>, t: seq<nat>, k: int, i: nat, j: nat)
    requires i <= j <= |s|
    requires i < j ==> k < i || k - (j - 1) >= |t|
    ensures Partial(s, t, k, j) == Partial(s, t, k, i)
  {
    if i < j {
      PartialIdle(s, t, k, i, j - 1);
    }
  }

  lemma {:induction false} PartialBound(s: seq<nat>, t: seq<nat>, k: int, j: nat)
    requires j <= |s| && Digits(s) && Digits(t)
    ensures Partial(s, t, k, j) <= j * 0xFF_FFFF_E000_0001
  {
    if j > 0 {
      PartialBound(s, t, k, j - 1);
      var x, y := s[j - 1], At(t, k - (j - 1));
      MulLe(x, 0x0FFF_FFFF, y);
    }
  }

  /** The columns are the first digit's row plus the columns of the rest, one place up. */
  lemma ColumnsRow(s: seq<nat>, t: seq<nat>, n: nat)
    requires s != [] && |t| <= n && n > 0
    ensures Columns(s, t, n) == Sums(Scaled(Placed(t, 0, n), s[0]), [0] + Columns(s[1..], t, n - 1))
  {
    var row, rest := Scaled(Placed(t, 0, n), s[0]), [0] + Columns(s[1..], t, n - 1);
    forall k | 0 <= k < n ensures Columns(s, t, n)[k] == Sums(row, rest)[k] {
      SumsAt(row, rest, k);
      ScaledAt(Placed(t, 0, n), s[0], k);
      assert Placed(t, 0, n)[k] == At(t, k);
      if k == 0 {
        ColumnBefore(s[1..], t, -1);
      }
    }
  }

  lemma {:induction false} ColumnsValue(s: seq<nat>, t: seq<nat>, n: nat)
    requires |s| + |t| <= n
    ensures Val(Columns(s, t, n)) == Val(s) * Val(t)
  {
    if s == [] {
      ValZeros(Columns(s, t, n));
    } else {
      ColumnsValue(s[1..], t, n - 1);
      ColumnsRow(s, t, n);
      RowValue(s[0], t, Columns(s[1..], t, n - 1), n);
      SplitProduct(s[0], Val(s[1..]), Val(t));
    }
  }

  lemma RowValue(d: nat, t: seq<nat>, cols: seq<nat>, n: nat)
    requires |t| <= n == |cols| + 1
    ensures Val(Sums(Scaled(Placed(t, 0, n), d), [0] + cols)) == d * Val(t) + 0x1000_0000 * Val(cols)
  {
    SumsValue(Scaled(Placed(t, 0, n), d), [0] + cols);
    ScaledPlaced(d, t, n);
    assert ([0] + cols)[1..] == cols;
  }

  lemma ScaledPlaced(d: nat, t: seq<nat>, n: nat)
    requires |t| <= n
    ensures Val(Scaled(Placed(t, 0, n), d)) == d * Val(t)
  {
    ScaledValue(Placed(t, 0, n), d);
    UnmovedValue(t, n);
  }

  lemma UnmovedValue(t: seq<nat>, n: nat)
    requires |t| <= n
    ensures Val(Placed(t, 0, n)) == Val(t)
  {
    PlacedValue(t, 0, n);
  }

  lemma SplitProduct(d: nat, v: nat, w: nat)
    ensures (d + 0x1000_0000 * v) * w == d * w + 0x1000_0000 * (v * w)
  {}

  lemma {:induction false} ColumnBefore(s: seq<nat>, t: seq<nat>, k: int)
    requires k < 0
    ensures Column(s, t, k) == 0
  {
    if s != [] {
      ColumnBefore(s[1..], t, k - 1);
    }
  }
}
