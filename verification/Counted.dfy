/** A fixed number of digits, rounded half up: the counted and fixed modes. */
module Counted {
  import opened Powers
  import opened Decimal
  import opened DigitBuffer

  /** a/b rounded to the nearest integer, halves upwards. */
  function HalfUp(a: nat, b: nat): nat
    requires b > 0
  {
    (2 * a + b) / (2 * b)
  }

  lemma HalfUpIs(a: nat, b: nat, q: nat, r: nat)
    requires b > 0 && a == q * b + r && r < b
    ensures HalfUp(a, b) == if 2 * r >= b then q + 1 else q
  {
    var k, c := if 2 * r >= b then q + 1 else q, 2 * b;
    assert 2 * a + b == c * q + (2 * r + b);
    if 2 * r >= b {
      assert c * (q + 1) == c * q + c;
    }
    Quotient(2 * a + b, c, k, 2 * a + b - c * k);
  }

  /** Overwriting one digit moves the number by that digit's weight. */
  lemma {:induction false} DecUpdate(s: seq<int>, i: nat, d: int)
    requires i < |s|
    ensures Dec(s[i := d]) == Dec(s) + (d - s[i]) * Pow(10, |s| - 1 - i)
  {
    var n := |s| - 1;
    if i == n {
      assert s[i := d][..n] == s[..n];
    } else {
      DecUpdate(s[..n], i, d);
      assert s[i := d][..n] == s[..n][i := d];
      TenTimes(d - s[i], Pow(10, n - 1 - i));
    }
  }

  /** Moving ten units of one place to one unit of the place before. */
  lemma CarryOne(s: seq<int>, i: nat)
    requires 0 < i < |s| && s[i] == 10
    ensures Dec(s[i := 0][i - 1 := s[i - 1] + 1]) == Dec(s)
  {
    DecUpdate(s, i, 0);
    DecUpdate(s[i := 0], i - 1, s[i - 1] + 1);
  }

  /** Digits up to place i may still hold a ten there; what follows a carry is zero. */
  ghost predicate Carrying(s: seq<int>, i: nat) {
    && i < |s| && (forall k :: 0 <= k < |s| && k != i ==> 0 <= s[k] <= 9) && 0 <= s[i] <= 10
    && (s[i] == 10 ==> forall k :: i < k < |s| ==> s[k] == 0)
  }

  lemma {:induction false} DecZeros(s: seq<int>)
    requires s != [] && (forall k :: 0 < k < |s| ==> s[k] == 0)
    ensures Dec(s) == s[0] * Pow(10, |s| - 1)
  {
    if |s| > 1 {
      DecZeros(s[..|s| - 1]);
      TenTimes(s[0], Pow(10, |s| - 2));
    }
  }

  /**
   * The carry of a last digit that reached ten: digits become 0..9 again, or,
   * when the carry leaves the top, 1 followed by zeros with the point moved.
   */
  method PropagateCarry(buffer: array<int>, length: nat, point: int) returns (newPoint: int)
    requires 0 < length <= buffer.Length && Carrying(buffer[..length], length - 1)
    modifies buffer
    ensures buffer[length..] == old(buffer[length..])
    ensures DecimalDigits(buffer[..length])
    ensures newPoint == point ==> Dec(buffer[..length]) == old(Dec(buffer[..length])) < Pow(10, length)
    ensures newPoint != point ==> newPoint == point + 1 && Dec(buffer[..length]) == Pow(10, length - 1)
                                  && old(Dec(buffer[..length])) == Pow(10, length)
    ensures old(buffer[0]) > 0 ==> buffer[0] > 0
  {
    newPoint := point;
    var i := length - 1;
    while i > 0 && buffer[i] == 10
      invariant 0 <= i < length && Carrying(buffer[..length], i)
      invariant Dec(buffer[..length]) == old(Dec(buffer[..length])) && buffer[length..] == old(buffer[length..])
      invariant buffer[0] >= old(buffer[0])
    {
      CarryStep(buffer, length, i);
      i := i - 1;
    }
    if buffer[0] == 10 {
      DecZeros(buffer[..length]);
      buffer[0] := 1;
      DecZeros(buffer[..length]);
      newPoint := point + 1;
    } else {
      DecBounds(buffer[..length]);
    }
  }

  method CarryStep(buffer: array<int>, length: nat, i: nat)
    requires 0 < i < length <= buffer.Length && Carrying(buffer[..length], i) && buffer[i] == 10
    modifies buffer
    ensures Carrying(buffer[..length], i - 1) && Dec(buffer[..length]) == old(Dec(buffer[..length]))
    ensures buffer[length..] == old(buffer[length..]) && buffer[0] >= old(buffer[0])
  {
    ghost var s := buffer[..length];
    CarryOne(s, i);
    buffer[i] := 0;
    buffer[i - 1] := buffer[i - 1] + 1;
    assert buffer[..length] == s[i := 0][i - 1 := s[i - 1] + 1];
  }

  /** The digits v of num0/den and what is left of it, ten times scaled. */
  ghost predicate Counting(num0: nat, den: nat, t: nat, v: int, num: nat) {
    den > 0 && num < 10 * den && num + 10 * v * den == num0 * t
  }

  lemma CountStep(num0: nat, den: nat, t: nat, v: int, num: nat, digit: nat, r: nat)
    requires Counting(num0, den, t, v, num) && digit == num / den && r == num % den
    ensures digit <= 9 && r < den && num0 * t == (10 * v + digit) * den + r
    ensures Counting(num0, den, 10 * t, 10 * v + digit, 10 * r)
  {
    Division(num, den, digit, r);
    if digit > 9 {
      MulLe(10, digit, den);
    }
    assert (10 * v + digit) * den == 10 * v * den + digit * den;
    TenTimes(num0, t);
    TenTimes(10 * v + digit, den);
  }

  method LeadingDigits(count: nat, num0: nat, den: nat, buffer: array<int>) returns (num: nat)
    requires count <= buffer.Length && den > 0 && num0 < 10 * den
    modifies buffer
    ensures DecimalDigits(buffer[..count]) && Dec(buffer[..count]) >= 0
    ensures Counting(num0, den, Pow(10, count), Dec(buffer[..count]), num)
    ensures num0 >= den && count > 0 ==> buffer[0] > 0
    ensures count == 0 ==> num == num0
  {
    num := num0;
    for i := 0 to count
      invariant DecimalDigits(buffer[..i]) && Counting(num0, den, Pow(10, i), Dec(buffer[..i]), num)
      invariant if i == 0 then num == num0 else num0 >= den ==> buffer[0] > 0
    {
      var digit, r := DivideModulo(num, den);
      CountStep(num0, den, Pow(10, i), Dec(buffer[..i]), num, digit, r);
      if i == 0 && num0 >= den {
        AtLeastOne(num0, den, digit, r);
      }
      Emit(buffer, i, digit);
      num := 10 * r;
    }
    DecBounds(buffer[..count]);
  }

  lemma AtLeastOne(x: nat, d: nat, q: nat, r: nat)
    requires d > 0 && x >= d && q == x / d && r == x % d
    ensures q >= 1
  {
    Division(x, d, q, r);
    assert q == 0 ==> q * d == 0;
  }

  /** count digits of num/den rounded half up, the point moving when a carry leaves the top. */
  ghost predicate CountedFor(num: nat, den: nat, count: nat, point: int, digits: seq<int>, newPoint: int) {
    && den > 0 && count > 0 && |digits| == count && DecimalDigits(digits)
    && (newPoint == point || newPoint == point + 1)
    && HalfUp(num * Pow(10, count - 1), den) == Dec(digits) * (if newPoint == point then 1 else 10)
  }

  method GenerateCountedDigits(count: nat, point: int, num0: nat, den: nat, buffer: array<int>)
    returns (length: nat, newPoint: int)
    requires 0 < count <= buffer.Length && den > 0 && num0 < 10 * den
    modifies buffer
    ensures length == count && CountedFor(num0, den, count, point, buffer[..count], newPoint)
    ensures num0 >= den ==> buffer[0] > 0
  {
    hide HalfUp, Dec, Counting;
    var num := LeadingDigits(count - 1, num0, den, buffer);
    var digit := LastDigit(num0, den, Pow(10, count - 1), Dec(buffer[..count - 1]), num);
    Emit(buffer, count - 1, digit);
    newPoint := PropagateCarry(buffer, count, point);
    length := count;
  }

  method LastDigit(ghost num0: nat, den: nat, ghost t: nat, ghost v: int, num: nat) returns (digit: nat)
    requires Counting(num0, den, t, v, num) && v >= 0
    ensures digit <= 10 && HalfUp(num0 * t, den) == 10 * v + digit
    ensures num >= den ==> digit > 0
  {
    var r;
    digit, r := DivideModulo(num, den);
    CountStep(num0, den, t, v, num, digit, r);
    HalfUpIs(num0 * t, den, 10 * v + digit, r);
    if num >= den {
      AtLeastOne(num, den, digit, r);
    }
    if r + r >= den {
      digit := digit + 1;
    }
  }
}
