/**
 * The digit generators of bignum-dtoa, on the numbers their Bignum arguments
 * stand for: shortest digits that still identify a floating-point number.
 */
module Shortest {
  import opened Powers
  import opened Decimal
  import opened DigitBuffer

  /**
   * A number n/d with its rounding interval from (n - minus)/d to (n + plus)/d;
   * the ends belong to the interval only when the significand is even.
   */
  datatype Scaled = Scaled(n: nat, d: nat, minus: nat, plus: nat, even: bool)

  /** After FixupMultiply10: 1 <= (n + plus)/d < 10, an end outside the interval may be reached. */
  ghost predicate InRange(z: Scaled) {
    && z.d > 0 && 0 < z.minus < z.n && z.plus > 0
    && (if z.even then z.d <= z.n + z.plus < 10 * z.d else z.d < z.n + z.plus <= 10 * z.d)
  }

  /** w/t lies in the rounding interval. */
  ghost predicate Inside(z: Scaled, t: nat, w: int) {
    if z.even then z.n * t - z.minus * t <= w * z.d <= z.n * t + z.plus * t
    else z.n * t - z.minus * t < w * z.d < z.n * t + z.plus * t
  }

  function Abs(x: int): nat {
    if x < 0 then -x else x
  }

  /** How far w/t is from n/d, in units of 1/(t * d). */
  ghost function Distance(z: Scaled, t: nat, w: int): nat {
    Abs(w * z.d - z.n * t)
  }

  /** No multiple of 1/10^j lies in the interval for any j below k. */
  ghost predicate NoneShorter(z: Scaled, k: nat) {
    forall j: nat, w: int :: j < k ==> !Inside(z, Pow(10, j), w)
  }

  /** v/10^k is in the interval, nothing coarser is, and nothing as coarse is nearer to n/d. */
  ghost predicate BestAt(z: Scaled, k: nat, v: int) {
    && Inside(z, Pow(10, k), v) && NoneShorter(z, k)
    && (forall w: int :: Inside(z, Pow(10, k), w) ==> Distance(z, Pow(10, k), v) <= Distance(z, Pow(10, k), w))
    && (forall w: int | Inside(z, Pow(10, k), w) && w != v ::
          Distance(z, Pow(10, k), w) == Distance(z, Pow(10, k), v) ==> v % 2 == 0)
  }

  /** What the remainder r after the digits v tells about the interval at scale t. */
  ghost predicate Remainder(z: Scaled, t: nat, v: int, r: nat, m: nat, p: nat) {
    r < z.d && v * z.d + r == z.n * t && m == z.minus * t && p == z.plus * t
  }

  predicate RoomMinus(even: bool, r: nat, m: nat) {
    if even then r <= m else r < m
  }

  predicate RoomPlus(even: bool, r: nat, p: nat, d: nat) {
    if even then r + p >= d else r + p > d
  }

  /** Every integer is at least as far from n/d as one of v and v + 1. */
  lemma Neighbours(z: Scaled, t: nat, v: int, r: nat, m: nat, p: nat, w: int)
    requires Remainder(z, t, v, r, m, p)
    ensures w <= v ==> w * z.d <= v * z.d && (w < v ==> w * z.d <= v * z.d - z.d)
    ensures w > v ==> w * z.d >= v * z.d + z.d && (w > v + 1 ==> w * z.d >= v * z.d + 2 * z.d)
  {
    if w < v {
      TimesLe(w, v - 1, z.d);
    } else if w > v + 1 {
      TimesLe(v + 2, w, z.d);
    }
  }

  lemma TimesLe(x: int, y: int, k: nat)
    requires x <= y
    ensures x * k <= y * k
  {
    assert (y - x) * k >= 0;
  }

  /** v is in the interval exactly when there is room below, v + 1 exactly when there is room above. */
  lemma RoomsExact(z: Scaled, t: nat, v: int, r: nat, m: nat, p: nat)
    requires Remainder(z, t, v, r, m, p) && m > 0 && p > 0
    ensures Inside(z, t, v) <==> RoomMinus(z.even, r, m)
    ensures Inside(z, t, v + 1) <==> RoomPlus(z.even, r, p, z.d)
    ensures Distance(z, t, v) == r && Distance(z, t, v + 1) == z.d - r
  {
    assert (v + 1) * z.d == v * z.d + z.d;
  }

  /** Without room on either side nothing at this scale is in the interval. */
  lemma NoRoom(z: Scaled, t: nat, v: int, r: nat, m: nat, p: nat, w: int)
    requires Remainder(z, t, v, r, m, p) && m > 0 && p > 0
    requires !RoomMinus(z.even, r, m) && !RoomPlus(z.even, r, p, z.d)
    ensures !Inside(z, t, w)
  {
    Neighbours(z, t, v, r, m, p, w);
  }

  /** Whether the code replaces the last digit by the next one. */
  predicate RoundsUp(even: bool, r: nat, m: nat, p: nat, d: nat, lastOdd: bool) {
    if RoomMinus(even, r, m) && RoomPlus(even, r, p, d) then
      2 * r > d || (2 * r == d && lastOdd)
    else
      !RoomMinus(even, r, m)
  }

  /** The final choice is in the interval and nearest to n/d, ties going to the even digit. */
  lemma ChoiceIsBest(z: Scaled, k: nat, v: int, r: nat, m: nat, p: nat)
    requires Remainder(z, Pow(10, k), v, r, m, p) && m > 0 && p > 0 && NoneShorter(z, k)
    requires RoomMinus(z.even, r, m) || RoomPlus(z.even, r, p, z.d)
    ensures BestAt(z, k, if RoundsUp(z.even, r, m, p, z.d, v % 2 == 1) then v + 1 else v)
  {
    var t := Pow(10, k);
    RoomsExact(z, t, v, r, m, p);
    var c := if RoundsUp(z.even, r, m, p, z.d, v % 2 == 1) then v + 1 else v;
    forall w: int | Inside(z, t, w)
      ensures Distance(z, t, c) <= Distance(z, t, w)
      ensures w != c && Distance(z, t, w) == Distance(z, t, c) ==> c % 2 == 0
    {
      ChoiceIsNearest(z, t, v, r, m, p, w);
    }
  }

  lemma ChoiceIsNearest(z: Scaled, t: nat, v: int, r: nat, m: nat, p: nat, w: int)
    requires Remainder(z, t, v, r, m, p) && m > 0 && p > 0 && Inside(z, t, w)
    requires RoomMinus(z.even, r, m) || RoomPlus(z.even, r, p, z.d)
    ensures var c := if RoundsUp(z.even, r, m, p, z.d, v % 2 == 1) then v + 1 else v;
         && Distance(z, t, c) <= Distance(z, t, w)
         && (w != c && Distance(z, t, w) == Distance(z, t, c) ==> c % 2 == 0)
  {
    RoomsExact(z, t, v, r, m, p);
    Neighbours(z, t, v, r, m, p, w);
  }

  /** What is still to be converted after the digits v, scaled by t. */
  ghost predicate Pending(z: Scaled, t: nat, v: int, num: nat, m: nat, p: nat) {
    && z.d > 0 && num + 10 * v * z.d == z.n * t && m == z.minus * t && p == z.plus * t
    && m > 0 && p > 0
    && (if z.even then num + p < 10 * z.d else num + p <= 10 * z.d)
  }

  /** One division step yields the next digit and the remainder. */
  lemma DigitStep(z: Scaled, t: nat, v: int, num: nat, m: nat, p: nat, digit: nat, r: nat)
    requires Pending(z, t, v, num, m, p) && digit == num / z.d && r == num % z.d
    ensures digit <= 9 && Remainder(z, t, 10 * v + digit, r, m, p)
    ensures digit == 9 ==> !RoomPlus(z.even, r, p, z.d)
  {
    Division(num, z.d, digit, r);
    DigitBound(num, z.d, digit, r);
    assert (10 * v + digit) * z.d == 10 * v * z.d + digit * z.d;
  }

  lemma DigitBound(x: nat, d: nat, q: nat, r: nat)
    requires x == q * d + r && x < 10 * d
    ensures q <= 9 && (q == 9 ==> r == x - 9 * d)
  {
    if q >= 10 {
      TimesLe(10, q, d);
    }
  }

  /** Without room the remainder times ten is what is left at the next scale. */
  lemma NextScale(z: Scaled, t: nat, v: int, r: nat, m: nat, p: nat)
    requires Remainder(z, t, v, r, m, p) && m > 0 && p > 0
    requires !RoomMinus(z.even, r, m) && !RoomPlus(z.even, r, p, z.d)
    ensures Pending(z, 10 * t, v, 10 * r, 10 * m, 10 * p) && m < z.d
  {
    TenTimes(z.n, t);
    TenTimes(z.minus, t);
    TenTimes(z.plus, t);
    TenTimes(v, z.d);
  }

  /** The digits so far, the last of which is still open to rounding. */
  ghost predicate Digits(s: seq<int>) {
    s != [] && DecimalDigits(s) && s[0] > 0
  }

  /** One step at scale 10^k gives up on that scale. */
  lemma ScaleDone(z: Scaled, k: nat, v: int, r: nat, m: nat, p: nat)
    requires Remainder(z, Pow(10, k), v, r, m, p) && m > 0 && p > 0 && NoneShorter(z, k)
    requires !RoomMinus(z.even, r, m) && !RoomPlus(z.even, r, p, z.d)
    ensures NoneShorter(z, k + 1)
  {
    forall w: int ensures !Inside(z, Pow(10, k), w) {
      NoRoom(z, Pow(10, k), v, r, m, p, w);
    }
  }

  /** The first digit is zero only when the interval reaches up to one, and is then rounded up. */
  lemma LeadingZero(z: Scaled, digit: nat, r: nat)
    requires InRange(z) && digit == z.n / z.d == 0 && r == z.n % z.d
    ensures !RoomMinus(z.even, r, z.minus) && RoomPlus(z.even, r, z.plus, z.d)
  {
    Division(z.n, z.d, digit, r);
  }

  /** A buffer long enough for the interval is never overrun. */
  lemma BufferHolds(z: Scaled, size: nat, k: nat, m: nat)
    requires size > 0 && z.d <= z.minus * Pow(10, size - 1)
    requires m == z.minus * Pow(10, k) < z.d
    ensures k + 1 < size
  {
    if k + 1 >= size {
      PowMonotone(10, size - 1, k);
      TimesLe(Pow(10, size - 1), Pow(10, k), z.minus);
    }
  }

  /** The loop state before digit number length. */
  ghost predicate Generating(z: Scaled, s: seq<int>, num: nat, m: nat, p: nat) {
    && DecimalDigits(s) && Pending(z, Pow(10, |s|), Dec(s), num, m, p) && NoneShorter(z, |s|)
    && (if s == [] then num == z.n && m == z.minus && p == z.plus else s[0] > 0)
  }

  /** One division step: the digit, and the remainder with what it says about the interval. */
  lemma StepFacts(z: Scaled, s: seq<int>, num: nat, m: nat, p: nat, digit: nat, r: nat)
    requires InRange(z) && Generating(z, s, num, m, p) && digit == num / z.d && r == num % z.d
    ensures digit <= 9 && (digit == 9 ==> !RoomPlus(z.even, r, p, z.d)) && m > 0 && p > 0 && m == z.minus * Pow(10, |s|)
    ensures Remainder(z, Pow(10, |s|), Dec(s + [digit]), r, m, p)
    ensures (s + [digit])[0] > 0 || (|s| == 0 && !RoomMinus(z.even, r, m) && RoomPlus(z.even, r, p, z.d))
  {
    hide Pow, Dec, Inside, NoneShorter, Remainder;
    DigitStep(z, Pow(10, |s|), Dec(s), num, m, p, digit, r);
    DecSnoc(s, digit);
    if |s| == 0 && digit == 0 {
      LeadingZero(z, digit, r);
    }
  }

  lemma StepGoesOn(z: Scaled, s: seq<int>, r: nat, m: nat, p: nat)
    requires s != [] && DecimalDigits(s) && s[0] > 0 && NoneShorter(z, |s| - 1) && m > 0 && p > 0
    requires Remainder(z, Pow(10, |s| - 1), Dec(s), r, m, p)
    requires !RoomMinus(z.even, r, m) && !RoomPlus(z.even, r, p, z.d)
    ensures Generating(z, s, 10 * r, 10 * m, 10 * p) && m < z.d
  {
    ScaleDone(z, |s| - 1, Dec(s), r, m, p);
    NextScale(z, Pow(10, |s| - 1), Dec(s), r, m, p);
  }

  lemma StartGenerating(z: Scaled)
    requires InRange(z)
    ensures Generating(z, [], z.n, z.minus, z.plus)
  {
    assert Pow(10, 0) == 1;
  }

  method GenerateShortestDigits(z: Scaled, buffer: array<int>) returns (length: nat)
    requires InRange(z)
    requires buffer.Length > 0 && z.d <= z.minus * Pow(10, buffer.Length - 1)
    modifies buffer
    ensures 0 < length <= buffer.Length && Digits(buffer[..length])
    ensures BestAt(z, length - 1, Dec(buffer[..length]))
  {
    hide Pow, Dec, Inside, Distance, NoneShorter, Remainder, Pending, BestAt;
    length := 0;
    var num: nat, m: nat, p: nat := z.n, z.minus, z.plus;
    StartGenerating(z);
    while true
      invariant length < buffer.Length && Generating(z, buffer[..length], num, m, p)
      decreases z.d - m
    {
      var digit, r := DivideModulo(num, z.d);
      StepFacts(z, buffer[..length], num, m, p, digit, r);
      num := r;
      Emit(buffer, length, digit);
      length := length + 1;
      if !RoomMinus(z.even, num, m) && !RoomPlus(z.even, num, p, z.d) {
        StepGoesOn(z, buffer[..length], num, m, p);
        BufferHolds(z, buffer.Length, length - 1, m);
        num, m, p := 10 * num, 10 * m, 10 * p;
      } else {
        ChoiceIsBest(z, length - 1, Dec(buffer[..length]), num, m, p);
        RoundLast(buffer, length, z, num, m, p);
        return;
      }
    }
  }

  method IncrementLast(buffer: array<int>, length: nat)
    requires 0 < length <= buffer.Length && DecimalDigits(buffer[..length]) && buffer[length - 1] != 9
    modifies buffer
    ensures DecimalDigits(buffer[..length]) && buffer[0] >= old(buffer[0]) && (length == 1 ==> buffer[0] > 0)
    ensures Dec(buffer[..length]) == old(Dec(buffer[..length])) + 1
  {
    ghost var done, d := buffer[..length - 1], buffer[length - 1];
    assert buffer[..length] == done + [d];
    DecSnoc(done, d);
    DecSnoc(done, d + 1);
    buffer[length - 1] := buffer[length - 1] + 1;
    assert buffer[..length] == done + [d + 1];
  }

  /** The last digit after the stop: kept, or replaced by the next one, which is never past 9. */
  method RoundLast(buffer: array<int>, length: nat, z: Scaled, num: nat, m: nat, p: nat)
    requires 0 < length <= buffer.Length && DecimalDigits(buffer[..length])
    requires RoomMinus(z.even, num, m) || RoomPlus(z.even, num, p, z.d)
    requires buffer[length - 1] == 9 ==> !RoomPlus(z.even, num, p, z.d)
    requires buffer[0] > 0 || (length == 1 && !RoomMinus(z.even, num, m))
    modifies buffer
    ensures Digits(buffer[..length])
    ensures Dec(buffer[..length]) == old(Dec(buffer[..length]))
              + if RoundsUp(z.even, num, m, p, z.d, old(Dec(buffer[..length])) % 2 == 1) then 1 else 0
  {
    LastParity(buffer[..length]);
    if RoomMinus(z.even, num, m) && RoomPlus(z.even, num, p, z.d) {
      if num + num < z.d {
      } else if num + num > z.d {
        IncrementLast(buffer, length);
      } else if buffer[length - 1] % 2 != 0 {
        IncrementLast(buffer, length);
      }
    } else if !RoomMinus(z.even, num, m) {
      IncrementLast(buffer, length);
    }
  }

  lemma LastParity(s: seq<int>)
    requires s != []
    ensures Dec(s) % 2 == s[|s| - 1] % 2
  {}
}
