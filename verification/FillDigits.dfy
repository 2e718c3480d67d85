/** Writing the decimal digits of a machine word into the buffer. */
module FillDigits {
  import opened Powers
  import opened Decimal

  function Reversed(s: seq<int>): (r: seq<int>)
    ensures |r| == |s| && forall k :: 0 <= k < |s| ==> r[k] == s[|s| - 1 - k]
  {
    if s == [] then [] else Reversed(s[1..]) + [s[0]]
  }

  lemma ReversedSnoc(s: seq<int>, d: int)
    ensures Reversed(s + [d]) == [d] + Reversed(s)
  {}

  lemma DecCons(d: int, s: seq<int>)
    ensures Dec([d] + s) == d * Pow(10, |s|) + Dec(s)
  {
    DecConcat([d], s);
    assert Dec([d]) == d;
  }

  /** One more digit of a number taken from its end. */
  lemma TakeDigit(x: nat, n: nat, k: nat, t: int, left: nat)
    requires x == n * Pow(10, k) + t && n < Pow(10, left) && left > 0
    ensures x == (n / 10) * Pow(10, k + 1) + ((n % 10) * Pow(10, k) + t)
    ensures n / 10 < Pow(10, left - 1)
  {
    SplitDigit(n / 10, n % 10, Pow(10, k));
  }

  lemma SplitDigit(q: nat, r: nat, p: nat)
    ensures (10 * q + r) * p == q * (10 * p) + r * p
  {}

  lemma NothingLeft(x: nat, k: nat)
    ensures Pow(10, 0) == 1 && Dec([]) == 0 && x * Pow(10, 0) == x && 0 * Pow(10, k) == 0
  {}

  /** The new digits of the buffer: nothing before them moved, and they denote the number. */
  twostate predicate Wrote(buffer: array<int>, length: nat, newLength: nat, number: int)
    requires length <= newLength <= buffer.Length
    reads buffer
  {
    && buffer[..length] == old(buffer[..length])
    && DecimalDigits(buffer[length..newLength]) && Dec(buffer[length..newLength]) == number
  }

  method FillDigits32FixedLength(number: nat, requested: nat, buffer: array<int>, length: nat) returns (newLength: nat)
    requires length + requested <= buffer.Length && number < Pow(10, requested)
    modifies buffer
    ensures newLength == length + requested && Wrote(buffer, length, newLength, number)
  {
    hide Dec, Pow;
    newLength := length + requested;
    var n: nat := number;
    assert buffer[newLength..newLength] == [];
    NothingLeft(number, requested);
    for i := requested downto 0
      invariant buffer[..length] == old(buffer[..length])
      invariant DecimalDigits(buffer[length + i..newLength]) && n < Pow(10, i)
      invariant number == n * Pow(10, requested - i) + Dec(buffer[length + i..newLength])
    {
      TakeDigit(number, n, requested - i - 1, Dec(buffer[length + i + 1..newLength]), i + 1);
      Prepend(buffer, length + i, newLength, n % 10);
      n := n / 10;
    }
    NothingLeft(number, requested);
  }

  /** A digit in front of those already written. */
  method Prepend(buffer: array<int>, at: nat, end: nat, digit: nat)
    requires at < end <= buffer.Length && digit <= 9 && DecimalDigits(buffer[at + 1..end])
    modifies buffer
    ensures buffer[..at] == old(buffer[..at]) && DecimalDigits(buffer[at..end])
    ensures Dec(buffer[at..end]) == digit * Pow(10, end - at - 1) + old(Dec(buffer[at + 1..end]))
  {
    hide Dec, Pow;
    ghost var s := buffer[at + 1..end];
    buffer[at] := digit;
    DecCons(digit, s);
    assert buffer[at..end] == [digit] + s;
  }

  /** The digits in reverse order, least significant first. */
  method ReverseDigits(number: nat, ghost room: nat, buffer: array<int>, length: nat) returns (count: nat)
    requires number < Pow(10, room) && length + room <= buffer.Length
    modifies buffer
    ensures count <= room && buffer[..length] == old(buffer[..length])
    ensures DecimalDigits(buffer[length..length + count])
    ensures Dec(Reversed(buffer[length..length + count])) == number
    ensures count > 0 ==> buffer[length + count - 1] != 0
    ensures number == 0 <==> count == 0
  {
    hide Dec, Pow;
    var n: nat := number;
    count := 0;
    NothingLeft(number, room);
    assert buffer[length..length] == [];
    while n != 0
      invariant count <= room && n < Pow(10, room - count) && buffer[..length] == old(buffer[..length])
      invariant DecimalDigits(buffer[length..length + count])
      invariant number == n * Pow(10, count) + Dec(Reversed(buffer[length..length + count]))
      invariant count > 0 && n == 0 ==> buffer[length + count - 1] != 0
      invariant number == 0 ==> count == 0
    {
      var digit := n % 10;
      if count == room {
        NothingLeft(number, room);
      }
      TakeDigit(number, n, count, Dec(Reversed(buffer[length..length + count])), room - count);
      n := n / 10;
      Append(buffer, length, length + count, digit);
      count := count + 1;
    }
    NothingLeft(number, count);
  }

  method Append(buffer: array<int>, ghost start: nat, end: nat, digit: nat)
    requires start <= end < buffer.Length && digit <= 9 && DecimalDigits(buffer[start..end])
    modifies buffer
    ensures buffer[..end] == old(buffer[..end]) && buffer[..start] == old(buffer[..start])
    ensures buffer[end] == digit && DecimalDigits(buffer[start..end + 1])
    ensures Dec(Reversed(buffer[start..end + 1]))
            == digit * Pow(10, end - start) + old(Dec(Reversed(buffer[start..end])))
  {
    hide Dec, Pow;
    ghost var s := buffer[start..end];
    buffer[end] := digit;
    assert buffer[start..end + 1] == s + [digit];
    ReversedSnoc(s, digit);
    DecCons(digit, Reversed(s));
  }

  /** Halfway through the exchange: the outer places swapped, the inner ones as they were. */
  ghost predicate Exchanged(now: seq<int>, was: seq<int>, start: nat, last: int, i: nat) {
    && |now| == |was| && start <= i && start <= |was| && last < |was|
    && (forall k :: 0 <= k < start ==> now[k] == was[k])
    && (forall k :: start <= k <= last && i <= k <= start + last - i ==> now[k] == was[k])
    && (forall k :: start <= k <= last && !(i <= k <= start + last - i) ==> now[k] == was[start + last - k])
  }

  lemma ExchangeStep(now: seq<int>, was: seq<int>, start: nat, last: int, i: nat)
    requires Exchanged(now, was, start, last, i) && i < start + last - i
    ensures Exchanged(now[i := now[start + last - i]][start + last - i := now[i]], was, start, last, i + 1)
  {
    assert now[i] == was[i] && now[start + last - i] == was[start + last - i];
  }

  lemma ExchangeDone(now: seq<int>, was: seq<int>, start: nat, last: int, i: nat)
    requires Exchanged(now, was, start, last, i) && start + last - i <= i && start <= last + 1
    ensures now[..start] == was[..start] && now[start..last + 1] == Reversed(was[start..last + 1])
  {
    var s, t := now[start..last + 1], was[start..last + 1];
    forall k | 0 <= k < |s|
      ensures s[k] == Reversed(t)[k]
    {
      assert s[k] == now[start + k] && t[|t| - 1 - k] == was[last - k];
    }
  }

  /** The exchange loop: the count places from length on end up reversed. */
  method Exchange(buffer: array<int>, length: nat, count: nat)
    requires length + count <= buffer.Length
    modifies buffer
    ensures buffer[..length] == old(buffer[..length])
    ensures buffer[length..length + count] == Reversed(old(buffer[length..length + count]))
  {
    hide Reversed;
    ghost var s, last := buffer[..], length + count - 1;
    var i, j := length, length + count - 1;
    while i < j
      invariant i + j == length + last && Exchanged(buffer[..], s, length, last, i)
    {
      ghost var t := buffer[..];
      ExchangeStep(t, s, length, last, i);
      buffer[i], buffer[j] := buffer[j], buffer[i];
      assert buffer[..] == t[i := t[j]][j := t[i]];
      i, j := i + 1, j - 1;
    }
    ExchangeDone(buffer[..], s, length, last, i);
    assert buffer[length..length + count] == buffer[..][length..last + 1];
  }

  lemma ReversedDigits(s: seq<int>)
    requires DecimalDigits(s)
    ensures DecimalDigits(Reversed(s))
  {}

  method FillDigits32(number: nat, ghost room: nat, buffer: array<int>, length: nat) returns (newLength: nat)
    requires number < Pow(10, room) && length + room <= buffer.Length
    modifies buffer
    ensures length <= newLength <= length + room && Wrote(buffer, length, newLength, number)
    ensures newLength > length ==> buffer[length] != 0
    ensures number == 0 <==> newLength == length
  {
    var count := ReverseDigits(number, room, buffer, length);
    ReversedDigits(buffer[length..length + count]);
    Exchange(buffer, length, count);
    newLength := length + count;
    assert count > 0 ==> buffer[length] == buffer[length..newLength][0];
  }

  const TEN_7: nat := 10000000

  lemma Ten7()
    ensures Pow(10, 3) == 1000 && Pow(10, 7) == TEN_7 && Pow(10, 14) == TEN_7 * TEN_7 && Pow(10, 17) == 1000 * (TEN_7 * TEN_7)
  {
    assert Pow(10, 3) == 1000;
    assert Pow(10, 4) == 10 * Pow(10, 3);
    PowAdd(10, 3, 4);
    PowAdd(10, 7, 7);
    PowAdd(10, 3, 14);
  }

  /** Two runs of digits one after the other. */
  lemma Joined(s: seq<int>, t: seq<int>)
    requires DecimalDigits(s) && DecimalDigits(t) && |t| == 7
    ensures DecimalDigits(s + t) && Dec(s + t) == Dec(s) * TEN_7 + Dec(t)
  {
    DecConcat(s, t);
    Ten7();
  }

  lemma Slices(s: seq<int>, a: nat, b: nat, c: nat)
    requires a <= b <= c <= |s|
    ensures s[a..c] == s[a..b] + s[b..c]
  {}

  /** Seven more digits behind the last ones. */
  method AppendSeven(part: nat, buffer: array<int>, ghost start: nat, length: nat) returns (newLength: nat)
    requires start <= length && length + 7 <= buffer.Length && part < TEN_7
    requires DecimalDigits(buffer[start..length])
    modifies buffer
    ensures newLength == length + 7 && buffer[..start] == old(buffer[..start])
    ensures length > start ==> buffer[start] == old(buffer[start])
    ensures DecimalDigits(buffer[start..newLength])
    ensures Dec(buffer[start..newLength]) == old(Dec(buffer[start..length])) * TEN_7 + part
  {
    hide Dec, Pow, DecimalDigits;
    Ten7();
    ghost var s := buffer[start..length];
    newLength := FillDigits32FixedLength(part, 7, buffer, length);
    assert buffer[start..length] == buffer[..length][start..];
    assert old(buffer[start..length]) == old(buffer[..length])[start..];
    assert buffer[..start] == buffer[..length][..start];
    assert old(buffer[..start]) == old(buffer[..length])[..start];
    assert length > start ==> buffer[start] == buffer[..length][start];
    Slices(buffer[..], start, length, newLength);
    Joined(s, buffer[length..newLength]);
  }

  method FillDigits64FixedLength(number: nat, buffer: array<int>, length: nat) returns (newLength: nat)
    requires number < Pow(10, 17) && length + 17 <= buffer.Length
    modifies buffer
    ensures newLength == length + 17 && Wrote(buffer, length, newLength, number)
  {
    hide Dec, Pow;
    Ten7();
    var part2, rest := number % TEN_7, number / TEN_7;
    var part1, part0 := rest % TEN_7, rest / TEN_7;
    newLength := FillDigits32FixedLength(part0, 3, buffer, length);
    newLength := AppendSeven(part1, buffer, length, newLength);
    newLength := AppendSeven(part2, buffer, length, newLength);
  }

  lemma Room(number: nat, part: nat, unit: nat, room: nat, places: nat)
    requires unit == Pow(10, places) && number < Pow(10, room) && part == number / unit && part > 0
    ensures room > places && part < Pow(10, room - places)
  {
    assert number >= part * unit;
    if room <= places {
      PowMonotone(10, room, places);
      MulLe(1, part, unit);
    } else {
      PowAdd(10, room - places, places);
      if part >= Pow(10, room - places) {
        MulLe(Pow(10, room - places), part, unit);
      }
    }
  }

  method FillDigits64(number: nat, ghost room: nat, buffer: array<int>, length: nat) returns (newLength: nat)
    requires number < 0x1_0000_0000_0000_0000 && number < Pow(10, room) && length + room <= buffer.Length
    modifies buffer
    ensures length <= newLength <= length + room && Wrote(buffer, length, newLength, number)
    ensures newLength > length ==> buffer[length] != 0
  {
    hide Dec, Pow;
    Ten7();
    var part2, rest := number % TEN_7, number / TEN_7;
    var part1, part0 := rest % TEN_7, rest / TEN_7;
    assert part0 == number / (TEN_7 * TEN_7);
    if part0 != 0 {
      Room(number, part0, TEN_7 * TEN_7, room, 14);
      newLength := FillDigits32(part0, room - 14, buffer, length);
      newLength := AppendSeven(part1, buffer, length, newLength);
      newLength := AppendSeven(part2, buffer, length, newLength);
    } else if part1 != 0 {
      Room(number, part1, TEN_7, room, 7);
      newLength := FillDigits32(part1, room - 7, buffer, length);
      newLength := AppendSeven(part2, buffer, length, newLength);
    } else {
      newLength := FillDigits32(part2, room, buffer, length);
    }
  }
}
