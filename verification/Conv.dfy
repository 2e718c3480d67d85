/** Integers to decimal text and back. */
module Conv {
  import opened Options
  import opened Powers
  import opened Decimal
  import opened FbLayout
  import opened Words128

  const ZERO: Byte := 48
  const MINUS: Byte := 45
  const PLUS: Byte := 43
  const MAX_UINT64: nat := 0xFFFF_FFFF_FFFF_FFFF
  const MAX_INT64: nat := 0x7FFF_FFFF_FFFF_FFFF

  predicate IsDigit(c: Byte) {
    ZERO <= c <= ZERO + 9
  }

  predicate AllDigits(s: seq<Byte>) {
    forall i :: 0 <= i < |s| ==> IsDigit(s[i])
  }

  /** How far the characters are from '0'. */
  function Distances(s: seq<Byte>): (d: seq<int>)
    ensures |d| == |s|
  {
    seq(|s|, i requires 0 <= i < |s| => s[i] - ZERO)
  }

  /** The number a string of digits denotes. */
  function Value(s: seq<Byte>): int {
    Dec(Distances(s))
  }

  lemma ValueSnoc(s: seq<Byte>, c: Byte)
    ensures Value(s + [c]) == 10 * Value(s) + (c - ZERO)
  {
    assert Distances(s + [c]) == Distances(s) + [c - ZERO];
    DecSnoc(Distances(s), c - ZERO);
  }

  lemma ValueConcat(s: seq<Byte>, t: seq<Byte>)
    ensures Value(s + t) == Value(s) * Pow(10, |t|) + Value(t)
  {
    DistancesConcat(s, t);
    hide Dec, Pow, Distances;
    DecConcat(Distances(s), Distances(t));
  }

  lemma DistancesConcat(s: seq<Byte>, t: seq<Byte>)
    ensures Distances(s + t) == Distances(s) + Distances(t)
  {}

  lemma ValueBounds(s: seq<Byte>)
    requires AllDigits(s)
    ensures 0 <= Value(s) < Pow(10, |s|)
    ensures s != [] && s[0] != ZERO ==> Value(s) >= Pow(10, |s| - 1)
  {
    DecBounds(Distances(s));
  }

  /** The decimal text of a number. */
  function DecText(v: nat): (s: seq<Byte>)
    ensures s != []
  {
    if v < 10 then [ZERO + v] else DecText(v / 10) + [ZERO + v % 10]
  }

  lemma {:induction false} DecTextDenotes(v: nat)
    ensures AllDigits(DecText(v)) && Value(DecText(v)) == v && (v > 0 ==> DecText(v)[0] != ZERO)
  {
    if v < 10 {
      ValueSnoc([], ZERO + v);
      assert [] + [ZERO + v] == DecText(v);
      assert Value([]) == 0;
    } else {
      DecTextDenotes(v / 10);
      ValueSnoc(DecText(v / 10), ZERO + v % 10);
    }
  }

  /** A number's length in digits is fixed by the powers of ten around it. */
  lemma LengthIs(v: nat, n: nat)
    requires n > 0 && (v > 0 ==> Pow(10, n - 1) <= v) && v < Pow(10, n) && (v == 0 ==> n == 1)
    ensures |DecText(v)| == n
  {
    DecTextDenotes(v);
    ValueBounds(DecText(v));
    var m := |DecText(v)|;
    if v > 0 {
      if m < n {
        PowMonotone(10, m, n - 1);
      } else if n < m {
        PowMonotone(10, n, m - 1);
      }
    }
  }

  /** The position of the highest bit set: 63 minus the number of leading zeros. */
  function HighBit(v: nat): (b: nat)
    requires v > 0
    ensures Pow(2, b) <= v < Pow(2, b + 1)
  {
    if v == 1 then 0 else HighBit(v / 2) + 1
  }

  function Digits10(v: nat): nat {
    if v == 0 then 1
    else
      var minLength := 1 + HighBit(v) * 77 / 256;
      minLength + if v >= Pow(10, minLength) then 1 else 0
  }

  /** 77/256 is just below the logarithm of two to the base ten. */
  lemma LogOfTwo()
    ensures Pow(10, 77) <= Pow(2, 256) <= 2 * Pow(10, 77)
  {
    TenTo77();
    TwoTo256();
  }

  lemma TenTo77()
    ensures Pow(10, 77) == 100000000000000000000000000000000000000000000000000000000000000000000000000000
  {
    assert Pow(10, 7) == 10000000;
    hide Pow;
    PowAdd(10, 7, 7);
    assert Pow(10, 14) == 100000000000000;
    PowAdd(10, 14, 14);
    assert Pow(10, 28) == 10000000000000000000000000000;
    PowAdd(10, 28, 28);
    assert Pow(10, 56) == 100000000000000000000000000000000000000000000000000000000;
    PowAdd(10, 56, 14);
    assert Pow(10, 70) == 10000000000000000000000000000000000000000000000000000000000000000000000;
    PowAdd(10, 70, 7);
  }

  lemma TwoTo256()
    ensures Pow(2, 256) == 115792089237316195423570985008687907853269984665640564039457584007913129639936
  {
    WordPower();
    hide Pow;
    assert Pow(2, 64) == 18446744073709551616;
    PowAdd(2, 64, 64);
    assert Pow(2, 128) == 340282366920938463463374607431768211456;
    PowAdd(2, 128, 128);
  }

  lemma Root(a: nat, b: nat, n: nat)
    requires n > 0 && Pow(a, n) <= Pow(b, n)
    ensures a <= b
  {
    if b < a {
      PowBase(b, a, n);
    }
  }

  lemma PowBaseLe(a: nat, b: nat, n: nat)
    requires a <= b
    ensures Pow(a, n) <= Pow(b, n)
  {
    if a < b {
      PowBase(a, b, n);
    }
  }

  /** The estimate is never too long. */
  lemma EstimateBelow(b: nat)
    ensures Pow(10, b * 77 / 256) <= Pow(2, b)
  {
    hide Pow;
    var k := b * 77 / 256;
    LogOfTwo();
    PowBaseLe(Pow(10, 77), Pow(2, 256), b);
    PowPower(10, 77, b);
    PowPower(2, 256, b);
    PowMonotone(10, 256 * k, 77 * b);
    PowPower(10, k, 256);
    PowPower(2, b, 256);
    Root(Pow(10, k), Pow(2, b), 256);
  }

  /** For 64-bit numbers it is at most one too short. */
  lemma EstimateAbove(b: nat)
    requires b < 64
    ensures Pow(2, b + 1) <= Pow(10, b * 77 / 256 + 2)
  {
    hide Pow;
    var k := b * 77 / 256;
    LogOfTwo();
    PowBaseLe(Pow(2, 256), 2 * Pow(10, 77), b);
    PowProduct(2, Pow(10, 77), b);
    PowPower(10, 77, b);
    PowPower(2, 256, b);
    PowAdd(2, 256 * b, 256);
    PowAdd(2, b, 256);
    PowMonotone(2, b + 256, 3 * 257);
    PowPower(2, 3, 257);
    EightIsLess();
    PowBase(Pow(2, 3), 10, 257);
    PowAdd(10, 77 * b, 257);
    PowMonotone(10, 77 * b + 257, 256 * (k + 2));
    Products(Pow(2, 256 * b), Pow(2, b), Pow(10, 77 * b), Pow(2, 256), Pow(10, 257));
    PowPower(2, b + 1, 256);
    PowPower(10, k + 2, 256);
    Root(Pow(2, b + 1), Pow(10, k + 2), 256);
  }

  lemma EightIsLess()
    ensures Pow(2, 3) == 8
  {}

  lemma Products(x: nat, y: nat, t: nat, w: nat, u: nat)
    requires x <= y * t && y * w <= u
    ensures x * w <= t * u
  {
    MulLe(x, y * t, w);
    assert (y * t) * w == t * (y * w);
    MulLe(y * w, u, t);
  }

  lemma BitsBelow(v: nat)
    requires 0 < v <= MAX_UINT64
    ensures HighBit(v) < 64
  {
    hide Pow;
    WordPower();
    if HighBit(v) >= 64 {
      PowMonotone(2, 64, HighBit(v));
    }
  }

  /** digits10 is the exact decimal length of every 64-bit number. */
  lemma Digits10Exact(v: nat)
    requires v <= MAX_UINT64
    ensures Digits10(v) == |DecText(v)| <= 20
  {
    if v > 0 {
      var b := HighBit(v);
      BitsBelow(v);
      EstimateBelow(b);
      EstimateAbove(b);
      hide Pow;
      LengthIs(v, Digits10(v));
    }
  }

  method Uint64ToBuffer(v0: nat, buffer: array<Byte>) returns (length: nat)
    requires v0 <= MAX_UINT64 && Digits10(v0) <= buffer.Length
    modifies buffer
    ensures length == |DecText(v0)| <= buffer.Length && buffer[..length] == DecText(v0)
  {
    Digits10Exact(v0);
    hide Digits10;
    length := Digits10(v0);
    var v: nat := v0;
    var pos := length - 1;
    assert DecText(v0) + buffer[length..length] == DecText(v0);
    while v >= 10
      invariant 0 <= pos < length && |DecText(v)| == pos + 1
      invariant DecText(v) + buffer[pos + 1..length] == DecText(v0)
    {
      ghost var tail := buffer[pos + 1..length];
      var q, r := v / 10, v % 10;
      buffer[pos] := ZERO + r;
      assert buffer[pos..length] == [ZERO + r] + tail;
      assert DecText(v) + tail == DecText(q) + ([ZERO + r] + tail);
      pos := pos - 1;
      v := q;
    }
    ghost var tail := buffer[1..length];
    buffer[pos] := v + ZERO;
    assert buffer[..length] == [v + ZERO] + tail;
  }

  /** The text of a signed number. */
  function IntText(n: int): seq<Byte> {
    if n < 0 then [MINUS] + DecText(-n) else DecText(n)
  }

  /** A signed 64-bit number appended; the minimum is negated as an unsigned one. */
  method ToAppend(value: int, out: seq<Byte>) returns (result: seq<Byte>)
    requires -(MAX_INT64 + 1) <= value <= MAX_INT64
    ensures result == out + IntText(value)
  {
    hide DecText, Digits10;
    var buffer := new Byte[20];
    if value < 0 {
      Digits10Exact(-value);
      result := out + [MINUS];
      var unsigned := value + (MAX_UINT64 + 1);
      var n := Uint64ToBuffer((MAX_UINT64 + 1 - unsigned) % (MAX_UINT64 + 1), buffer);
      assert result + buffer[..n] == out + ([MINUS] + buffer[..n]);
      result := result + buffer[..n];
    } else {
      Digits10Exact(value);
      var n := Uint64ToBuffer(value, buffer);
      result := out + buffer[..n];
    }
  }

  /** strncmp of strings of one length. */
  predicate LexLe(s: seq<Byte>, t: seq<Byte>)
    requires |s| == |t|
  {
    s == [] || s[0] < t[0] || (s[0] == t[0] && LexLe(s[1..], t[1..]))
  }

  lemma ValueCons(c: Byte, s: seq<Byte>)
    ensures Value([c] + s) == (c - ZERO) * Pow(10, |s|) + Value(s)
  {
    hide Value, Pow;
    ValueConcat([c], s);
    ValueSnoc([], c);
    assert [] + [c] == [c];
    EmptyValue();
  }

  /** Digit strings of one length compare as their numbers. */
  lemma {:induction false} LexValue(s: seq<Byte>, t: seq<Byte>)
    requires AllDigits(s) && AllDigits(t) && |s| == |t|
    ensures LexLe(s, t) <==> Value(s) <= Value(t)
  {
    if s == [] {
      assert t == [];
    } else {
      hide Value, Pow;
      var p := Pow(10, |s| - 1);
      LexValue(s[1..], t[1..]);
      assert s == [s[0]] + s[1..] && t == [t[0]] + t[1..];
      ValueCons(s[0], s[1..]);
      ValueCons(t[0], t[1..]);
      ValueBounds(s[1..]);
      ValueBounds(t[1..]);
      LeadDecides(s[0] - ZERO, t[0] - ZERO, p, Value(s[1..]), Value(t[1..]));
    }
  }

  lemma LeadDecides(a: int, b: int, p: nat, x: int, y: int)
    requires 0 <= a && 0 <= b && 0 <= x < p && 0 <= y < p
    ensures a * p + x <= b * p + y <==> a < b || (a == b && x <= y)
  {
    if a < b {
      MulLe(a + 1, b, p);
    } else if b < a {
      MulLe(b + 1, a, p);
    }
  }

  /** The largest 64-bit number as text, to compare against. */
  const MAX_TEXT: seq<Byte> := DecText(MAX_UINT64)

  lemma MaxText()
    ensures |MAX_TEXT| == 20 && AllDigits(MAX_TEXT) && Value(MAX_TEXT) == MAX_UINT64
  {
    DecTextDenotes(MAX_UINT64);
    TenTo20();
    hide Pow, Value;
    LengthIs(MAX_UINT64, 20);
  }

  lemma TenTo20()
    ensures Pow(10, 19) == 10000000000000000000 && Pow(10, 20) == 100000000000000000000
  {
    assert Pow(10, 5) == 100000;
    hide Pow;
    PowAdd(10, 5, 5);
    PowAdd(10, 10, 10);
    PowAdd(10, 19, 1);
    assert Pow(10, 1) == 10 by { OneTen(); }
  }

  lemma OneTen()
    ensures Pow(10, 1) == 10
  {}

  lemma PrefixValue(s: seq<Byte>, k: nat)
    requires AllDigits(s) && k <= |s|
    ensures 0 <= Value(s[..k]) <= Value(s)
  {
    hide Value, Pow;
    assert s == s[..k] + s[k..];
    ValueConcat(s[..k], s[k..]);
    ValueBounds(s[..k]);
    ValueBounds(s[k..]);
    Growing(Value(s[..k]), Pow(10, |s| - k));
  }

  lemma Growing(x: nat, p: nat)
    requires p >= 1
    ensures x <= x * p
  {
    MulLe(1, p, x);
  }

  lemma {:induction false} DropZeros(s: seq<Byte>, k: nat)
    requires k <= |s| && (forall i :: 0 <= i < k ==> s[i] == ZERO)
    ensures Value(s[k..]) == Value(s)
  {
    if k == 0 {
      assert s[0..] == s;
    } else {
      DropZeros(s[1..], k - 1);
      assert s[1..][k - 1..] == s[k..] && s == [s[0]] + s[1..];
      ValueCons(s[0], s[1..]);
    }
  }

  /** A string of digits as an unsigned 64-bit number, if it is one. */
  ghost function Fitting(s: seq<Byte>): Option<int> {
    if s != [] && Value(s) <= MAX_UINT64 then Some(Value(s)) else None
  }

  method DigitsTo(s: seq<Byte>) returns (r: Option<int>)
    requires AllDigits(s)
    ensures r == Fitting(s)
    decreases |s|
  {
    hide Value, Pow;
    if |s| >= 20 {
      if s[0] == ZERO {
        r := SkipZeros(s);
        return;
      }
      Overlong(s);
      if !(|s| == 20 && LexLe(s, MAX_TEXT)) {
        return None;
      }
    } else {
      Short(s);
    }
    r := Accumulate(s);
  }

  method SkipZeros(s: seq<Byte>) returns (r: Option<int>)
    requires AllDigits(s) && |s| >= 20 && s[0] == ZERO
    ensures r == Fitting(s)
    decreases |s|, 0
  {
    hide Value, Pow;
    var b := 1;
    while true
      invariant 1 <= b <= |s| && forall i :: 0 <= i < b ==> s[i] == ZERO
      decreases |s| - b
    {
      DropZeros(s, b);
      if b == |s| {
        EmptyValue();
        return Some(0);
      }
      if s[b] != ZERO {
        r := DigitsTo(s[b..]);
        return;
      }
      b := b + 1;
    }
  }

  lemma EmptyValue()
    ensures Value([]) == 0
  {}

  lemma Overlong(s: seq<Byte>)
    requires AllDigits(s) && |s| >= 20 && s[0] != ZERO
    ensures |MAX_TEXT| == 20
    ensures |s| == 20 && LexLe(s, MAX_TEXT) <==> Value(s) <= MAX_UINT64
  {
    hide Value, Pow;
    MaxText();
    if |s| == 20 {
      LexValue(s, MAX_TEXT);
    } else {
      ValueBounds(s);
      PowMonotone(10, 20, |s| - 1);
      TenTo20();
    }
  }

  lemma Short(s: seq<Byte>)
    requires AllDigits(s) && |s| < 20
    ensures Value(s) <= MAX_UINT64
  {
    hide Value, Pow;
    ValueBounds(s);
    PowMonotone(10, |s|, 19);
    TenTo20();
  }

  lemma FourDigits(s: seq<Byte>, b: nat)
    requires b + 4 <= |s|
    ensures Value(s[..b + 4])
            == Value(s[..b]) * 10000
               + 1000 * (s[b] - ZERO) + 100 * (s[b + 1] - ZERO) + 10 * (s[b + 2] - ZERO) + (s[b + 3] - ZERO)
  {
    hide Value;
    NextDigit(s, b);
    NextDigit(s, b + 1);
    NextDigit(s, b + 2);
    NextDigit(s, b + 3);
  }

  lemma NextDigit(s: seq<Byte>, b: nat)
    requires b < |s|
    ensures Value(s[..b + 1]) == 10 * Value(s[..b]) + (s[b] - ZERO)
  {
    assert s[..b + 1] == s[..b] + [s[b]];
    ValueSnoc(s[..b], s[b]);
  }

  /** Four digits at a time in 64-bit arithmetic. */
  method Accumulate(s: seq<Byte>) returns (r: Option<int>)
    requires AllDigits(s) && Value(s) <= MAX_UINT64
    ensures r == Fitting(s)
  {
    hide Value;
    var result, b := 0, 0;
    EmptyValue();
    while |s| - b >= 4
      invariant 0 <= b <= |s| && result == Value(s[..b])
    {
      FourDigits(s, b);
      PrefixValue(s, b + 4);
      var sum := 1000 * (s[b] - ZERO) + 100 * (s[b + 1] - ZERO) + 10 * (s[b + 2] - ZERO) + (s[b + 3] - ZERO);
      result := (result * 10000) % (MAX_UINT64 + 1);
      result := (result + sum) % (MAX_UINT64 + 1);
      b := b + 4;
    }
    result, b := LastDigits(s, b, result);
    assert s[..b] == s;
    if |s| == 0 {
      return None;
    }
    return Some(result);
  }

  method LastDigits(s: seq<Byte>, b0: nat, result0: int) returns (result: int, b: nat)
    requires AllDigits(s) && Value(s) <= MAX_UINT64 && b0 <= |s| < b0 + 4 && result0 == Value(s[..b0])
    ensures b == |s| && result == Value(s[..b])
  {
    hide Value;
    result, b := result0, b0;
    while b < |s|
      invariant b0 <= b <= |s| && result == Value(s[..b])
    {
      NextDigit(s, b);
      PrefixValue(s, b + 1);
      result := (result * 10 + (s[b] - ZERO)) % (MAX_UINT64 + 1);
      b := b + 1;
    }
  }

  predicate IsSpace(c: Byte) {
    c == 32 || 9 <= c <= 13
  }

  function SkipSpaces(s: seq<Byte>): (r: seq<Byte>)
    ensures |r| <= |s| && (r != [] ==> !IsSpace(r[0]))
  {
    if s != [] && IsSpace(s[0]) then SkipSpaces(s[1..]) else s
  }

  /** How many digits the text begins with. */
  function LeadingDigits(s: seq<Byte>): (n: nat)
    ensures n <= |s| && AllDigits(s[..n]) && (n < |s| ==> !IsDigit(s[n]))
  {
    if s != [] && IsDigit(s[0]) then
      assert s[..LeadingDigits(s[1..]) + 1] == [s[0]] + s[1..][..LeadingDigits(s[1..])];
      LeadingDigits(s[1..]) + 1
    else 0
  }

  lemma LeadingIs(s: seq<Byte>, n: nat)
    requires n <= |s| && AllDigits(s[..n]) && (n < |s| ==> !IsDigit(s[n]))
    ensures LeadingDigits(s) == n
  {
    hide LeadingDigits, AllDigits, IsDigit;
    PrefixDigit(s, n, LeadingDigits(s));
    PrefixDigit(s, LeadingDigits(s), n);
  }

  lemma PrefixDigit(s: seq<Byte>, n: nat, k: nat)
    requires n <= |s| && AllDigits(s[..n])
    ensures k < n ==> IsDigit(s[k])
  {
    if k < n {
      assert s[k] == s[..n][k];
    }
  }

  /** What to<int64_t>(StringPiece*) and to<uint64_t>(StringPiece*) accept, and what they leave. */
  function ParseInt(src: seq<Byte>, signed: bool): Option<(int, seq<Byte>)> {
    var s := SkipSpaces(src);
    if s == [] then None
    else
      var sign := signed && (s[0] == MINUS || s[0] == PLUS);
      var t := if sign then s[1..] else s;
      var n := LeadingDigits(t);
      if n == 0 then None
      else
        var v := Value(t[..n]);
        if sign && s[0] == MINUS then if v <= MAX_INT64 + 1 then Some((-v, t[n..])) else None
        else if v <= (if signed then MAX_INT64 else MAX_UINT64) then Some((v, t[n..])) else None
  }

  /** A 64-bit pattern read as a signed number. */
  function AsSigned(x: nat): int {
    if x <= MAX_INT64 then x else x - (MAX_UINT64 + 1)
  }

  method FindFirstNonDigit(s: seq<Byte>, start: nat) returns (m: nat)
    requires start <= |s| && AllDigits(s[..start])
    ensures m == LeadingDigits(s)
  {
    m := start;
    while m < |s| && IsDigit(s[m])
      invariant start <= m <= |s| && AllDigits(s[..m])
    {
      m := m + 1;
    }
    LeadingIs(s, m);
  }

  method To(src: seq<Byte>, signed: bool) returns (r: Option<(int, seq<Byte>)>)
    ensures r == ParseInt(src, signed)
  {
    hide Value;
    var s := Trimmed(src);
    if s == [] {
      return None;
    }
    var negative, t := false, s;
    if signed && !IsDigit(s[0]) {
      if s[0] == MINUS {
        negative := true;
      } else if s[0] != PLUS {
        LeadingIs(s, 0);
        return None;
      }
      t := s[1..];
    }
    if t == [] || !IsDigit(t[0]) {
      LeadingIs(t, 0);
      return None;
    }
    var m := FindFirstNonDigit(t, 1);
    r := Signed(t, m, signed, negative);
  }

  /** The digits converted and given their sign, with the source's overflow checks on the wrapped result. */
  method Signed(t: seq<Byte>, m: nat, signed: bool, negative: bool) returns (r: Option<(int, seq<Byte>)>)
    requires 0 < m <= |t| && AllDigits(t[..m]) && (negative ==> signed)
    ensures r == if Value(t[..m]) <= (if negative then MAX_INT64 + 1 else if signed then MAX_INT64 else MAX_UINT64)
                 then Some((if negative then -Value(t[..m]) else Value(t[..m]), t[m..])) else None
  {
    ValueBounds(t[..m]);
    hide Value;
    var v := DigitsTo(t[..m]);
    if v.None? {
      return None;
    }
    var result := v.value;
    if negative {
      result := AsSigned((MAX_UINT64 + 1 - result) % (MAX_UINT64 + 1));
      if result > 0 {
        return None;
      }
    } else if signed {
      result := AsSigned(result);
      if result < 0 {
        return None;
      }
    }
    return Some((result, t[m..]));
  }

  method Trimmed(src: seq<Byte>) returns (s: seq<Byte>)
    ensures s == SkipSpaces(src)
  {
    var b := 0;
    while b < |src| && IsSpace(src[b])
      invariant 0 <= b <= |src| && SkipSpaces(src[b..]) == SkipSpaces(src)
    {
      b := b + 1;
    }
    s := src[b..];
  }

  lemma DigitsFirst(d: seq<Byte>, rest: seq<Byte>)
    requires AllDigits(d) && (rest != [] ==> !IsDigit(rest[0]))
    ensures LeadingDigits(d + rest) == |d| && (d + rest)[..|d|] == d && (d + rest)[|d|..] == rest
    ensures d != [] ==> IsDigit((d + rest)[0])
  {
    hide LeadingDigits;
    assert (d + rest)[..|d|] == d;
    LeadingIs(d + rest, |d|);
  }

  /** What isspace takes for a space: the blank, tab, new line, vertical tab, form feed and return. */
  const SPACES: seq<Byte> := [' ' as int, '\t' as int, '\n' as int, 11, 12, '\r' as int]

  lemma SpaceIs(c: Byte)
    ensures IsSpace(c) <==> c in SPACES
  {}

  lemma {:induction false} SpacesSkipped(w: seq<Byte>, s: seq<Byte>)
    requires (forall i :: 0 <= i < |w| ==> IsSpace(w[i])) && (s != [] ==> !IsSpace(s[0]))
    ensures SkipSpaces(w + s) == s
    decreases |w|
  {
    if w == [] {
      assert w + s == s;
    } else {
      assert (w + s)[1..] == w[1..] + s;
      SpacesSkipped(w[1..], s);
    }
  }

  /**
   * Every text is spaces, a sign or none, digits and a rest. It is a number exactly when there are digits, a sign
   * only where the type has one, and a value the type can hold; the rest is left.
   */
  lemma ParseMeans(w: seq<Byte>, sign: seq<Byte>, d: seq<Byte>, rest: seq<Byte>, signed: bool)
    requires forall i :: 0 <= i < |w| ==> w[i] in SPACES
    requires (sign == [] || sign == ['+' as int] || sign == ['-' as int]) && AllDigits(d)
    requires rest != [] ==> !IsDigit(rest[0])
    requires sign == [] && d == [] && rest != [] ==> rest[0] !in SPACES && rest[0] != '+' as int && rest[0] != '-' as int
    ensures ParseInt(w + sign + d + rest, signed)
            == if d == [] || (sign != [] && !signed) then None
               else if sign == ['-' as int] then
                 (if Value(d) <= 0x8000_0000_0000_0000 then Some((-Value(d), rest)) else None)
               else if Value(d) < (if signed then 0x8000_0000_0000_0000 else 0x1_0000_0000_0000_0000) then Some((Value(d), rest))
               else None
  {
    hide Value, LeadingDigits, SkipSpaces;
    assert forall c: Byte :: IsSpace(c) <==> c in SPACES;
    var u := d + rest;
    var s := sign + u;
    assert w + sign + d + rest == w + s;
    DigitsFirst(d, rest);
    NotSpace(sign, d, rest);
    SpacesSkipped(w, s);
    NoDigitFirst(s);
    assert sign == [] ==> s == u;
    assert sign != [] ==> s[0] == sign[0] && s[1..] == u;
    AfterSpaces(w + s, s, u, sign, d, rest, signed);
  }

  lemma NoDigitFirst(s: seq<Byte>)
    ensures s != [] && !IsDigit(s[0]) ==> LeadingDigits(s) == 0
  {}

  lemma AfterSpaces(src: seq<Byte>, s: seq<Byte>, u: seq<Byte>, sign: seq<Byte>, d: seq<Byte>, rest: seq<Byte>, signed: bool)
    requires SkipSpaces(src) == s && (sign == [] || sign == ['+' as int] || sign == ['-' as int])
    requires if sign == [] then s == u else s != [] && s[0] == sign[0] && s[1..] == u && LeadingDigits(s) == 0
    requires LeadingDigits(u) == |d| && u[..|d|] == d && u[|d|..] == rest && AllDigits(d)
    requires sign == [] && u != [] ==> u[0] != '+' as int && u[0] != '-' as int
    ensures ParseInt(src, signed)
            == if d == [] || (sign != [] && !signed) then None
               else if sign == ['-' as int] then
                 (if Value(d) <= 0x8000_0000_0000_0000 then Some((-Value(d), rest)) else None)
               else if Value(d) < (if signed then 0x8000_0000_0000_0000 else 0x1_0000_0000_0000_0000) then Some((Value(d), rest))
               else None
  {
    hide Value, LeadingDigits, SkipSpaces, AllDigits;
  }

  lemma NotSpace(sign: seq<Byte>, d: seq<Byte>, rest: seq<Byte>)
    requires (sign == [] || sign == ['+' as int] || sign == ['-' as int]) && AllDigits(d)
    requires sign == [] && d == [] && rest != [] ==> !IsSpace(rest[0])
    ensures var s := sign + (d + rest); s != [] ==> !IsSpace(s[0])
  {}

  /** Printing any 64-bit number and parsing it gives it back, whatever follows that is no digit. */
  lemma PrintThenParse(n: int, signed: bool, rest: seq<Byte>)
    requires if signed then -(MAX_INT64 + 1) <= n <= MAX_INT64 else 0 <= n <= MAX_UINT64
    requires rest != [] ==> !IsDigit(rest[0])
    ensures ParseInt(IntText(n) + rest, signed) == Some((n, rest))
  {
    var v: nat := if n < 0 then -n else n;
    DecTextDenotes(v);
    hide DecText, Value, ParseInt, AllDigits;
    var d := DecText(v);
    var sign: seq<Byte> := if n < 0 then ['-' as int] else [];
    assert [] + sign + d + rest == IntText(n) + rest;
    ParseMeans([], sign, d, rest, signed);
  }
}
