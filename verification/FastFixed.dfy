/** The 64- and 128-bit fast path for a fixed number of places. */
module FastFixed {
  import opened Powers
  import opened Decimal
  import opened DigitBuffer
  import opened StartValues
  import opened Dtoa
  import opened Counted
  import opened FixedMode
  import opened ExactPowers
  import opened Words128
  import opened FillDigits

  /** After i places of f/2^p the digits are t and what is left is rest/2^(p-i). */
  ghost predicate Digitized(f: nat, p: nat, i: nat, t: int, rest: nat) {
    i <= p && t >= 0 && rest < Pow(2, p - i) && f * Pow(5, i) == t * Pow(2, p - i) + rest
  }

  /** Multiplying by five and moving the point is multiplying by ten. */
  lemma NextPlace(f: nat, p: nat, i: nat, t: int, rest: nat, digit: nat, left: nat)
    requires Digitized(f, p, i, t, rest) && i < p
    requires 5 * rest == digit * Pow(2, p - i - 1) + left && left < Pow(2, p - i - 1)
    ensures digit <= 9 && Digitized(f, p, i + 1, 10 * t + digit, left)
  {
    NextPower(p - i - 1);
    assert Pow(5, i + 1) == 5 * Pow(5, i);
    hide Pow;
    PlaceStep(f, Pow(5, i), t, rest, digit, left, Pow(2, p - i - 1));
  }

  lemma PlaceStep(f: nat, fives: nat, t: nat, rest: nat, digit: nat, left: nat, half: nat)
    requires f * fives == t * (2 * half) + rest && rest < 2 * half && 5 * rest == digit * half + left && left < half
    ensures digit <= 9 && f * (5 * fives) == (10 * t + digit) * half + left
  {
    if digit > 9 {
      MulLe(10, digit, half);
    }
    assert f * (5 * fives) == 5 * (f * fives);
    assert (10 * t + digit) * half == 5 * (t * (2 * half)) + digit * half;
  }

  /** The digits found, rounded by the first bit of what is left, are the number rounded half up. */
  lemma DigitizedRounds(f: nat, p: nat, c: nat, t: nat, rest: nat)
    requires Digitized(f, p, c, t, rest)
    ensures HalfUp(f * Pow(10, c), Pow(2, p)) == if 2 * rest >= Pow(2, p - c) then t + 1 else t
  {
    hide Pow, HalfUp;
    PowProduct(5, 2, c);
    PowAdd(2, p - c, c);
    var a, b, k, r := f * Pow(10, c), Pow(2, p - c), Pow(2, c), rest * Pow(2, c);
    RoundsParts(f, Pow(5, c), k, t, rest, b, a, r, Pow(2, p));
    HalfUpIs(a, Pow(2, p), t, r);
  }

  lemma RoundsParts(f: nat, fives: nat, k: nat, t: nat, rest: nat, b: nat, a: nat, r: nat, w: nat)
    requires f * fives == t * b + rest && rest < b && a == f * (fives * k) && r == rest * k && w == b * k && k > 0
    ensures a == t * w + r && r < w && (2 * r >= w <==> 2 * rest >= b)
  {
    MulAssoc(f, fives, k);
    assert (t * b + rest) * k == t * (b * k) + rest * k;
    MulLt(rest, b, k);
    if 2 * rest >= b {
      MulLe(b, 2 * rest, k);
    } else {
      MulLt(2 * rest, b, k);
    }
  }

  /** Nothing left: the digits are exact and the places not written are zeros. */
  lemma DigitizedExact(f: nat, p: nat, i: nat, t: nat, c: nat)
    requires Digitized(f, p, i, t, 0) && i <= c
    ensures HalfUp(f * Pow(10, c), Pow(2, p)) == t * Pow(10, c - i)
  {
    hide Pow, HalfUp;
    DigitizedRounds(f, p, i, t, 0);
    PowProduct(5, 2, i);
    PowAdd(2, p - i, i);
    PowAdd(10, i, c - i);
    ExactParts(f, Pow(5, i), Pow(2, i), t, Pow(2, p - i), Pow(10, c - i), f * Pow(10, c), t * Pow(10, c - i), Pow(2, p));
    HalfUpIs(f * Pow(10, c), Pow(2, p), t * Pow(10, c - i), 0);
  }

  lemma ExactParts(f: nat, fives: nat, k: nat, t: nat, b: nat, m: nat, a: nat, q: nat, w: nat)
    requires f * fives == t * b && a == f * ((fives * k) * m) && q == t * m && w == b * k
    ensures a == q * w
  {
    assert f * ((fives * k) * m) == ((f * fives) * k) * m;
    assert ((t * b) * k) * m == (t * m) * (b * k);
  }

  /** The rounding of the integer fraction is the rounding of the real number. */
  lemma FractionRounds(f: nat, p: nat, c: nat)
    ensures RoundedTo(V(f, 0 - p), c) == Num(HalfUp(f * Pow(10, c), Pow(2, p)), 0 - c)
  {
    hide Exp, Pow, HalfUp, Num, Rounded;
    ExpNat(10, c);
    ExpAdd(2, 0 - p, p);
    PowerZero();
    RealTimes(f, Pow(10, c));
    ScaledFraction(f as real, Exp(2, 0 - p), Exp(10, c), Pow(2, p) as real, V(f, 0 - p) * Exp(10, c));
    HalfUpRounds(f * Pow(10, c), Pow(2, p), V(f, 0 - p) * Exp(10, c));
  }

  lemma PowerZero()
    ensures Exp(2, 0) == 1.0
  {}

  lemma ScaledFraction(f: real, x: real, t: real, b: real, y: real)
    requires x * b == 1.0 && y == (f * x) * t
    ensures y * b == f * t
  {
    assert y * b == (f * t) * (x * b);
  }

  /** The bound that keeps the multiplications by five inside a word. */
  ghost predicate FewBits(rest: nat, i: nat, unit: nat) {
    i < 3 ==> rest < Pow(5, i) * unit
  }

  lemma FiveFits(rest: nat, p: nat, i: nat, unit: nat, word: nat)
    requires i <= p && rest < Pow(2, p - i) && FewBits(rest, i, unit)
    requires 128 * unit <= word && Pow(2, p) <= word
    ensures 5 * rest < word
  {
    hide Pow;
    if i < 3 {
      FirstFives(i);
      MulLe(Pow(5, i), 25, unit);
    } else {
      PowAdd(2, p - i, i);
      PowMonotone(2, 3, i);
      EightIs();
      MulLe(8, Pow(2, i), Pow(2, p - i));
    }
  }

  lemma FirstFives(i: nat)
    requires i < 3
    ensures Pow(5, i) <= 25
  {
    assert Pow(5, 1) == 5 && Pow(5, 2) == 25;
  }

  lemma EightIs()
    ensures Pow(2, 3) == 8
  {}

  lemma FewBitsNext(rest: nat, i: nat, unit: nat, left: nat)
    requires FewBits(rest, i, unit) && left <= 5 * rest
    ensures FewBits(left, i + 1, unit)
  {
    assert Pow(5, i + 1) == 5 * Pow(5, i);
    assert (5 * Pow(5, i)) * unit == 5 * (Pow(5, i) * unit);
  }

  /** The places of a fraction that fits one word, and what is left of it. */
  method Places64(fractionals: nat, p: nat, count: nat, buffer: array<int>, length: nat, ghost f: nat)
    returns (newLength: nat, rest: nat, point: nat)
    requires length + count <= buffer.Length && DecimalDigits(buffer[..length]) && p <= 64
    requires fractionals < 0x100_0000_0000_0000 && Digitized(f, p, 0, Dec(buffer[..length]), fractionals)
    modifies buffer
    ensures length <= newLength <= length + count && point == p - (newLength - length)
    ensures DecimalDigits(buffer[..newLength])
    ensures Digitized(f, p, newLength - length, Dec(buffer[..newLength]), rest)
    ensures rest == 0 || newLength == length + count
  {
    hide Pow, Dec, FewBits, Digitized;
    rest, point, newLength := fractionals, p, length;
    ghost var unit := 0x100_0000_0000_0000;
    FewBitsFirst(rest, unit);
    for i := 0 to count
      invariant newLength == length + i && DecimalDigits(buffer[..newLength]) && i <= p && point == p - i
      invariant Digitized(f, p, i, Dec(buffer[..newLength]), rest) && FewBits(rest, i, unit)
    {
      if rest == 0 {
        return;
      }
      var digit, left := Place64(rest, p, i, f, Dec(buffer[..newLength]));
      point := point - 1;
      Emit(buffer, newLength, digit);
      FewBitsNext(rest, i, unit, left);
      newLength := newLength + 1;
      rest := left;
    }
  }

  lemma FewBitsFirst(rest: nat, unit: nat)
    requires rest < unit
    ensures FewBits(rest, 0, unit)
  {}

  /** One turn of the 64-bit loop; no product or shift leaves the word. */
  method Place64(rest: nat, p: nat, i: nat, ghost f: nat, ghost t: int) returns (digit: nat, left: nat)
    requires Digitized(f, p, i, t, rest) && 0 < rest && p <= 64 && FewBits(rest, i, 0x100_0000_0000_0000)
    ensures i < p && digit <= 9 && Digitized(f, p, i + 1, 10 * t + digit, left) && left <= 5 * rest
  {
    NotLast(p, i, rest);
    WordBound(p);
    FiveFits(rest, p, i, 0x100_0000_0000_0000, W64);
    hide Pow, FewBits;
    var five := (rest * 5) % W64;
    var point := p - i - 1;
    digit := Shr(five, point);
    Division(five, Pow(2, point), digit, five % Pow(2, point));
    ShiftFits(digit, point);
    left := five - Shl(digit, point);
    NextPlace(f, p, i, t, rest, digit, left);
  }

  lemma NotLast(p: nat, i: nat, rest: nat)
    requires i <= p && 0 < rest < Pow(2, p - i)
    ensures i < p
  {}

  lemma WordBound(p: nat)
    requires p <= 64
    ensures Pow(2, p) <= W64
  {
    PowMonotone(2, p, 64);
    WordPower();
  }

  lemma TopBit(x: nat, half: nat)
    requires x < 2 * half
    ensures x / half % 2 == 1 <==> x >= half
  {
    if x >= half {
      Quotient(x, half, 1, x - half);
    } else {
      Quotient(x, half, 0, x);
    }
  }

  /** Rounding up the digits written so far; an empty buffer is zero. */
  method RoundUp(buffer: array<int>, length: nat, point: int) returns (newLength: nat, newPoint: int)
    requires 0 < buffer.Length && length <= buffer.Length && DecimalDigits(buffer[..length])
    modifies buffer
    ensures newLength == (if length == 0 then 1 else length) && DecimalDigits(buffer[..newLength])
    ensures length == 0 ==> newPoint == 1
    ensures Printed(buffer[..newLength], newPoint)
            == Num(old(Dec(buffer[..length])) + 1, if length == 0 then 0 else point - length)
  {
    if length == 0 {
      buffer[0] := 1;
      newLength, newPoint := 1, 1;
      assert buffer[..1] == [1];
      assert Dec([1]) == 1;
    } else {
      hide Num, Exp;
      ghost var s := buffer[..length];
      buffer[length - 1] := buffer[length - 1] + 1;
      assert buffer[..length] == s[length - 1 := s[length - 1] + 1];
      DecUpdate(s, length - 1, s[length - 1] + 1);
      assert Pow(10, 0) == 1;
      newLength := length;
      newPoint := PropagateCarry(buffer, length, point);
      CarriedPoint(length, point);
    }
  }

  lemma CarriedPoint(length: nat, point: int)
    requires length > 0
    ensures Num(Pow(10, length - 1), point + 1 - length) == Num(Pow(10, length), point - length)
  {
    hide Exp;
    NumShift(Pow(10, length - 1), point - length, 1);
    FirstPowers();
  }

  /** Digits with a last place that may still be rounded up, as the rounded fraction. */
  lemma FinishPlaces(f: nat, p: nat, i: nat, t: nat, rest: nat, c: nat)
    requires Digitized(f, p, i, t, rest) && i <= c && (rest == 0 || i == c)
    ensures Num(HalfUp(f * Pow(10, c), Pow(2, p)), 0 - c)
            == Num(if rest != 0 && 2 * rest >= Pow(2, p - i) then t + 1 else t, 0 - i)
  {
    hide Pow, HalfUp, Exp;
    if rest == 0 {
      DigitizedExact(f, p, i, t, c);
      NumShift(t, 0 - c, c - i);
    } else {
      DigitizedRounds(f, p, c, t, rest);
    }
  }

  /** The places of a fraction held in 128 bits; its binary point starts at bit 128. */
  method Places128(n: UInt128, count: nat, buffer: array<int>, ghost f: nat, ghost unit: nat)
    returns (newLength: nat, point: nat)
    requires n.Valid() && count <= buffer.Length && count < 128
    requires 128 * unit <= W128 && n.Value() < unit && Digitized(f, 128, 0, 0, n.Value())
    modifies n, buffer
    ensures n.Valid() && newLength <= count && point == 128 - newLength
    ensures DecimalDigits(buffer[..newLength])
    ensures Digitized(f, 128, newLength, Dec(buffer[..newLength]), n.Value())
    ensures n.Value() == 0 || newLength == count
  {
    hide Pow, FewBits, Digitized;
    point, newLength := 128, 0;
    FewBitsFirst(n.Value(), unit);
    assert buffer[..0] == [];
    for i := 0 to count
      invariant n.Valid() && newLength == i && DecimalDigits(buffer[..newLength]) && point == 128 - i
      invariant Digitized(f, 128, i, Dec(buffer[..newLength]), n.Value()) && FewBits(n.Value(), i, unit)
    {
      if n.IsZero() {
        return;
      }
      ghost var rest := n.Value();
      var digit := Place128(n, i, f, Dec(buffer[..newLength]), unit);
      point := point - 1;
      Emit(buffer, newLength, digit);
      FewBitsNext(rest, i, unit, n.Value());
      newLength := newLength + 1;
    }
  }

  method Place128(n: UInt128, i: nat, ghost f: nat, ghost t: int, ghost unit: nat) returns (digit: nat)
    requires n.Valid() && Digitized(f, 128, i, t, n.Value()) && i < 127
    requires 128 * unit <= W128 && FewBits(n.Value(), i, unit)
    modifies n
    ensures n.Valid() && digit <= 9 && Digitized(f, 128, i + 1, 10 * t + digit, n.Value())
    ensures n.Value() <= 5 * old(n.Value())
  {
    hide Pow, FewBits, Digitized, UInt128.Value, UInt128.Valid;
    ghost var rest := n.Value();
    PlaceFits(f, i, t, rest, unit);
    var carry := n.Multiply(5);
    assert n.Value() == 5 * rest;
    digit := n.DivModPowerOf2(127 - i);
    NextPlace(f, 128, i, t, rest, digit, n.Value());
  }

  lemma PlaceFits(f: nat, i: nat, t: int, rest: nat, unit: nat)
    requires Digitized(f, 128, i, t, rest) && i < 127 && 128 * unit <= W128 && FewBits(rest, i, unit)
    ensures 5 * rest < W128 && 5 * rest < 0x8000_0000 * Pow(2, 127 - i)
  {
    hide Pow, FewBits;
    DoubleWord();
    NextPower(127 - i);
    FiveFits(rest, 128, i, unit, W128);
  }

  lemma DoubleWord()
    ensures Pow(2, 128) == W128
  {
    WordPower();
    PowAdd(2, 64, 64);
  }

  /** Rounding does not see a common factor. */
  lemma HalfUpScale(a: nat, b: nat, k: nat)
    requires b > 0 && k > 0
    ensures b * k > 0 && HalfUp(a * k, b * k) == HalfUp(a, b)
  {
    hide HalfUp;
    Division(a, b, a / b, a % b);
    ScaledParts(a, b, a / b, a % b, k, a * k, b * k, a % b * k);
  }

  lemma ScaledParts(a: nat, b: nat, q: nat, r: nat, k: nat, ak: nat, bk: nat, rk: nat)
    requires b > 0 && k > 0 && a == q * b + r && r < b && ak == a * k && bk == b * k && rk == r * k
    ensures bk > 0 && HalfUp(ak, bk) == HalfUp(a, b)
  {
    hide HalfUp;
    MulLt(r, b, k);
    assert (q * b + r) * k == q * (b * k) + r * k;
    if 2 * r >= b {
      MulLe(b, 2 * r, k);
    } else {
      MulLt(2 * r, b, k);
    }
    HalfUpIs(a, b, q, r);
    HalfUpIs(ak, bk, q, rk);
  }

  /** Aligning the binary point with bit 128 does not change what is rounded. */
  lemma Aligned(f: nat, p: nat, c: nat)
    requires p <= 128
    ensures HalfUp((f * Pow(2, 128 - p)) * Pow(10, c), Pow(2, 128)) == HalfUp(f * Pow(10, c), Pow(2, p))
  {
    hide Pow, HalfUp;
    PowAdd(2, p, 128 - p);
    HalfUpScale(f * Pow(10, c), Pow(2, p), Pow(2, 128 - p));
    AlignedProduct(f, Pow(2, 128 - p), Pow(10, c));
  }

  lemma AlignedProduct(f: nat, k: nat, m: nat)
    ensures (f * k) * m == (f * m) * k
  {}

  /** The fraction moved up to 128 bits. */
  method Align128(fractionals: nat, p: nat) returns (n: UInt128)
    requires 64 < p <= 128 && fractionals < W64
    ensures fresh(n) && n.Valid() && n.Value() == fractionals * Pow(2, 128 - p)
  {
    n := new UInt128(fractionals, 0);
    AlignShift(fractionals, p);
    hide Pow;
    n.Shift(p - 64);
  }

  lemma AlignShift(x: nat, p: nat)
    requires 64 < p <= 128
    ensures (x * W64) / Pow(2, p - 64) == x * Pow(2, 128 - p)
  {
    hide Pow;
    SplitWords(p - 64);
    var m, k := Pow(2, 128 - p), Pow(2, p - 64);
    MulAssoc(x, m, k);
    Quotient(x * W64, k, x * m, 0);
  }

  /** The digits of the places after the point, rounded half up. */
  ghost predicate FixedFor(f: nat, p: nat, c: nat, digits: seq<int>, point: int) {
    DecimalDigits(digits) && Printed(digits, point) == Num(HalfUp(f * Pow(10, c), Pow(2, p)), 0 - c)
  }

  method FillFractionals(fractionals: nat, exponent: int, count: nat, buffer: array<int>, length: nat, point: int, ghost f: nat)
    returns (newLength: nat, newPoint: int)
    requires -128 <= exponent <= 0 && fractionals < Pow(2, -exponent) && fractionals < 0x100_0000_0000_0000
    requires 0 < buffer.Length && length + count <= buffer.Length && count < 128
    requires DecimalDigits(buffer[..length]) && point == length && (exponent < -64 ==> length == 0)
    requires f == Dec(buffer[..length]) * Pow(2, -exponent) + fractionals
    modifies buffer
    ensures newLength <= buffer.Length && FixedFor(f, -exponent, count, buffer[..newLength], newPoint)
  {
    if -exponent <= 64 {
      newLength, newPoint := Fractionals64(fractionals, -exponent, count, buffer, length, f);
    } else {
      newLength, newPoint := Fractionals128(fractionals, -exponent, count, buffer, f);
    }
  }

  method Fractionals64(fractionals: nat, p: nat, count: nat, buffer: array<int>, length: nat, ghost f: nat)
    returns (newLength: nat, newPoint: int)
    requires p <= 64 && fractionals < Pow(2, p) && fractionals < 0x100_0000_0000_0000
    requires 0 < buffer.Length && length + count <= buffer.Length && DecimalDigits(buffer[..length])
    requires f == Dec(buffer[..length]) * Pow(2, p) + fractionals
    modifies buffer
    ensures newLength <= buffer.Length && FixedFor(f, p, count, buffer[..newLength], newPoint)
  {
    DecBounds(buffer[..length]);
    assert Pow(5, 0) == 1;
    hide Pow, Dec, Num, HalfUp;
    var rest, bits;
    newLength, rest, bits := Places64(fractionals, p, count, buffer, length, f);
    ghost var i, t := newLength - length, Dec(buffer[..newLength]);
    FinishPlaces(f, p, i, t, rest, count);
    newPoint := length;
    if rest != 0 {
      NotLast(p, i, rest);
      NextPower(bits - 1);
      TopBit(rest, Pow(2, bits - 1));
      if Shr(rest, bits - 1) % 2 == 1 {
        newLength, newPoint := RoundUp(buffer, newLength, newPoint);
      }
    }
  }

  method Fractionals128(fractionals: nat, p: nat, count: nat, buffer: array<int>, ghost f: nat)
    returns (newLength: nat, newPoint: int)
    requires 64 < p <= 128 && fractionals < 0x100_0000_0000_0000 && f == fractionals
    requires 0 < buffer.Length && count <= buffer.Length && count < 128
    modifies buffer
    ensures newLength <= buffer.Length && FixedFor(f, p, count, buffer[..newLength], newPoint)
  {
    hide Pow, Dec, Num, HalfUp, Digitized;
    var n := Align128(fractionals, p);
    ghost var g := f * Pow(2, 128 - p);
    ghost var unit := 0x80_0000_0000_0000_0000_0000_0000_0000;
    AlignedStart(f, p, unit);
    Aligned(f, p, count);
    var bits;
    newLength, bits := Places128(n, count, buffer, g, unit);
    ghost var t := Dec(buffer[..newLength]);
    RoundingBit(g, newLength, t, n.Value());
    FinishPlaces(g, 128, newLength, t, n.Value(), count);
    newPoint := 0;
    if n.BitAt(bits - 1) == 1 {
      newLength, newPoint := RoundUp(buffer, newLength, newPoint);
    }
  }

  lemma RoundingBit(f: nat, i: nat, t: int, rest: nat)
    requires Digitized(f, 128, i, t, rest) && i < 128
    ensures t >= 0 && (rest / Pow(2, 127 - i) % 2 == 1 <==> rest != 0 && 2 * rest >= Pow(2, 128 - i))
  {
    NextPower(127 - i);
    TopBit(rest, Pow(2, 127 - i));
  }

  lemma AlignedStart(f: nat, p: nat, unit: nat)
    requires 64 < p <= 128 && f < 0x100_0000_0000_0000 && unit == 0x80_0000_0000_0000_0000_0000_0000_0000
    ensures f * Pow(2, 128 - p) < unit && 128 * unit <= W128
    ensures Digitized(f * Pow(2, 128 - p), 128, 0, 0, f * Pow(2, 128 - p))
  {
    var m := Pow(2, 128 - p);
    assert Pow(5, 0) == 1;
    hide Pow;
    DoubleWord();
    WordPower();
    NextPower(63);
    PowMonotone(2, 128 - p, 63);
    MulLe(f, 0x100_0000_0000_0000, m);
  }

  /** No zero in front and none behind. */
  predicate Trimmed(s: seq<int>) {
    s != [] ==> s[0] != 0 && s[|s| - 1] != 0
  }

  lemma DropLastZero(s: seq<int>, point: int)
    requires s != [] && s[|s| - 1] == 0
    ensures Printed(s[..|s| - 1], point) == Printed(s, point)
  {
    hide Exp;
    var t := s[..|s| - 1];
    NumShift(Dec(t), point - |s|, 1);
    FirstPowers();
  }

  lemma {:induction false} DropFirstZeros(s: seq<int>, k: nat, point: int)
    requires k <= |s| && (forall i :: 0 <= i < k ==> s[i] == 0)
    ensures Printed(s[k..], point - k) == Printed(s, point)
  {
    hide Exp;
    assert s == s[..k] + s[k..];
    DecConcat(s[..k], s[k..]);
    if k > 0 {
      DecZeros(s[..k]);
    }
  }

  /** Copying the digits from place k on to the front. */
  method MoveToFront(buffer: array<int>, k: nat, length: nat)
    requires k <= length <= buffer.Length
    modifies buffer
    ensures buffer[..length - k] == old(buffer[k..length])
  {
    ghost var s := buffer[k..length];
    for i := k to length
      invariant forall j :: 0 <= j < i - k ==> buffer[j] == s[j]
      invariant forall j :: i <= j < length ==> buffer[j] == s[j - k]
    {
      buffer[i - k] := buffer[i];
    }
  }

  method TrimZeros(buffer: array<int>, length: nat, point: int) returns (newLength: nat, newPoint: int)
    requires length <= buffer.Length && DecimalDigits(buffer[..length])
    modifies buffer
    ensures newLength <= length && DecimalDigits(buffer[..newLength]) && Trimmed(buffer[..newLength])
    ensures Printed(buffer[..newLength], newPoint) == Printed(old(buffer[..length]), point)
    ensures length == 0 || old(buffer[0]) > 0 ==> newPoint == point && (newLength == 0 ==> length == 0)
  {
    hide Printed;
    newLength, newPoint := length, point;
    while newLength > 0 && buffer[newLength - 1] == 0
      invariant newLength <= length && buffer[..] == old(buffer[..])
      invariant length > 0 && buffer[0] > 0 ==> newLength > 0
      invariant Printed(buffer[..newLength], point) == Printed(old(buffer[..length]), point)
    {
      DropLastZero(buffer[..newLength], point);
      assert buffer[..newLength][..newLength - 1] == buffer[..newLength - 1];
      newLength := newLength - 1;
    }
    assert length > 0 ==> buffer[0] == old(buffer[..])[0];
    var first := 0;
    while first < newLength && buffer[first] == 0
      invariant first <= newLength && forall i :: 0 <= i < first ==> buffer[i] == 0
      invariant newLength > 0 && buffer[0] > 0 ==> first == 0
    {
      first := first + 1;
    }
    DropFirstZeros(buffer[..newLength], first, point);
    assert buffer[..newLength][first..] == buffer[first..newLength];
    if first != 0 {
      MoveToFront(buffer, first, newLength);
      newLength, newPoint := newLength - first, newPoint - first;
    }
  }

  lemma {:induction false} SameNumber(s: seq<int>, t: seq<int>)
    requires DecimalDigits(s) && DecimalDigits(t) && |s| == |t| && Dec(s) == Dec(t)
    ensures s == t
  {
    if s != [] {
      var n := |s| - 1;
      SameNumber(s[..n], t[..n]);
      assert s == s[..n] + [s[n]] && t == t[..n] + [t[n]];
    }
  }

  lemma SameLength(s: seq<int>, t: seq<int>)
    requires DecimalDigits(s) && DecimalDigits(t) && Trimmed(s) && Trimmed(t) && Dec(s) == Dec(t)
    ensures |s| <= |t|
  {
    DecBounds(s);
    DecBounds(t);
    if |s| > |t| {
      PowMonotone(10, |t|, |s| - 1);
    }
  }

  lemma NotNothing(s: seq<int>)
    requires DecimalDigits(s) && Trimmed(s) && s != []
    ensures Dec(s) > 0 && Dec(s) % 10 != 0
  {
    DecBounds(s);
  }

  /** A number has one trimmed representation: digits and point are determined. */
  lemma TrimmedUnique(s: seq<int>, p: int, t: seq<int>, q: int)
    requires DecimalDigits(s) && DecimalDigits(t) && Trimmed(s) && Trimmed(t) && Printed(s, p) == Printed(t, q)
    ensures s == t && (s != [] ==> p == q)
  {
    hide Exp, Trimmed;
    var a, b := p - |s|, q - |t|;
    if a <= b {
      SameScale(s, a, t, b);
    } else {
      SameScale(t, b, s, a);
    }
    SameLength(s, t);
    SameLength(t, s);
    SameNumber(s, t);
  }

  lemma SameScale(s: seq<int>, a: int, t: seq<int>, b: int)
    requires DecimalDigits(s) && DecimalDigits(t) && Trimmed(s) && Trimmed(t) && a <= b
    requires Num(Dec(s), a) == Num(Dec(t), b)
    ensures Dec(s) == Dec(t) && (s != [] ==> a == b)
  {
    hide Exp, Dec, Trimmed, Pow, Num;
    var m, y := Pow(10, b - a), Dec(t) * Pow(10, b - a);
    NumShift(Dec(t), a, b - a);
    Cancel(Dec(s), y, a);
    if t == [] || s == [] {
      EmptyIsZero(s, t, m);
    } else if a < b {
      NotNothing(s);
      MultipleOfTen(Dec(t), b - a);
    } else {
      FirstPowers();
    }
  }

  lemma Cancel(x: int, y: int, e: int)
    requires Num(x, e) == Num(y, e)
    ensures x == y
  {
    var k := Exp(10, e);
    assert ((x as real) - (y as real)) * k == 0.0;
  }

  lemma EmptyIsZero(s: seq<int>, t: seq<int>, m: nat)
    requires DecimalDigits(s) && DecimalDigits(t) && Trimmed(s) && Trimmed(t) && m > 0 && Dec(s) == Dec(t) * m
    requires s == [] || t == []
    ensures s == t == []
  {
    if s != [] {
      NotNothing(s);
    }
    if t != [] {
      NotNothing(t);
    }
  }

  lemma MultipleOfTen(x: int, k: nat)
    requires k > 0
    ensures (x * Pow(10, k)) % 10 == 0
  {
    TenTimes(x, Pow(10, k - 1));
    TenFactor(x * Pow(10, k - 1));
  }

  lemma TenFactor(y: int)
    ensures (10 * y) % 10 == 0
  {}

  const FIVE_17: nat := 0xB1_A2BC_2EC5

  lemma Five17()
    ensures Pow(5, 17) == FIVE_17 && Pow(10, 17) == FIVE_17 * Pow(2, 17)
  {
    assert Pow(5, 4) == 625;
    hide Pow;
    PowAdd(5, 4, 4);
    PowAdd(5, 8, 8);
    PowAdd(5, 16, 1);
    FirstFive();
    PowProduct(5, 2, 17);
  }

  lemma FirstFive()
    ensures Pow(5, 1) == 5
  {}

  /** Powers of two and ten as literals, where the machine bounds come from. */
  lemma Literals()
    ensures Pow(2, 3) == 8 && Pow(2, 11) == 0x800 && Pow(2, 17) == 0x2_0000 && Pow(2, 20) == 0x10_0000
    ensures Pow(10, 5) == 100000 && Pow(10, 16) == 10000000000000000 && Pow(10, 17) == 100000000000000000
    ensures Pow(10, 20) == 100000000000000000000
  {
    assert Pow(2, 3) == 8 && Pow(10, 3) == 1000 && Pow(10, 2) == 100;
    hide Pow;
    PowAdd(2, 3, 3);
    PowAdd(2, 6, 3);
    PowAdd(2, 9, 3);
    NextPower(11);
    assert Pow(2, 11) == 0x800;
    PowAdd(2, 11, 6);
    PowAdd(2, 17, 3);
    PowAdd(10, 3, 2);
    PowAdd(10, 5, 3);
    PowAdd(10, 8, 8);
    PowAdd(10, 8, 3);
    PowAdd(10, 11, 3);
    PowAdd(10, 14, 3);
    PowAdd(10, 17, 3);
  }

  /** v == quotient * 10^17 + remainder, found by dividing by 5^17 and moving the powers of two. */
  method LargeParts(f: nat, e: nat) returns (quotient: nat, remainder: nat)
    requires f < 0x20_0000_0000_0000 && 11 < e <= 20
    ensures quotient < Pow(10, 5) && remainder < Pow(10, 17)
    ensures f * Pow(2, e) == quotient * Pow(10, 17) + remainder
  {
    if e > 17 {
      quotient, remainder := ShiftedDividend(f, e);
    } else {
      quotient, remainder := ShiftedDivisor(f, e);
    }
  }

  method ShiftedDividend(f: nat, e: nat) returns (quotient: nat, remainder: nat)
    requires f < 0x20_0000_0000_0000 && 17 < e <= 20
    ensures quotient < Pow(10, 5) && remainder < Pow(10, 17)
    ensures f * Pow(2, e) == quotient * Pow(10, 17) + remainder
  {
    hide Pow, Shl;
    Five17();
    Literals();
    ghost var k := Pow(2, e - 17);
    PowMonotone(2, e - 17, 3);
    PowAdd(2, e - 17, 17);
    MulLe(f, 0x20_0000_0000_0000, k);
    ShiftFits(f, e - 17);
    var dividend := Shl(f, e - 17);
    var q, r := dividend / FIVE_17, dividend % FIVE_17;
    quotient := q % W32;
    ShiftFits(r, 17);
    remainder := Shl(r, 17);
    MulAssoc(f, k, 0x2_0000);
  }

  method ShiftedDivisor(f: nat, e: nat) returns (quotient: nat, remainder: nat)
    requires f < 0x20_0000_0000_0000 && 11 < e <= 17
    ensures quotient < Pow(10, 5) && remainder < Pow(10, 17)
    ensures f * Pow(2, e) == quotient * Pow(10, 17) + remainder
  {
    hide Pow, Shl;
    Five17();
    Literals();
    ghost var k := Pow(2, 17 - e);
    PowAdd(2, 17 - e, e);
    PowMonotone(2, 17 - e, 17);
    MulLe(k, Pow(2, 17), FIVE_17);
    ShiftFits(FIVE_17, 17 - e);
    var divisor := Shl(FIVE_17, 17 - e);
    var q, r := f / divisor, f % divisor;
    Division(f, divisor, q, r);
    SmallQuotient(f, divisor, q);
    quotient := q % W32;
    MulAssoc(FIVE_17, k, Pow(2, e));
    MulLt(r, divisor, Pow(2, e));
    ShiftFits(r, e);
    remainder := Shl(r, e);
    Spread(q, divisor, r, Pow(2, e));
  }

  lemma Spread(q: nat, d: nat, r: nat, k: nat)
    ensures (q * d + r) * k == q * (d * k) + r * k
  {
    MulAssoc(q, d, k);
  }

  lemma SmallQuotient(f: nat, d: nat, q: nat)
    requires f < 0x20_0000_0000_0000 && d >= FIVE_17 && q * d <= f
    ensures q < 11806
  {
    if q >= 11806 {
      MulLe(11806, q, d);
    }
  }

  /** A whole number needs no rounding. */
  lemma WholeIsFixed(f: nat, e: nat, c: nat, digits: seq<int>)
    requires DecimalDigits(digits) && Dec(digits) == f * Pow(2, e)
    ensures Printed(digits, |digits|) == RoundedTo(V(f, e), c)
  {
    var n := f * Pow(2, e);
    assert Pow(5, 0) == 1 == Pow(2, 0);
    assert Digitized(n, 0, 0, n, 0);
    hide Exp, Pow, Num, HalfUp, RoundedTo;
    FractionRounds(n, 0, c);
    FinishPlaces(n, 0, 0, n, 0, c);
    SameWhole(f, e);
  }

  lemma SameWhole(f: nat, e: nat)
    ensures V(f * Pow(2, e), 0) == V(f, e)
  {
    PowerZero();
    ExpNat(2, e);
    RealTimes(f, Pow(2, e));
  }

  /** With at most 20 places nothing is left of a number below 2^-75. */
  lemma VanishesInPlaces(f: nat, e: int, c: nat)
    requires f < 0x20_0000_0000_0000 && e < -128 && c <= 20
    ensures RoundedTo(V(f, e), c) == 0.0
  {
    hide Exp, Pow, Num, HalfUp, RoundedTo;
    FractionRounds(f, -e, c);
    PowMonotone(10, c, 20);
    PowMonotone(2, 128, -e);
    Literals();
    DoubleWord();
    var a := f * Pow(10, c);
    MulLe(Pow(10, c), Pow(10, 20), f);
    HalfUpIs(a, Pow(2, -e), 0, a);
    PrintedShort(0 - c);
  }

  /** More than 64 bits before the point. */
  method LargeNumber(f: nat, e: nat, buffer: array<int>) returns (length: nat)
    requires f < 0x20_0000_0000_0000 && 11 < e <= 20 && buffer.Length >= 22
    modifies buffer
    ensures length <= buffer.Length && DecimalDigits(buffer[..length]) && Dec(buffer[..length]) == f * Pow(2, e)
  {
    hide Pow, Dec;
    var quotient, remainder := LargeParts(f, e);
    var head := FillDigits32(quotient, 5, buffer, 0);
    ghost var s := buffer[..head];
    length := FillDigits64FixedLength(remainder, buffer, head);
    assert buffer[..length] == s + buffer[head..length];
    DecConcat(s, buffer[head..length]);
  }

  /** Up to 64 bits before the point and none behind it. */
  method WordNumber(f: nat, e: nat, buffer: array<int>) returns (length: nat)
    requires f < 0x20_0000_0000_0000 && e <= 11 && buffer.Length >= 20
    modifies buffer
    ensures length <= buffer.Length && DecimalDigits(buffer[..length]) && Dec(buffer[..length]) == f * Pow(2, e)
  {
    hide Pow, Dec, Shl;
    Literals();
    PowMonotone(2, e, 11);
    MulLe(f, 0x20_0000_0000_0000 - 1, Pow(2, e));
    ShiftFits(f, e);
    length := FillDigits64(Shl(f, e), 20, buffer, 0);
    assert buffer[..length] == buffer[0..length];
  }

  /** The point lies inside the significand. */
  method SplitNumber(f: nat, e: int, count: nat, buffer: array<int>) returns (length: nat, point: int)
    requires f < 0x20_0000_0000_0000 && -53 < e < 0 && count <= 20 && buffer.Length >= 36
    modifies buffer
    ensures length <= buffer.Length && FixedFor(f, -e, count, buffer[..length], point)
  {
    hide Pow, Dec, Shl, FixedFor;
    var integrals := Shr(f, -e);
    Division(f, Pow(2, -e), integrals, f % Pow(2, -e));
    NotZeroPower(-e);
    MulLe(2, Pow(2, -e), integrals);
    ShiftFits(integrals, -e);
    var fractionals := f - Shl(integrals, -e);
    Literals();
    if integrals > 0xFFFF_FFFF {
      length := FillDigits64(integrals, 16, buffer, 0);
    } else {
      length := FillDigits32(integrals % W32, 16, buffer, 0);
    }
    assert buffer[..length] == buffer[0..length];
    length, point := FillFractionals(fractionals, e, count, buffer, length, length, f);
  }

  lemma NotZeroPower(k: nat)
    requires k > 0
    ensures Pow(2, k) >= 2
  {}

  /** Everything lies behind the point. */
  method SmallNumber(f: nat, e: int, count: nat, buffer: array<int>) returns (length: nat, point: int)
    requires f < 0x20_0000_0000_0000 && -128 <= e <= -53 && count <= 20 && buffer.Length >= 20
    modifies buffer
    ensures length <= buffer.Length && FixedFor(f, -e, count, buffer[..length], point)
  {
    SignificandBits(-e);
    assert buffer[..0] == [];
    assert Dec([]) == 0;
    hide Pow, FixedFor;
    length, point := FillFractionals(f, e, count, buffer, 0, 0, f);
  }

  lemma SignificandBits(p: nat)
    requires p >= 53
    ensures Pow(2, p) >= 0x20_0000_0000_0000
  {
    assert Pow(2, 2) == 4;
    hide Pow;
    Literals();
    PowAdd(2, 20, 20);
    PowAdd(2, 40, 11);
    PowAdd(2, 51, 2);
    PowMonotone(2, 53, p);
  }

  lemma FixedForMeans(f: nat, e: int, count: nat, digits: seq<int>, point: int)
    requires e <= 0 && FixedFor(f, -e, count, digits, point)
    ensures DecimalDigits(digits) && Printed(digits, point) == RoundedTo(V(f, e), count)
  {
    hide Num, HalfUp, RoundedTo;
    FractionRounds(f, -e, count);
  }

  method FastFixedDtoa(f: nat, e: int, count: nat, buffer: array<int>) returns (ok: bool, length: nat, point: int)
    requires f < 0x20_0000_0000_0000 && buffer.Length >= 36
    modifies buffer
    ensures ok <==> e <= 20 && count <= 20
    ensures ok ==> length <= buffer.Length && DecimalDigits(buffer[..length]) && Trimmed(buffer[..length])
    ensures ok ==> Printed(buffer[..length], point) == RoundedTo(V(f, e), count)
    ensures ok && length == 0 ==> point == 0 - count
  {
    hide Pow, Dec, Printed, RoundedTo, V, FixedFor;
    length, point := 0, 0;
    if e > 20 || count > 20 {
      return false, 0, 0;
    }
    if e + 53 > 64 {
      length := LargeNumber(f, e, buffer);
      point := length;
      WholeIsFixed(f, e, count, buffer[..length]);
    } else if e >= 0 {
      length := WordNumber(f, e, buffer);
      point := length;
      WholeIsFixed(f, e, count, buffer[..length]);
    } else if e > -53 {
      length, point := SplitNumber(f, e, count, buffer);
      FixedForMeans(f, e, count, buffer[..length], point);
    } else if e < -128 {
      VanishesInPlaces(f, e, count);
      length, point := 0, 0 - count;
      assert buffer[..0] == [];
      PrintedShort(point);
    } else {
      length, point := SmallNumber(f, e, count, buffer);
      FixedForMeans(f, e, count, buffer[..length], point);
    }
    length, point := TrimZeros(buffer, length, point);
    if length == 0 {
      assert buffer[..0] == [];
      PrintedShort(point);
      PrintedShort(0 - count);
      point := 0 - count;
    }
    ok := true;
  }

  /** The fast path and the bignum path give the same digits, once trailing zeros are dropped. */
  method FastAgreesWithBignum(f: nat, e: int, closer: bool, ep: int, count: nat, fast: array<int>, slow: array<int>)
    returns (ok: bool, length: nat, point: int, slowLength: nat, slowPoint: int)
    requires IsDouble(f, e) && Exp(10, ep - 1) <= V(f, e) < Exp(10, ep + 1) && fast != slow
    requires fast.Length >= 36 && slow.Length > 0 && ep + 1 + count <= slow.Length
    modifies fast, slow
    ensures ok <==> e <= 20 && count <= 20
    ensures ok ==> length == slowLength <= fast.Length && slowLength <= slow.Length
    ensures ok ==> fast[..length] == slow[..slowLength] && point == slowPoint
  {
    hide Printed, RoundedTo, V, Exp;
    if f % 2 == 1 {
      OddIsNotPowerOfTen(f, e, ep);
    }
    ok, length, point := FastFixedDtoa(f, e, count, fast);
    slowLength, slowPoint := FixedDtoa(f, e, closer, ep, count, slow);
    slowLength, slowPoint := TrimZeros(slow, slowLength, slowPoint);
    if ok {
      TrimmedUnique(fast[..length], point, slow[..slowLength], slowPoint);
      assert |fast[..length]| == |slow[..slowLength]|;
    }
  }
}
