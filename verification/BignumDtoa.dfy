/** BignumDtoa on the bignums themselves: what the digit generators do to numbers, done in place. */
module BignumDtoa {
  import opened Powers
  import Bigits
  import opened Bignums
  import opened BignumCompare
  import opened BignumDivide
  import BP = BignumPower
  import opened Decimal
  import opened DigitBuffer
  import opened StartValues
  import opened Shortest
  import opened Dtoa
  import opened ExactPowers
  import DtoaCapacity
  import C = Counted
  import F = FixedMode

  const CAPACITY := 127

  /** The object stands for v and has a place to spare. */
  ghost predicate Stored(b: Bignum, v: nat)
    reads b, b.bigits
  {
    b.Valid() && b.Value() == v && Bigits.Length(v) <= CAPACITY
  }

  predicate Apart(a: Bignum, b: Bignum) {
    a != b && a.bigits != b.bigits
  }

  /** A number takes no more places than its value needs. */
  lemma PlacesNeeded(b: Bignum)
    requires b.Valid()
    ensures b.BigitLength() <= Bigits.Length(b.Value()) && (b.used == 0 ==> b.Value() == 0) && b.Sig() <= b.Value()
  {
    hide Bigits.FromNat, Bigits.Val, Bigits.BPow, Bignum.WellFormed;
    if b.used > 0 {
      b.Bounds();
      LengthBetween(b.Value(), b.BigitLength() - 1);
    } else {
      NoDigits();
    }
    MulLe(1, Bigits.BPow(b.exponent), b.Sig());
  }

  lemma NoDigits()
    ensures Bigits.Val([]) == 0
  {}

  method Times10(b: Bignum, ghost v: nat)
    requires Stored(b, v) && Bigits.Length(10 * v) <= CAPACITY
    modifies b, b.bigits
    ensures Stored(b, 10 * v)
  {
    PlacesNeeded(b);
    BP.LengthMonotone(10 * b.Sig(), 10 * v);
    MulAssoc(10, b.Sig(), Bigits.BPow(b.exponent));
    hide Bigits.Length, Bignum.WellFormed, Bigits.BPow, Bignum.Sig;
    b.MultiplyByUInt32(10);
  }

  method DivideModulo10(n: Bignum, d: Bignum, ghost x: nat, ghost y: nat) returns (digit: nat)
    requires Stored(n, x) && Stored(d, y) && Apart(n, d) && y > 0 && x < 10 * y
    modifies n, n.bigits
    ensures digit == x / y && Stored(n, x % y)
  {
    PlacesNeeded(n);
    PlacesNeeded(d);
    hide Bigits.Length, Bignum.WellFormed, Bignum.Value;
    digit := DivideModuloIntBignum(n, d);
    BP.LengthMonotone(x % y, x);
  }

  /** The two tests of the digit loop, by comparing bignums without forming sums. */
  method Rooms(n: Bignum, d: Bignum, minus: Bignum, plus: Bignum, even: bool,
               ghost r: nat, ghost y: nat, ghost m: nat, ghost p: nat)
    returns (roomMinus: bool, roomPlus: bool)
    requires Stored(n, r) && Stored(d, y) && Stored(minus, m) && Stored(plus, p)
    ensures roomMinus == RoomMinus(even, r, m) && roomPlus == RoomPlus(even, r, p, y)
  {
    hide Bigits.Length, Bignum.WellFormed, Bignum.Value;
    var c := Compare(n, minus);
    roomMinus := if even then c <= 0 else c < 0;
    c := PlusCompare(n, plus, d);
    roomPlus := if even then c >= 0 else c > 0;
  }

  /** Everything but the denominator times ten; the two distances may be one object. */
  method NextPlace(n: Bignum, minus: Bignum, plus: Bignum, ghost r: nat, ghost m: nat, ghost p: nat, ghost y: nat)
    requires Stored(n, r) && Stored(minus, m) && Stored(plus, p) && r <= y && m <= y && p <= y
    requires Bigits.Length(10 * y) <= CAPACITY && Apart(n, minus) && Apart(n, plus)
    requires plus == minus || Apart(minus, plus)
    modifies n, n.bigits, minus, minus.bigits, plus, plus.bigits
    ensures Stored(n, 10 * r) && Stored(minus, 10 * m) && Stored(plus, 10 * p)
  {
    BP.LengthMonotone(10 * r, 10 * y);
    BP.LengthMonotone(10 * m, 10 * y);
    BP.LengthMonotone(10 * p, 10 * y);
    hide Bigits.Length, Bignum.Valid, Bignum.Value, Bignum.WellFormed;
    Times10(n, r);
    Times10(minus, m);
    if minus != plus {
      Times10(plus, p);
    }
  }

  /** The last digit after the stop. */
  method RoundLastDigit(n: Bignum, d: Bignum, roomMinus: bool, roomPlus: bool, buffer: array<int>, length: nat,
                        ghost z: Scaled, ghost r: nat, ghost m: nat, ghost p: nat)
    requires Stored(n, r) && Stored(d, z.d) && roomMinus == RoomMinus(z.even, r, m) && roomPlus == RoomPlus(z.even, r, p, z.d)
    requires 0 < length <= buffer.Length && DecimalDigits(buffer[..length]) && (roomMinus || roomPlus)
    requires buffer[length - 1] == 9 ==> !roomPlus
    requires buffer[0] > 0 || (length == 1 && !roomMinus)
    modifies buffer
    ensures Digits(buffer[..length])
    ensures Dec(buffer[..length]) == old(Dec(buffer[..length]))
              + if RoundsUp(z.even, r, m, p, z.d, old(Dec(buffer[..length])) % 2 == 1) then 1 else 0
  {
    hide Bigits.Length, Bignum.WellFormed, Bignum.Value, Dec;
    LastParity(buffer[..length]);
    if roomMinus && roomPlus {
      var compare := PlusCompare(n, n, d);
      if compare > 0 || (compare == 0 && buffer[length - 1] % 2 != 0) {
        IncrementLast(buffer, length);
      }
    } else if !roomMinus {
      IncrementLast(buffer, length);
    }
  }

  /** The four bignums of a conversion; the distances may share an object. */
  predicate Separate(n: Bignum, d: Bignum, minus: Bignum, plus: Bignum) {
    && Apart(n, d) && Apart(n, minus) && Apart(n, plus) && Apart(d, minus) && Apart(d, plus)
    && (plus == minus || Apart(minus, plus))
  }

  ghost predicate Loaded(n: Bignum, d: Bignum, minus: Bignum, plus: Bignum, num: nat, y: nat, m: nat, p: nat)
    reads n, n.bigits, d, d.bigits, minus, minus.bigits, plus, plus.bigits
  {
    Separate(n, d, minus, plus) && Stored(n, num) && Stored(d, y) && Stored(minus, m) && Stored(plus, p)
  }

  /** The digit loop on the bignums: the same digits as on the numbers they stand for. */
  method GenerateShortest(n: Bignum, d: Bignum, minus: Bignum, plus0: Bignum, buffer: array<int>, ghost z: Scaled, even: bool)
    returns (length: nat)
    requires Loaded(n, d, minus, plus0, z.n, z.d, z.minus, z.plus) && z.even == even && plus0 != minus
    requires InRange(z) && Bigits.Length(10 * z.d) <= CAPACITY
    requires buffer.Length > 0 && z.d <= z.minus * Pow(10, buffer.Length - 1)
    modifies n, n.bigits, minus, minus.bigits, plus0, plus0.bigits, buffer
    ensures 0 < length <= buffer.Length && Digits(buffer[..length])
    ensures BestAt(z, length - 1, Dec(buffer[..length]))
  {
    hide Pow, Dec, Inside, Distance, NoneShorter, Remainder, Shortest.Pending, BestAt, Bigits.Length, Stored;
    var plus := SharedDistance(minus, plus0, z.minus, z.plus);
    length := 0;
    ghost var num: nat, m: nat, p: nat := z.n, z.minus, z.plus;
    StartGenerating(z);
    while true
      invariant length < buffer.Length && Generating(z, buffer[..length], num, m, p)
      invariant Loaded(n, d, minus, plus, num, z.d, m, p)
      decreases z.d - m
    {
      NumberBelow(z, buffer[..length], num, m, p);
      var digit := DivideModulo10(n, d, num, z.d);
      StepFacts(z, buffer[..length], num, m, p, digit, num % z.d);
      num := num % z.d;
      Emit(buffer, length, digit);
      length := length + 1;
      var roomMinus, roomPlus := Rooms(n, d, minus, plus, even, num, z.d, m, p);
      if !roomMinus && !roomPlus {
        StepGoesOn(z, buffer[..length], num, m, p);
        BufferHolds(z, buffer.Length, length - 1, m);
        NextPlace(n, minus, plus, num, m, p, z.d);
        num, m, p := 10 * num, 10 * m, 10 * p;
      } else {
        ChoiceIsBest(z, length - 1, Dec(buffer[..length]), num, m, p);
        RoundLastDigit(n, d, roomMinus, roomPlus, buffer, length, z, num, m, p);
        return;
      }
    }
  }

  /** Equal distances are kept in one object from then on. */
  method SharedDistance(minus: Bignum, plus0: Bignum, ghost m: nat, ghost p: nat) returns (plus: Bignum)
    requires Stored(minus, m) && Stored(plus0, p)
    ensures plus == if m == p then minus else plus0
  {
    hide Bigits.Length, Bignum.WellFormed, Bignum.Value;
    var c := Compare(minus, plus0);
    plus := if c == 0 then minus else plus0;
  }

  lemma NumberBelow(z: Scaled, s: seq<int>, num: nat, m: nat, p: nat)
    requires InRange(z) && Generating(z, s, num, m, p)
    ensures num < 10 * z.d
  {}

  /** There is room for numerator and denominator and what the conversion multiplies them by. */
  ghost predicate Room(f: nat, unit: nat, den: nat) {
    forall x: nat {:trigger Bigits.Length(x)} :: x <= 80 * (f * unit) || x <= 80 * den ==> Bigits.Length(x) <= CAPACITY
  }

  lemma DoublesHaveRoom(f: nat, e: int, ep: int, unit: nat, den: nat)
    requires DtoaCapacity.Finite(f, e) && Exp(10, ep - 1) <= V(f, e) < Exp(10, ep + 1)
    requires UnitFraction(e, ep, unit, den)
    ensures Room(f, unit, den) && -359 < ep < 343
  {
    hide Exp, V, UnitFraction, Bigits.Length;
    DtoaCapacity.EstimateRange(f, e, ep);
    forall x: nat | x <= 80 * (f * unit) || x <= 80 * den
      ensures Bigits.Length(x) <= CAPACITY
    {
      DtoaCapacity.StartFits(f, e, ep, unit, den, x);
    }
  }

  method Shift(b: Bignum, k: nat, ghost v: nat, ghost w: nat)
    requires Stored(b, v) && w == v * Pow(2, k) && Bigits.Length(w) <= CAPACITY
    modifies b, b.bigits
    ensures Stored(b, w)
  {
    PlacesNeeded(b);
    hide Bigits.Length, Bignum.WellFormed, Bignum.Value;
    b.ShiftLeft(k);
  }

  method AssignTens(b: Bignum, k: nat)
    requires Stored(b, 0) && k <= 1000 && Bigits.Length(Pow(10, k)) <= CAPACITY
    modifies b, b.bigits
    ensures Stored(b, Pow(10, k))
  {
    OddTen();
    hide Bigits.Length, Bignum.WellFormed, Bignum.Value, Pow, BP.OddPart, BP.BitSize;
    BP.AssignPowerUInt16(b, 10, k);
  }

  lemma OddTen()
    ensures BP.OddPart(10) == 5 && BP.BitSize(5) == 3
  {
    assert BP.BitSize(2) == 2;
  }

  method TimesWord(b: Bignum, factor: nat, ghost v: nat, ghost w: nat)
    requires Stored(b, v) && 0 < factor < 0x1_0000_0000_0000_0000 && w == factor * v && Bigits.Length(w) <= CAPACITY
    modifies b, b.bigits
    ensures Stored(b, w)
  {
    PlacesNeeded(b);
    MulLe(b.Sig(), v, factor);
    BP.LengthMonotone(factor * b.Sig(), w);
    MulAssoc(factor, b.Sig(), Bigits.BPow(b.exponent));
    hide Bigits.Length, Bignum.WellFormed, Bigits.BPow, Bignum.Sig;
    b.MultiplyByUInt64(factor);
  }

  method AssignWord(b: Bignum, v: nat)
    requires Stored(b, 0) && v < 0x1_0000_0000_0000_0000 && Bigits.Length(v) <= CAPACITY
    modifies b, b.bigits
    ensures Stored(b, v)
  {
    b.AssignUInt64(v);
  }

  method AssignOne(b: Bignum)
    requires Stored(b, 0) && Bigits.Length(1) <= CAPACITY
    modifies b, b.bigits
    ensures Stored(b, 1)
  {
    b.AssignUInt16(1);
  }

  method Copy(b: Bignum, other: Bignum, ghost v: nat, ghost w: nat)
    requires Stored(b, w) && Stored(other, v) && Apart(b, other)
    modifies b, b.bigits
    ensures Stored(b, v)
  {
    hide Bigits.Length;
    b.AssignBignum(other);
  }

  lemma RoomFor(f: nat, unit: nat, den: nat, x: nat)
    requires Room(f, unit, den) && f > 0 && unit > 0 && x == f * unit
    ensures Bigits.Length(1) <= CAPACITY && Bigits.Length(f) <= CAPACITY
    ensures Bigits.Length(unit) <= CAPACITY && Bigits.Length(2 * unit) <= CAPACITY
    ensures Bigits.Length(x) <= CAPACITY && Bigits.Length(2 * x) <= CAPACITY && Bigits.Length(4 * x) <= CAPACITY
    ensures Bigits.Length(den) <= CAPACITY && Bigits.Length(2 * den) <= CAPACITY && Bigits.Length(4 * den) <= CAPACITY
    ensures Bigits.Length(10 * den) <= CAPACITY && Bigits.Length(20 * den) <= CAPACITY && Bigits.Length(40 * den) <= CAPACITY
  {
    hide Bigits.Length;
    MulLe(1, f, unit);
    MulLe(1, unit, f);
  }

  lemma OneShift(v: nat)
    ensures v * Pow(2, 1) == 2 * v
  {}

  /** Numerator, denominator and distances before the closer boundary is looked at. */
  ghost predicate Begun(n: Bignum, d: Bignum, minus: Bignum, plus: Bignum, x: nat, unit: nat, den: nat, need: bool)
    reads n, n.bigits, d, d.bigits, minus, minus.bigits, plus, plus.bigits
  {
    if need then Loaded(n, d, minus, plus, 2 * x, 2 * den, unit, unit)
    else Loaded(n, d, minus, plus, x, den, 0, 0)
  }

  /** The common denominator of two that the distances need. */
  method Halves(n: Bignum, d: Bignum, need: bool, ghost x: nat, ghost y: nat)
    requires Stored(n, x) && Stored(d, y) && Apart(n, d)
    requires Bigits.Length(2 * x) <= CAPACITY && Bigits.Length(2 * y) <= CAPACITY
    modifies n, n.bigits, d, d.bigits
    ensures Stored(n, if need then 2 * x else x) && Stored(d, if need then 2 * y else y)
  {
    OneShift(x);
    OneShift(y);
    hide Pow, Bigits.Length, Stored;
    if need {
      Shift(d, 1, y, 2 * y);
      Shift(n, 1, x, 2 * x);
    }
  }

  method AssignPower(b: Bignum, k: nat)
    requires Stored(b, 0) && Bigits.Length(1) <= CAPACITY && Bigits.Length(Pow(2, k)) <= CAPACITY
    modifies b, b.bigits
    ensures Stored(b, Pow(2, k))
  {
    hide Pow, Bigits.Length, Stored;
    AssignOne(b);
    Shift(b, k, 1, Pow(2, k));
  }

  method PositiveFraction(n: Bignum, d: Bignum, f: nat, e: nat, ep: nat, need: bool, ghost x: nat)
    requires Stored(n, 0) && Stored(d, 0) && Apart(n, d) && 0 < f < 0x1_0000_0000_0000_0000
    requires Room(f, Pow(2, e), Pow(10, ep)) && ep <= 1000 && x == f * Pow(2, e)
    modifies n, n.bigits, d, d.bigits
    ensures Stored(n, if need then 2 * x else x) && Stored(d, if need then 2 * Pow(10, ep) else Pow(10, ep))
  {
    RoomFor(f, Pow(2, e), Pow(10, ep), x);
    hide Room, Pow, Bigits.Length, Stored;
    AssignWord(n, f);
    Shift(n, e, f, x);
    AssignTens(d, ep);
    Halves(n, d, need, x, Pow(10, ep));
  }

  method EqualPowers(minus: Bignum, plus: Bignum, e: nat)
    requires Stored(minus, 0) && Stored(plus, 0) && Apart(minus, plus)
    requires Bigits.Length(1) <= CAPACITY && Bigits.Length(Pow(2, e)) <= CAPACITY
    modifies minus, minus.bigits, plus, plus.bigits
    ensures Stored(minus, Pow(2, e)) && Stored(plus, Pow(2, e))
  {
    hide Pow, Bigits.Length, Stored;
    AssignPower(plus, e);
    AssignPower(minus, e);
  }

  method StartPositive(n: Bignum, d: Bignum, minus: Bignum, plus: Bignum, f: nat, e: nat, ep: nat, need: bool, ghost x: nat)
    requires Loaded(n, d, minus, plus, 0, 0, 0, 0) && plus != minus && 0 < f < 0x1_0000_0000_0000_0000
    requires Room(f, Pow(2, e), Pow(10, ep)) && ep <= 1000 && x == f * Pow(2, e)
    modifies n, n.bigits, d, d.bigits, minus, minus.bigits, plus, plus.bigits
    ensures Begun(n, d, minus, plus, x, Pow(2, e), Pow(10, ep), need)
  {
    RoomFor(f, Pow(2, e), Pow(10, ep), x);
    hide Room, Pow, Bigits.Length, Stored;
    PositiveFraction(n, d, f, e, ep, need, x);
    if need {
      EqualPowers(minus, plus, e);
    }
  }

  method NegativeFraction(n: Bignum, d: Bignum, f: nat, shift: nat, ep: nat, need: bool, ghost den: nat)
    requires Stored(n, 0) && Stored(d, 0) && Apart(n, d) && 0 < f < 0x1_0000_0000_0000_0000
    requires Room(f, 1, den) && den == Pow(10, ep) * Pow(2, shift) && ep <= 1000
    modifies n, n.bigits, d, d.bigits
    ensures Stored(n, if need then 2 * f else f) && Stored(d, if need then 2 * den else den)
  {
    RoomFor(f, 1, den, f);
    FactorFits(Pow(10, ep), Pow(2, shift), den);
    hide Room, Pow, Bigits.Length, Stored;
    AssignWord(n, f);
    AssignTens(d, ep);
    Shift(d, shift, Pow(10, ep), den);
    Halves(n, d, need, f, den);
  }

  lemma FactorFits(a: nat, b: nat, den: nat)
    requires den == a * b && b > 0
    ensures Bigits.Length(a) <= Bigits.Length(den)
  {
    hide Bigits.Length;
    MulLe(1, b, a);
    BP.LengthMonotone(a, den);
  }

  method EqualOnes(minus: Bignum, plus: Bignum)
    requires Stored(minus, 0) && Stored(plus, 0) && Apart(minus, plus) && Bigits.Length(1) <= CAPACITY
    modifies minus, minus.bigits, plus, plus.bigits
    ensures Stored(minus, 1) && Stored(plus, 1)
  {
    hide Bigits.Length, Stored;
    AssignOne(plus);
    AssignOne(minus);
  }

  method StartNegative(n: Bignum, d: Bignum, minus: Bignum, plus: Bignum, f: nat, shift: nat, ep: nat, need: bool, ghost den: nat)
    requires Loaded(n, d, minus, plus, 0, 0, 0, 0) && plus != minus && 0 < f < 0x1_0000_0000_0000_0000
    requires Room(f, 1, den) && den == Pow(10, ep) * Pow(2, shift) && ep <= 1000
    modifies n, n.bigits, d, d.bigits, minus, minus.bigits, plus, plus.bigits
    ensures Begun(n, d, minus, plus, f, 1, den, need)
  {
    RoomFor(f, 1, den, f);
    hide Room, Pow, Bigits.Length, Stored;
    NegativeFraction(n, d, f, shift, ep, need, den);
    if need {
      EqualOnes(minus, plus);
    }
  }

  /** The numerator serves as the power of ten until the distances have a copy of it. */
  method EqualTens(n: Bignum, minus: Bignum, plus: Bignum, tens: nat, need: bool)
    requires Stored(n, 0) && Stored(minus, 0) && Stored(plus, 0) && Apart(n, minus) && Apart(n, plus) && Apart(minus, plus)
    requires tens <= 1000 && Bigits.Length(Pow(10, tens)) <= CAPACITY
    modifies n, n.bigits, minus, minus.bigits, plus, plus.bigits
    ensures Stored(n, Pow(10, tens))
    ensures Stored(minus, if need then Pow(10, tens) else 0) && Stored(plus, if need then Pow(10, tens) else 0)
  {
    hide Pow, Bigits.Length, Stored;
    AssignTens(n, tens);
    if need {
      Copy(plus, n, Pow(10, tens), 0);
      Copy(minus, n, Pow(10, tens), 0);
    }
  }

  method TinyFraction(n: Bignum, d: Bignum, f: nat, shift: nat, need: bool, ghost unit: nat, ghost x: nat)
    requires Stored(n, unit) && Stored(d, 0) && Apart(n, d) && 0 < f < 0x1_0000_0000_0000_0000
    requires Room(f, unit, Pow(2, shift)) && x == f * unit && unit > 0
    modifies n, n.bigits, d, d.bigits
    ensures Stored(n, if need then 2 * x else x) && Stored(d, if need then 2 * Pow(2, shift) else Pow(2, shift))
  {
    RoomFor(f, unit, Pow(2, shift), x);
    hide Room, Pow, Bigits.Length, Stored;
    TimesWord(n, f, unit, x);
    AssignPower(d, shift);
    Halves(n, d, need, x, Pow(2, shift));
  }

  method StartTiny(n: Bignum, d: Bignum, minus: Bignum, plus: Bignum, f: nat, shift: nat, tens: nat, need: bool, ghost x: nat)
    requires Loaded(n, d, minus, plus, 0, 0, 0, 0) && plus != minus && 0 < f < 0x1_0000_0000_0000_0000
    requires Room(f, Pow(10, tens), Pow(2, shift)) && tens <= 1000 && x == f * Pow(10, tens)
    modifies n, n.bigits, d, d.bigits, minus, minus.bigits, plus, plus.bigits
    ensures Begun(n, d, minus, plus, x, Pow(10, tens), Pow(2, shift), need)
  {
    RoomFor(f, Pow(10, tens), Pow(2, shift), x);
    hide Room, Pow, Bigits.Length, Stored;
    EqualTens(n, minus, plus, tens, need);
    TinyFraction(n, d, f, shift, need, Pow(10, tens), x);
  }

  /** The start values: numerator, denominator and distances, everything but one doubled when the lower boundary is closer. */
  ghost predicate Ready(n: Bignum, d: Bignum, minus: Bignum, plus: Bignum, x: nat, unit: nat, den: nat, need: bool, closer: bool)
    reads n, n.bigits, d, d.bigits, minus, minus.bigits, plus, plus.bigits
  {
    if !need then Loaded(n, d, minus, plus, x, den, 0, 0)
    else if closer then Loaded(n, d, minus, plus, 4 * x, 4 * den, unit, 2 * unit)
    else Loaded(n, d, minus, plus, 2 * x, 2 * den, unit, unit)
  }

  /** The three cases of the source. */
  method StartCases(n: Bignum, d: Bignum, minus: Bignum, plus: Bignum, f: nat, e: int, ep: int, need: bool,
                    ghost unit: nat, ghost den: nat, ghost x: nat)
    requires Loaded(n, d, minus, plus, 0, 0, 0, 0) && plus != minus && 0 < f < 0x1_0000_0000_0000_0000
    requires UnitFraction(e, ep, unit, den) && Room(f, unit, den) && -1000 <= ep <= 1000 && x == f * unit
    modifies n, n.bigits, d, d.bigits, minus, minus.bigits, plus, plus.bigits
    ensures Begun(n, d, minus, plus, x, unit, den, need)
  {
    hide Room, Pow, Bigits.Length, Stored, Loaded, Begun;
    if e >= 0 {
      StartPositive(n, d, minus, plus, f, e, ep, need, x);
    } else if ep >= 0 {
      StartNegative(n, d, minus, plus, f, -e, ep, need, den);
    } else {
      StartTiny(n, d, minus, plus, f, -e, -ep, need, x);
    }
  }

  method StartBignums(n: Bignum, d: Bignum, minus: Bignum, plus: Bignum, f: nat, e: int, closer: bool, ep: int, need: bool,
                      ghost unit: nat, ghost den: nat, ghost x: nat)
    requires Loaded(n, d, minus, plus, 0, 0, 0, 0) && plus != minus && 0 < f < 0x1_0000_0000_0000_0000
    requires UnitFraction(e, ep, unit, den) && Room(f, unit, den) && -1000 <= ep <= 1000 && x == f * unit && unit > 0
    modifies n, n.bigits, d, d.bigits, minus, minus.bigits, plus, plus.bigits
    ensures Ready(n, d, minus, plus, x, unit, den, need, closer)
  {
    RoomFor(f, unit, den, x);
    hide Room, Pow, Bigits.Length, Stored, UnitFraction;
    StartCases(n, d, minus, plus, f, e, ep, need, unit, den, x);
    if need && closer {
      DoubleAllBut(n, d, plus, 2 * x, 2 * den, unit);
    }
  }

  method DoubleAllBut(n: Bignum, d: Bignum, plus: Bignum, ghost x: nat, ghost y: nat, ghost p: nat)
    requires Stored(n, x) && Stored(d, y) && Stored(plus, p) && Apart(n, d) && Apart(n, plus) && Apart(d, plus)
    requires Bigits.Length(2 * x) <= CAPACITY && Bigits.Length(2 * y) <= CAPACITY && Bigits.Length(2 * p) <= CAPACITY
    modifies n, n.bigits, d, d.bigits, plus, plus.bigits
    ensures Stored(n, 2 * x) && Stored(d, 2 * y) && Stored(plus, 2 * p)
  {
    OneShift(p);
    hide Pow, Bigits.Length, Stored;
    Halves(n, d, true, x, y);
    Shift(plus, 1, p, 2 * p);
  }

  /** FixupMultiply10 on the bignums. */
  method Fixup(n: Bignum, d: Bignum, minus: Bignum, plus: Bignum, ep: int, ghost z: Scaled, even: bool)
    returns (point: int, ghost y: Scaled)
    requires Loaded(n, d, minus, plus, z.n, z.d, z.minus, z.plus) && z.even == even && plus != minus
    requires z.minus <= z.plus && Bigits.Length(10 * z.d) <= CAPACITY
    modifies n, n.bigits, minus, minus.bigits, plus, plus.bigits
    ensures Loaded(n, d, minus, plus, y.n, y.d, y.minus, y.plus)
    ensures if ReachesOne(z) then y == z && point == ep + 1
            else point == ep && y == Scaled(10 * z.n, z.d, 10 * z.minus, 10 * z.plus, z.even)
  {
    hide Bigits.Length, Stored;
    var inRange := AtLeastOne(n, plus, d, even, z);
    if inRange {
      point, y := ep + 1, z;
    } else {
      DistancesTimes10(minus, plus, z.minus, z.plus, z.d);
      BP.LengthMonotone(10 * z.n, 10 * z.d);
      Times10(n, z.n);
      point, y := ep, Scaled(10 * z.n, z.d, 10 * z.minus, 10 * z.plus, z.even);
    }
  }

  method DistancesTimes10(minus: Bignum, plus: Bignum, ghost m: nat, ghost p: nat, ghost y: nat)
    requires Stored(minus, m) && Stored(plus, p) && Apart(minus, plus) && m <= y && p <= y && Bigits.Length(10 * y) <= CAPACITY
    modifies minus, minus.bigits, plus, plus.bigits
    ensures Stored(minus, 10 * m) && Stored(plus, 10 * p)
  {
    BP.LengthMonotone(10 * m, 10 * y);
    BP.LengthMonotone(10 * p, 10 * y);
    var same := SharedDistance(minus, plus, m, p);
    hide Bigits.Length, Stored;
    Times10(minus, m);
    if same == minus {
      Copy(plus, minus, 10 * m, p);
    } else {
      Times10(plus, p);
    }
  }

  method AtLeastOne(n: Bignum, plus: Bignum, d: Bignum, even: bool, ghost z: Scaled) returns (inRange: bool)
    requires Stored(n, z.n) && Stored(plus, z.plus) && Stored(d, z.d) && even == z.even
    ensures inRange == ReachesOne(z)
  {
    hide Bigits.Length, Bignum.WellFormed, Bignum.Value;
    var c := PlusCompare(n, plus, d);
    inRange := if even then c >= 0 else c > 0;
  }

  method NewBignum() returns (b: Bignum)
    ensures fresh(b) && fresh(b.bigits) && Stored(b, 0)
  {
    b := new Bignum();
    NoPlaces();
  }

  lemma NoPlaces()
    ensures Bigits.Length(0) <= CAPACITY
  {}

  method NewBignums() returns (n: Bignum, d: Bignum, minus: Bignum, plus: Bignum)
    ensures fresh(n) && fresh(n.bigits) && fresh(d) && fresh(d.bigits)
    ensures fresh(minus) && fresh(minus.bigits) && fresh(plus) && fresh(plus.bigits)
    ensures Loaded(n, d, minus, plus, 0, 0, 0, 0) && plus != minus
  {
    hide Stored, Bigits.Length;
    n := NewBignum();
    d := NewBignum();
    minus := NewBignum();
    plus := NewBignum();
  }

  ghost function UnitOf(e: int, ep: int): nat {
    if e >= 0 then Pow(2, e) else if ep >= 0 then 1 else Pow(10, -ep)
  }

  ghost function DenominatorOf(e: int, ep: int): nat
    requires e >= 0 ==> ep >= 0
  {
    if e >= 0 then Pow(10, ep) else if ep >= 0 then Pow(10, ep) * Pow(2, -e) else Pow(2, -e)
  }

  /** The fraction the start values stand for. */
  ghost function StartOf(x: nat, unit: nat, den: nat, need: bool, closer: bool, even: bool): Scaled {
    if !need then Scaled(x, den, 0, 0, even)
    else if closer then Scaled(4 * x, 4 * den, unit, 2 * unit, even)
    else Scaled(2 * x, 2 * den, unit, unit, even)
  }

  lemma StartMeans(f: nat, e: int, closer: bool, ep: int, unit: nat, den: nat, x: nat, even: bool)
    requires UnitFraction(e, ep, unit, den) && x == f * unit && f > 0
    ensures var z := StartOf(x, unit, den, true, closer, even);
            Represents(z, V(f, e), Above(e), Below(e, closer), ep)
            && 0 < z.minus <= z.plus <= 2 * z.minus && z.n == 2 * f * z.plus
  {
    hide Exp, Pow, V, Above, Below, Stands, UnitFraction;
    UnitStands(e, ep, unit, den);
    if closer {
      CloserBoundaries(f, e, ep, unit, den, x);
    } else {
      PlainBoundaries(f, e, ep, unit, den, x);
    }
  }

  lemma PlainMeans(f: nat, e: int, ep: int, unit: nat, den: nat, x: nat, even: bool)
    requires UnitFraction(e, ep, unit, den) && x == f * unit
    ensures Represents(StartOf(x, unit, den, false, false, even), V(f, e), 0.0, 0.0, ep)
  {
    hide Exp, Pow, UnitFraction;
    UnitStands(e, ep, unit, den);
    StandsTimes(unit, den, ep, Exp(2, e), f);
  }

  lemma FitsTenTimes(f: nat, unit: nat, den: nat, x: nat, need: bool, closer: bool, even: bool)
    requires Room(f, unit, den) && f > 0 && unit > 0 && x == f * unit
    ensures Bigits.Length(10 * StartOf(x, unit, den, need, closer, even).d) <= CAPACITY
  {
    RoomFor(f, unit, den, x);
  }

  /** All four bignums with their start values, for any finite number and any admissible estimate. */
  method Prepare(f: nat, e: int, closer: bool, ep: int, need: bool, even: bool)
    returns (n: Bignum, d: Bignum, minus: Bignum, plus: Bignum, ghost z: Scaled, ghost unit: nat, ghost den: nat)
    requires DtoaCapacity.Finite(f, e) && Exp(10, ep - 1) <= V(f, e) < Exp(10, ep + 1) && (e >= 0 ==> ep >= 0)
    ensures fresh(n) && fresh(n.bigits) && fresh(d) && fresh(d.bigits)
    ensures fresh(minus) && fresh(minus.bigits) && fresh(plus) && fresh(plus.bigits)
    ensures UnitFraction(e, ep, unit, den) && z == StartOf(f * unit, unit, den, need, closer, even)
    ensures Loaded(n, d, minus, plus, z.n, z.d, z.minus, z.plus) && plus != minus
    ensures Bigits.Length(10 * z.d) <= CAPACITY
  {
    hide Exp, Pow, V, Bigits.Length, Stored, Room;
    unit, den := UnitOf(e, ep), DenominatorOf(e, ep);
    DoublesHaveRoom(f, e, ep, unit, den);
    UnitStands(e, ep, unit, den);
    FitsTenTimes(f, unit, den, f * unit, need, closer, even);
    hide UnitFraction, UnitOf, DenominatorOf;
    n, d, minus, plus := NewBignums();
    StartBignums(n, d, minus, plus, f, e, closer, ep, need, unit, den, f * unit);
    z := StartOf(f * unit, unit, den, need, closer, even);
  }

  lemma FixupMeans(z: Scaled, y: Scaled, ep: int, point: int, v: real, above: real, below: real)
    requires Represents(z, v, above, below, ep)
    requires if ReachesOne(z) then y == z && point == ep + 1
             else point == ep && y == Scaled(10 * z.n, z.d, 10 * z.minus, 10 * z.plus, z.even)
    ensures Represents(y, v, above, below, point - 1)
  {
    hide Exp, Stands;
    if !ReachesOne(z) {
      StandsDown(z.n, z.d, ep, v);
      StandsDown(z.minus, z.d, ep, below);
      StandsDown(z.plus, z.d, ep, above);
    }
  }

  lemma FixupBounds(z: Scaled, y: Scaled, f: nat, size: nat)
    requires y == z || y == Scaled(10 * z.n, z.d, 10 * z.minus, 10 * z.plus, z.even)
    requires z.plus <= 2 * z.minus && z.n == 2 * f * z.plus && InRange(y)
    requires size > 0 && 4 * f + 2 <= Pow(10, size - 1)
    ensures y.d <= y.minus * Pow(10, size - 1)
  {
    hide Pow;
    TenTimes(2 * f, z.plus);
    DigitsBound(y, f, size);
  }

  /** BignumDtoa in shortest mode, on bignums of 128 digits, for every finite double and float. */
  method ShortestMode(f: nat, e: int, closer: bool, ep: int, buffer: array<int>) returns (length: nat, point: int)
    requires DtoaCapacity.Finite(f, e) && Estimates(V(f, e), Above(e), ep)
    requires buffer.Length > 0 && 4 * f + 2 <= Pow(10, buffer.Length - 1)
    modifies buffer
    ensures 0 < length <= buffer.Length && Digits(buffer[..length])
    ensures ShortestFor(f % 2 == 0, V(f, e), Above(e), Below(e, closer), buffer[..length], point)
    ensures NearestFor(f % 2 == 0, V(f, e), Above(e), Below(e, closer), buffer[..length], point)
            <==> NoTenthIsNearer(f % 2 == 0, V(f, e), Above(e), Below(e, closer))
  {
    hide Exp, Pow, V, Above, Below, Represents, BestAt, ShortestFor, NearestFor, NoTenthIsNearer, UpperEnd, InRange, Dec, Stored, Bigits.Length,
         UnitFraction;
    ghost var v, above, below := V(f, e), Above(e), Below(e, closer);
    WholeNeedsPower(f, e, ep);
    var n, d, minus, plus;
    ghost var z, unit, den, y;
    n, d, minus, plus, z, unit, den := Prepare(f, e, closer, ep, true, f % 2 == 0);
    StartMeans(f, e, closer, ep, unit, den, f * unit, f % 2 == 0);
    BoundariesApart(f, e, closer);
    FixupInRange(z, ep, v, above, below);
    point, y := Fixup(n, d, minus, plus, ep, z, f % 2 == 0);
    FixupMeans(z, y, ep, point, v, above, below);
    FixupBounds(z, y, f, buffer.Length);
    length := GenerateShortest(n, d, minus, plus, buffer, y, f % 2 == 0);
    BestIsShortest(y, v, above, below, buffer[..length], point);
    UpperEndIs(y, v, above, below, point - 1);
    NearestUnlessTenth(y.even, v, above, below, buffer[..length], point);
  }

  /** All digits but the last, on the bignums. */
  method LeadingOnBignums(n: Bignum, d: Bignum, count: nat, buffer: array<int>, ghost num0: nat, ghost den: nat)
    returns (ghost num: nat)
    requires Stored(n, num0) && Stored(d, den) && Apart(n, d) && Bigits.Length(10 * den) <= CAPACITY
    requires count <= buffer.Length && den > 0 && num0 < 10 * den
    modifies n, n.bigits, buffer
    ensures Stored(n, num) && Stored(d, den)
    ensures DecimalDigits(buffer[..count]) && Dec(buffer[..count]) >= 0
    ensures C.Counting(num0, den, Pow(10, count), Dec(buffer[..count]), num)
    ensures num0 >= den && count > 0 ==> buffer[0] > 0
    ensures count == 0 ==> num == num0
  {
    hide Stored, Bigits.Length, Dec;
    num := num0;
    NoDigitsYet(buffer);
    for i := 0 to count
      invariant Stored(n, num) && Stored(d, den)
      invariant DecimalDigits(buffer[..i]) && C.Counting(num0, den, Pow(10, i), Dec(buffer[..i]), num)
      invariant if i == 0 then num == num0 else num0 >= den ==> buffer[0] > 0
    {
      var digit := DivideModulo10(n, d, num, den);
      C.CountStep(num0, den, Pow(10, i), Dec(buffer[..i]), num, digit, num % den);
      if i == 0 && num0 >= den {
        C.AtLeastOne(num0, den, digit, num % den);
      }
      Emit(buffer, i, digit);
      BP.LengthMonotone(10 * (num % den), 10 * den);
      Times10(n, num % den);
      num := 10 * (num % den);
    }
    DecBounds(buffer[..count]);
  }

  lemma NoDigitsYet(buffer: array<int>)
    ensures Dec(buffer[..0]) == 0 && Pow(10, 0) == 1
  {}

  method LastOnBignums(n: Bignum, d: Bignum, ghost num0: nat, ghost den: nat, ghost t: nat, ghost v: int, ghost num: nat)
    returns (digit: nat)
    requires Stored(n, num) && Stored(d, den) && Apart(n, d) && C.Counting(num0, den, t, v, num) && v >= 0
    modifies n, n.bigits
    ensures digit <= 10 && C.HalfUp(num0 * t, den) == 10 * v + digit
    ensures num >= den ==> digit > 0
  {
    digit := DivideModulo10(n, d, num, den);
    ghost var r := num % den;
    C.CountStep(num0, den, t, v, num, digit, r);
    C.HalfUpIs(num0 * t, den, 10 * v + digit, r);
    if num >= den {
      C.AtLeastOne(num, den, digit, r);
    }
    hide Bigits.Length, Bignum.WellFormed, Bignum.Value, C.HalfUp;
    var c := PlusCompare(n, n, d);
    if c >= 0 {
      digit := digit + 1;
    }
  }

  method GenerateCounted(n: Bignum, d: Bignum, count: nat, point: int, buffer: array<int>, ghost num0: nat, ghost den: nat)
    returns (length: nat, newPoint: int)
    requires Stored(n, num0) && Stored(d, den) && Apart(n, d) && Bigits.Length(10 * den) <= CAPACITY
    requires 0 < count <= buffer.Length && den > 0 && num0 < 10 * den
    modifies n, n.bigits, buffer
    ensures length == count && C.CountedFor(num0, den, count, point, buffer[..count], newPoint)
    ensures num0 >= den ==> buffer[0] > 0
  {
    hide C.HalfUp, Dec, C.Counting, Stored, Bigits.Length;
    ghost var num := LeadingOnBignums(n, d, count - 1, buffer, num0, den);
    var digit := LastOnBignums(n, d, num0, den, Pow(10, count - 1), Dec(buffer[..count - 1]), num);
    Emit(buffer, count - 1, digit);
    newPoint := C.PropagateCarry(buffer, count, point);
    length := count;
  }

  /** Whether the number is at least half a unit, found by raising the denominator. */
  method HalfReached(n: Bignum, d: Bignum, ghost num: nat, ghost den: nat) returns (up: bool)
    requires Stored(n, num) && Stored(d, den) && Apart(n, d) && Bigits.Length(10 * den) <= CAPACITY
    modifies d, d.bigits
    ensures up == (num + num >= 10 * den)
  {
    Times10(d, den);
    hide Bigits.Length, Bignum.WellFormed, Bignum.Value;
    var c := PlusCompare(n, n, d);
    up := c >= 0;
  }

  /** BignumToFixed on the bignums. */
  method ToFixed(n: Bignum, d: Bignum, places: int, point: int, buffer: array<int>, ghost num: nat, ghost den: nat, ghost v: real)
    returns (length: nat, newPoint: int)
    requires Stored(n, num) && Stored(d, den) && Apart(n, d) && Bigits.Length(10 * den) <= CAPACITY
    requires Stands(num, den, point - 1, v) && num < 10 * den
    requires 0 < buffer.Length && point + places <= buffer.Length
    modifies n, n.bigits, d, d.bigits, buffer
    ensures length <= buffer.Length && DecimalDigits(buffer[..length])
    ensures Printed(buffer[..length], newPoint) == F.RoundedTo(v, places)
    ensures num >= den && length > 0 ==> buffer[0] > 0
    ensures length == 0 ==> newPoint == -places
  {
    F.BelowTen(num, den, point, v);
    hide Exp, Num, Printed, F.RoundedTo, C.CountedFor, Stored, Bigits.Length;
    if -point > places {
      F.TinyRoundsToZero(v, point, places);
      length, newPoint := 0, -places;
      F.PrintedShort(newPoint);
      assert buffer[..0] == [];
    } else if -point == places {
      F.SingleUnit(num, den, point, places, v);
      F.PrintedShort(point);
      var up := HalfReached(n, d, num, den);
      if up {
        buffer[0] := 1;
        length, newPoint := 1, point + 1;
        assert buffer[..1] == [1];
      } else {
        length, newPoint := 0, point;
        assert buffer[..0] == [];
      }
    } else {
      length, newPoint := GenerateCounted(n, d, point + places, point, buffer, num, den);
      F.CountedIsRounded(num, den, point, places, v, buffer[..length], newPoint);
      F.CountedDigits(num, den, point + places, point, buffer[..length], newPoint);
    }
  }

  /** Start values and fixup without boundaries. */
  method PlainStart(f: nat, e: int, closer: bool, ep: int) returns (n: Bignum, d: Bignum, point: int, ghost y: Scaled)
    requires DtoaCapacity.Finite(f, e) && Exp(10, ep - 1) <= V(f, e) < Exp(10, ep + 1)
    requires f % 2 == 0 || V(f, e) != Exp(10, ep)
    ensures fresh(n) && fresh(n.bigits) && fresh(d) && fresh(d.bigits)
    ensures Stored(n, y.n) && Stored(d, y.d) && Apart(n, d) && Bigits.Length(10 * y.d) <= CAPACITY
    ensures Represents(y, V(f, e), 0.0, 0.0, point - 1) && y.d <= y.n < 10 * y.d
    ensures point == ep || point == ep + 1
  {
    hide Exp, Pow, V, Stands, Stored, Bigits.Length, UnitFraction;
    WholeNeedsPower(f, e, ep);
    ghost var z, unit, den;
    var minus, plus;
    n, d, minus, plus, z, unit, den := Prepare(f, e, closer, ep, false, f % 2 == 0);
    PlainMeans(f, e, ep, unit, den, f * unit, f % 2 == 0);
    F.FixupBelowTen(z, ep, V(f, e));
    point, y := Fixup(n, d, minus, plus, ep, z, f % 2 == 0);
    FixupMeans(z, y, ep, point, V(f, e), 0.0, 0.0);
  }

  /** BignumDtoa in fixed mode, on bignums of 128 digits. */
  method FixedOnBignums(f: nat, e: int, closer: bool, ep: int, places: int, buffer: array<int>)
    returns (length: nat, point: int)
    requires DtoaCapacity.Finite(f, e) && Exp(10, ep - 1) <= V(f, e) < Exp(10, ep + 1)
    requires f % 2 == 0 || V(f, e) != Exp(10, ep)
    requires 0 < buffer.Length && ep + 1 + places <= buffer.Length
    modifies buffer
    ensures length <= buffer.Length && DecimalDigits(buffer[..length])
    ensures Printed(buffer[..length], point) == F.RoundedTo(V(f, e), places)
    ensures length > 0 ==> buffer[0] > 0
    ensures length == 0 ==> point == -places
  {
    hide Exp, V, Stands, Printed, F.RoundedTo, Stored, Bigits.Length;
    if -ep - 1 > places {
      F.TinyRoundsToZero(V(f, e), ep + 1, places);
      length, point := 0, -places;
      F.PrintedShort(point);
      assert buffer[..0] == [];
    } else {
      var n, d;
      ghost var y;
      n, d, point, y := PlainStart(f, e, closer, ep);
      length, point := ToFixed(n, d, places, point, buffer, y.n, y.d, V(f, e));
    }
  }

  /** BignumDtoa in precision mode, on bignums of 128 digits. */
  method PrecisionOnBignums(f: nat, e: int, closer: bool, ep: int, count: nat, buffer: array<int>)
    returns (length: nat, point: int, ghost magnitude: int)
    requires DtoaCapacity.Finite(f, e) && Exp(10, ep - 1) <= V(f, e) < Exp(10, ep + 1)
    requires f % 2 == 0 || V(f, e) != Exp(10, ep)
    requires 0 < count <= buffer.Length
    modifies buffer
    ensures length == count && DecimalDigits(buffer[..count]) && buffer[0] > 0
    ensures Exp(10, magnitude - 1) <= V(f, e) < Exp(10, magnitude)
    ensures Printed(buffer[..count], point) == F.RoundedTo(V(f, e), count - magnitude)
  {
    hide Exp, V, Stands, Printed, F.RoundedTo, C.CountedFor, Stored, Bigits.Length;
    var n, d, newPoint;
    ghost var y;
    n, d, point, y := PlainStart(f, e, closer, ep);
    magnitude := point;
    F.BelowTen(y.n, y.d, point, V(f, e));
    ExactMeans(y.n, y.d, point - 1, V(f, e));
    length, newPoint := GenerateCounted(n, d, count, point, buffer, y.n, y.d);
    F.CountedIsRounded(y.n, y.d, point, count - point, V(f, e), buffer[..length], newPoint);
    F.CountedDigits(y.n, y.d, count, point, buffer[..length], newPoint);
    point := newPoint;
  }
}
