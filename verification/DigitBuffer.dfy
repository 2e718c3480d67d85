/** The steps the digit generators share: one division, one digit written. */
module DigitBuffer {
  import opened Decimal

  /** What DivideModuloIntBignum does to the numbers its arguments stand for. */
  method DivideModulo(x: nat, d: nat) returns (q: nat, r: nat)
    requires d > 0
    ensures q == x / d && r == x % d
  {
    q, r := x / d, x % d;
  }

  method Emit(buffer: array<int>, length: nat, digit: int)
    requires length < buffer.Length
    modifies buffer
    ensures buffer[..length + 1] == old(buffer[..length]) + [digit]
    ensures Dec(buffer[..length + 1]) == 10 * old(Dec(buffer[..length])) + digit
    ensures buffer[length + 1..] == old(buffer[length + 1..])
  {
    DecSnoc(buffer[..length], digit);
    buffer[length] := digit;
    assert buffer[..length + 1] == old(buffer[..length]) + [digit];
  }
}
