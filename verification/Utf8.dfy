/** UTF-8 encoding of code points, and the decoder used by the JSON printer. */
module Utf8 {
  import opened FbLayout

  predicate IsSurrogate(cp: nat) {
    0xD800 <= cp <= 0xDFFF
  }

  /** codePointToUtf8. */
  function Encode(cp: nat): (s: seq<Byte>) {
    if cp <= 0x7F then [cp]
    else if cp <= 0x7FF then [0xC0 + cp / 64, 0x80 + cp % 64]
    else if cp <= 0xFFFF then [0xE0 + cp / 4096, 0x80 + cp / 64 % 64, 0x80 + cp % 64]
    else if cp <= 0x10FFFF then [0xF0 + cp / 0x4_0000, 0x80 + cp / 4096 % 64, 0x80 + cp / 64 % 64, 0x80 + cp % 64]
    else []
  }

  datatype Decoded = Invalid | Point(cp: nat, length: nat)

  predicate IsContinuation(b: Byte) {
    b / 64 == 2
  }

  /** Six more bits. */
  function Joined(high: nat, b: int): nat {
    high * 64 + b % 64
  }

  function Doubled(x: int): nat {
    x * 2 % 256
  }

  /** The code point a text begins with: shortest forms of one to three bytes, no surrogates. */
  function Decode(s: seq<Byte>): Decoded {
    if s == [] then Invalid
    else if s[0] < 0x80 then Point(s[0], 1)
    else if s[0] < 0xC0 then Invalid
    else if s[0] < 0xE0 then
      if |s| < 2 || !IsContinuation(s[1]) then Invalid
      else
        var d := Joined(s[0] % 32, s[1]);
        if d < 0x80 then Invalid else Point(d, 2)
    else if s[0] < 0xF0 then
      if |s| < 3 || !IsContinuation(s[1]) || !IsContinuation(s[2]) then Invalid
      else
        var d := Joined(Joined(s[0] % 16, s[1]), s[2]);
        if d < 0x800 || IsSurrogate(d) then Invalid else Point(d, 3)
    else Invalid
  }

  /** The second bit shifted out tells two bytes from more, the third three from more. */
  lemma LeadBits(a: Byte, b: Byte, c: Byte)
    requires a >= 0xC0
    ensures Doubled(Doubled(a)) < 0x80 <==> a < 0xE0
    ensures a >= 0xE0 ==> (Doubled(Doubled(Doubled(a))) < 0x80 <==> a < 0xF0)
    ensures a < 0xE0 ==> Joined(a, b) % 0x800 == Joined(a % 32, b)
    ensures 0xE0 <= a < 0xF0 ==> Joined(Joined(a, b), c) % 0x1_0000 == Joined(Joined(a % 16, b), c) <= 0xFFFF
  {
    hide Doubled, Joined;
    ShiftedLead(a);
    SecondByte(a, b);
    ThirdByte(a, b, c);
  }

  lemma ShiftedLead(a: int)
    requires 0xC0 <= a < 0x100
    ensures Doubled(Doubled(a)) < 0x80 <==> a < 0xE0
    ensures a >= 0xE0 ==> (Doubled(Doubled(Doubled(a))) < 0x80 <==> a < 0xF0)
  {
    hide Doubled;
    DoubledIs(a);
    DoubledIs(Doubled(a));
    DoubledIs(Doubled(Doubled(a)));
  }

  lemma DoubledIs(x: int)
    requires 0 <= x < 0x100
    ensures Doubled(x) == if x < 0x80 then 2 * x else 2 * x - 0x100
  {}

  lemma SecondByte(a: int, b: int)
    ensures 0xC0 <= a < 0xE0 ==> Joined(a, b) % 0x800 == Joined(a % 32, b)
  {}

  lemma ThirdByte(a: int, b: int, c: int)
    ensures 0xE0 <= a < 0xF0 ==> Joined(Joined(a, b), c) % 0x1_0000 == Joined(Joined(a % 16, b), c) <= 0xFFFF
  {}

  /** The decoder as written: bits shifted out of the first byte count the continuation bytes. */
  method DecodeUtf8(s: seq<Byte>) returns (r: Decoded)
    ensures r == Decode(s)
  {
    if s == [] {
      return Invalid;
    }
    var fst: nat := s[0];
    if fst < 0x80 {
      return Point(fst, 1);
    }
    var d: nat := fst;
    if fst / 64 != 3 {
      return Invalid;
    }
    fst := Doubled(fst);
    var i := 1;
    while i != 3 && i < |s|
      invariant 1 <= i <= 3 && s != [] && s[0] >= 0xC0
      invariant i == 1 ==> d == s[0] && fst == Doubled(s[0])
      invariant i == 2 ==> |s| >= 2 && IsContinuation(s[1]) && s[0] >= 0xE0 && d == Joined(s[0], s[1]) && fst == Doubled(Doubled(s[0]))
      invariant i == 3 ==> |s| >= 3 && s[0] >= 0xF0
    {
      var tmp := s[i];
      if tmp / 64 != 2 {
        return Invalid;
      }
      LeadBits(s[0], s[1], tmp);
      hide Doubled, Joined;
      d := Joined(d, tmp);
      fst := Doubled(fst);
      if fst < 0x80 {
        d := if i == 1 then d % 0x800 else d % 0x1_0000;
        if d < (if i == 1 then 0x80 else 0x800) {
          return Invalid;
        }
        if i == 2 && (IsSurrogate(d) || d > 0x10FFFF) {
          return Invalid;
        }
        return Point(d, i + 1);
      }
      i := i + 1;
    }
    return Invalid;
  }

  /** Whatever is decoded is the encoding of the code point, so the decoder accepts shortest forms only. */
  lemma DecodedIsEncoded(s: seq<Byte>)
    requires Decode(s).Point?
    ensures var r := Decode(s);
            0 < r.length <= |s| && r.cp <= 0xFFFF && !IsSurrogate(r.cp) && Encode(r.cp) == s[..r.length]
  {
    var r := Decode(s);
    if r.length == 2 {
      assert Encode(r.cp) == [s[0], s[1]];
    } else if r.length == 3 {
      var d := Joined(Joined(s[0] % 16, s[1]), s[2]);
      assert d / 64 == Joined(s[0] % 16, s[1]);
      assert Encode(r.cp) == [s[0], s[1], s[2]];
    }
  }

  /** Every code point of the basic plane but the surrogates is decoded from its encoding. */
  lemma EncodedIsDecoded(cp: nat, rest: seq<Byte>)
    requires cp <= 0xFFFF && !IsSurrogate(cp)
    ensures Decode(Encode(cp) + rest) == Point(cp, |Encode(cp)|)
  {
    var s := Encode(cp) + rest;
    if cp <= 0x7F {
    } else if cp <= 0x7FF {
      Rejoin(cp);
      assert s[0] % 32 == cp / 64 && s[1] % 64 == cp % 64;
      hide Encode;
    } else {
      Rejoin(cp);
      Rejoin(cp / 64);
      assert cp / 64 / 64 == cp / 4096;
      assert s[0] % 16 == cp / 4096 && s[1] % 64 == cp / 64 % 64 && s[2] % 64 == cp % 64;
      hide Encode;
    }
  }

  lemma Rejoin(x: nat)
    ensures x == x / 64 * 64 + x % 64
  {}
}
