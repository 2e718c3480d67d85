/** Base64 through a bit buffer, in the common and the URI alphabet. */
module Base64 {
  import opened Powers
  import opened FbLayout

  const PAD: Byte := 61

  function EncodeChar(i: nat, uri: bool): (c: Byte)
    requires i < 64
  {
    if i < 26 then 65 + i
    else if i < 52 then 97 + (i - 26)
    else if i < 62 then 48 + (i - 52)
    else if i == 62 then (if uri then 45 else 43)
    else (if uri then 95 else 47)
  }

  /** The decoding table, which serves both alphabets; -1 marks what is skipped. */
  function DecodeChar(c: Byte): (d: int)
    ensures d < 64
  {
    if 65 <= c <= 90 then c - 65
    else if 97 <= c <= 122 then c - 97 + 26
    else if 48 <= c <= 57 then c - 48 + 52
    else if c == 43 || c == 45 then 62
    else if c == 47 || c == 95 then 63
    else if c == PAD then 0
    else -1
  }

  lemma CharTrip(i: nat, uri: bool)
    requires i < 64
    ensures var c := EncodeChar(i, uri); DecodeChar(c) == i && c <= 0x7F && c != PAD
  {}

  /** RFC 4648, section 4: groups of three bytes as four characters, the last one padded. */
  function Encode(s: seq<Byte>, uri: bool): (r: seq<Byte>)
    ensures |r| == (|s| + 2) / 3 * 4
  {
    if s == [] then []
    else if |s| == 1 then [EncodeChar(s[0] / 4, uri), EncodeChar(s[0] % 4 * 16, uri), PAD, PAD]
    else if |s| == 2 then
      [EncodeChar(s[0] / 4, uri), EncodeChar(s[0] % 4 * 16 + s[1] / 16, uri), EncodeChar(s[1] % 16 * 4, uri), PAD]
    else
      [EncodeChar(s[0] / 4, uri), EncodeChar(s[0] % 4 * 16 + s[1] / 16, uri),
       EncodeChar(s[1] % 16 * 4 + s[2] / 64, uri), EncodeChar(s[2] % 64, uri)] + Encode(s[3..], uri)
  }

  /** The same one byte at a time: v holds the bits of the last byte not yet used. */
  function Stream(s: seq<Byte>, v: nat, bits: nat, uri: bool): seq<Byte>
    requires (bits == 0 && v == 0) || (bits == 2 && v < 4) || (bits == 4 && v < 16)
  {
    if s == [] then
      if bits == 2 then [EncodeChar(v * 16, uri), PAD, PAD]
      else if bits == 4 then [EncodeChar(v * 4, uri), PAD]
      else []
    else if bits == 0 then [EncodeChar(s[0] / 4, uri)] + Stream(s[1..], s[0] % 4, 2, uri)
    else if bits == 2 then [EncodeChar(v * 16 + s[0] / 16, uri)] + Stream(s[1..], s[0] % 16, 4, uri)
    else [EncodeChar(v * 4 + s[0] / 64, uri), EncodeChar(s[0] % 64, uri)] + Stream(s[1..], 0, 0, uri)
  }

  lemma {:induction false} StreamIsEncode(s: seq<Byte>, uri: bool)
    ensures Stream(s, 0, 0, uri) == Encode(s, uri)
  {
    hide EncodeChar;
    if |s| >= 3 {
      StreamIsEncode(s[3..], uri);
      assert s[1..][1..] == s[2..] && s[2..][1..] == s[3..];
      assert Stream(s[2..], s[1] % 16, 4, uri)
             == [EncodeChar(s[1] % 16 * 4 + s[2] / 64, uri), EncodeChar(s[2] % 64, uri)] + Stream(s[3..], 0, 0, uri);
    } else if |s| == 2 {
      assert s[1..][1..] == [];
      assert Stream(s[1..], s[0] % 4, 2, uri)
             == [EncodeChar(s[0] % 4 * 16 + s[1] / 16, uri)] + Stream([], s[1] % 16, 4, uri);
    }
  }

  const WORD32: nat := 0x1_0000_0000

  function Unit(bits: nat): nat
    requires bits == 0 || bits == 2 || bits == 4 || bits == 6
  {
    if bits == 0 then 1 else if bits == 2 then 4 else if bits == 4 then 16 else 64
  }

  /** The bits of the accumulator that are still to be used. */
  function Low(x: nat, bits: nat): (l: nat)
    requires bits == 0 || bits == 2 || bits == 4 || bits == 6
    ensures l < Unit(bits)
  {
    x % Unit(bits)
  }

  /** (x >> bits) & 0x3f */
  function Group(x: nat, bits: nat): (g: nat)
    requires bits == 0 || bits == 2 || bits == 4 || bits == 6
    ensures g < 64
  {
    x / Unit(bits) % 64
  }

  /** The accumulator is never masked; its wrapping around leaves the groups alone. */
  lemma WrapKeeps(y: nat, bits: nat)
    requires bits == 0 || bits == 2 || bits == 4 || bits == 6
    ensures Group(y % WORD32, bits) == Group(y, bits) && Low(y % WORD32, bits) == Low(y, bits)
  {
    var q, x := y / WORD32, y % WORD32;
    Division(y, WORD32, q, x);
    if bits == 0 {
      Wrapped(y, q, x, 1, 64, 0x400_0000);
    } else if bits == 2 {
      Wrapped(y, q, x, 4, 64, 0x100_0000);
    } else if bits == 4 {
      Wrapped(y, q, x, 16, 64, 0x40_0000);
    } else {
      Wrapped(y, q, x, 64, 64, 0x10_0000);
    }
  }

  /** Whole multiples of unit * g change neither the remainder by unit nor the group above it. */
  lemma Wrapped(y: nat, q: nat, x: nat, unit: nat, g: nat, m: nat)
    requires unit > 0 && g > 0 && y == q * (unit * (g * m)) + x
    ensures y / unit % g == x / unit % g && y % unit == x % unit
  {
    var a, b := x / unit, x % unit;
    Division(x, unit, a, b);
    var k := q * m;
    Regroup(q, unit, g, m, k, a);
    Quotient(y, unit, g * k + a, b);
    Division(a, g, a / g, a % g);
    assert (k + a / g) * g == k * g + (a / g) * g;
    Quotient(g * k + a, g, k + a / g, a % g);
  }

  lemma Regroup(q: nat, unit: nat, g: nat, m: nat, k: nat, a: nat)
    requires k == q * m
    ensures (g * k + a) * unit == q * (unit * (g * m)) + a * unit
  {
    assert g * (q * m) == q * (g * m);
    assert (q * (g * m)) * unit == q * (unit * (g * m));
    assert (g * k + a) * unit == (g * k) * unit + a * unit;
  }

  lemma Sixtyfour(k: nat, a: nat)
    ensures (64 * k + a) % 64 == a % 64
  {}

  /** A character shifted in: its byte is what the pending bits and it make. */
  lemma PushChar(acc: nat, bits: nat, c: nat)
    requires (bits == 0 || bits == 2 || bits == 4 || bits == 6) && c < 64
    ensures var x := (acc * 64 + c) % WORD32;
            && (bits == 0 ==> Low(x, 6) == c)
            && (bits > 0 ==> x / Unit(bits - 2) % 256 == ByteOf(Low(acc, bits), bits, c)
                             && Low(x, bits - 2) == Left(Low(acc, bits), bits, c))
  {
    var y := acc * 64 + c;
    var q, x := y / WORD32, y % WORD32;
    Division(y, WORD32, q, x);
    if bits == 0 {
      Wrapped(y, q, x, 64, 64, 0x10_0000);
      Sixtyfour(acc, c);
    } else {
      var u := Unit(bits);
      var v := Unit(bits - 2);
      var h, l := acc / u, acc % u;
      Division(acc, u, h, l);
      var z := l * 64 + c;
      Pending(acc, c, h, l, u, v, y, z);
      Wrapped(y, h, z, v, 256, 1);
      Wrapped(y, q, x, v, 256, 0x100_0000 / v);
      SmallQuotient(z, v);
    }
  }

  lemma Pending(acc: nat, c: nat, h: nat, l: nat, u: nat, v: nat, y: nat, z: nat)
    requires acc == h * u + l && l < u && u == 4 * v && y == acc * 64 + c && z == l * 64 + c && c < 64
    ensures y == h * (v * (256 * 1)) + z && z < 256 * v
  {
    assert (h * (4 * v)) * 64 == h * (v * 256);
  }

  lemma SmallQuotient(z: nat, v: nat)
    requires v > 0 && z < 256 * v
    ensures z / v % 256 == z / v
  {
    Division(z, v, z / v, z % v);
    if z / v >= 256 {
      MulLe(256, z / v, v);
    }
  }

  lemma PushByte(acc: nat, b: Byte)
    ensures var y := acc * 256 + b;
            && Group(y, 2) == b / 4 && Low(y, 2) == b % 4
            && Group(y, 4) == Low(acc, 2) * 16 + b / 16 && Low(y, 4) == b % 16
            && Group(y, 6) == Low(acc, 4) * 4 + b / 64 && Group(y, 0) == b % 64
  {
    ByteGroup(acc, b, 4, 64);
    ByteGroup(acc, b, 16, 16);
    ByteGroup(acc, b, 64, 4);
    Carried(acc, b);
  }

  lemma ByteGroup(acc: nat, b: Byte, unit: nat, k: nat)
    requires unit > 0 && unit * k == 256
    ensures (acc * 256 + b) / unit == acc * k + b / unit && (acc * 256 + b) % unit == b % unit
  {
    Division(b, unit, b / unit, b % unit);
    assert acc * (unit * k) == (acc * k) * unit;
    assert (acc * k + b / unit) * unit == (acc * k) * unit + (b / unit) * unit;
    Quotient(acc * 256 + b, unit, acc * k + b / unit, b % unit);
  }

  lemma Carried(acc: nat, b: Byte)
    ensures (acc * 64 + b / 4) % 64 == b / 4 && (acc * 16 + b / 16) % 64 == acc % 4 * 16 + b / 16
    ensures (acc * 4 + b / 64) % 64 == acc % 16 * 4 + b / 64 && (acc * 256 + b) % 64 == b % 64
  {
    Sixtyfour(acc, b / 4);
    Sixtyfour(acc / 4, acc % 4 * 16 + b / 16);
    Sixtyfour(acc / 16, acc % 16 * 4 + b / 64);
    Sixtyfour(acc * 4, b);
  }

  /** What comes after the groups that are ready. */
  function Ready(x: nat, bits: nat, rest: seq<Byte>, uri: bool): seq<Byte>
    requires bits % 2 == 0 && bits <= 12
  {
    if bits >= 6 then [EncodeChar(Group(x, bits - 6), uri)] + Ready(x, bits - 6, rest, uri)
    else Stream(rest, Low(x, bits), bits, uri)
  }

  /** A byte shifted in makes one group ready, or two. */
  lemma Shifted(acc: nat, bits: nat, s: seq<Byte>, uri: bool)
    requires s != [] && (bits == 0 || bits == 2 || bits == 4)
    ensures Stream(s, Low(acc, bits), bits, uri) == Ready((acc * 256 + s[0]) % WORD32, bits + 8, s[1..], uri)
  {
    var y := acc * 256 + s[0];
    PushByte(acc, s[0]);
    WrapKeeps(y, 0);
    WrapKeeps(y, 2);
    WrapKeeps(y, 4);
    WrapKeeps(y, 6);
    hide EncodeChar, Group, Low;
    var x := y % WORD32;
    NoBits(x);
    NoBits(acc);
    if bits == 4 {
      assert Ready(x, 6, s[1..], uri) == [EncodeChar(Group(x, 0), uri)] + Ready(x, 0, s[1..], uri);
    }
  }

  lemma NoBits(x: nat)
    ensures Low(x, 0) == 0
  {}

  method Base64Encode(s: seq<Byte>, uri: bool) returns (output: array<Byte>)
    ensures fresh(output) && output[..] == Encode(s, uri)
  {
    hide EncodeChar, Group, Low, Encode, Stream, Ready;
    StreamIsEncode(s, uri);
    output := new Byte[(|s| + 2) / 3 * 4];
    var leftchar: nat := 0;
    var j, leftbits, i := 0, 0, 0;
    NoBits(0);
    assert s[0..] == s;
    while i < |s|
      invariant 0 <= i <= |s| && 0 <= j <= output.Length && (leftbits == 0 || leftbits == 2 || leftbits == 4)
      invariant Encode(s, uri) == output[..j] + Stream(s[i..], Low(leftchar, leftbits), leftbits, uri)
    {
      Shifted(leftchar, leftbits, s[i..], uri);
      assert s[i..][1..] == s[i + 1..];
      leftchar := (leftchar * 256 + s[i]) % WORD32;
      leftbits := leftbits + 8;
      i := i + 1;
      j, leftbits := EmitReady(output, j, leftchar, leftbits, uri, s[i..], Encode(s, uri));
    }
    assert s[i..] == [];
    j := Finish(output, j, leftchar, leftbits, uri, Encode(s, uri));
  }

  /** The inner loop: every group of six bits that is ready. */
  method EmitReady(output: array<Byte>, j0: nat, leftchar: nat, bits0: nat, uri: bool, ghost rest: seq<Byte>, ghost whole: seq<Byte>)
    returns (j: nat, leftbits: nat)
    requires bits0 <= 12 && bits0 % 2 == 0 && j0 <= output.Length == |whole|
    requires whole == output[..j0] + Ready(leftchar, bits0, rest, uri)
    modifies output
    ensures (leftbits == 0 || leftbits == 2 || leftbits == 4) && j <= output.Length
    ensures whole == output[..j] + Stream(rest, Low(leftchar, leftbits), leftbits, uri)
  {
    hide EncodeChar, Group, Low, Stream;
    j, leftbits := j0, bits0;
    while leftbits >= 6
      invariant leftbits <= 12 && leftbits % 2 == 0 && j <= output.Length
      invariant whole == output[..j] + Ready(leftchar, leftbits, rest, uri)
    {
      leftbits := leftbits - 6;
      j := PutChar(output, j, EncodeChar(Group(leftchar, leftbits), uri), Ready(leftchar, leftbits, rest, uri), whole);
    }
  }

  /** output[j++] = c, when that is what comes next. */
  method PutChar(output: array<Byte>, j: nat, c: Byte, ghost after: seq<Byte>, ghost whole: seq<Byte>) returns (next: nat)
    requires j <= output.Length == |whole| && whole == output[..j] + ([c] + after)
    modifies output
    ensures next == j + 1 <= output.Length && whole == output[..next] + after
  {
    assert |whole| == j + 1 + |after|;
    output[j] := c;
    next := j + 1;
  }

  /** The bits left over, and the padding. */
  method Finish(output: array<Byte>, j0: nat, leftchar: nat, leftbits: nat, uri: bool, ghost whole: seq<Byte>) returns (j: nat)
    requires (leftbits == 0 || leftbits == 2 || leftbits == 4) && j0 <= output.Length == |whole|
    requires whole == output[..j0] + Stream([], Low(leftchar, leftbits), leftbits, uri)
    modifies output
    ensures output[..] == whole
  {
    j := j0;
    if leftbits == 2 {
      var c := EncodeChar(leftchar % 4 * 16, uri);
      assert Stream([], leftchar % 4, 2, uri) == [c] + [PAD, PAD];
      j := PutChar(output, j, c, [PAD, PAD], whole);
      assert [PAD, PAD] == [PAD] + [PAD];
      j := PutChar(output, j, PAD, [PAD], whole);
      assert [PAD] == [PAD] + [];
      j := PutChar(output, j, PAD, [], whole);
    } else if leftbits == 4 {
      var c := EncodeChar(leftchar % 16 * 4, uri);
      assert Stream([], leftchar % 16, 4, uri) == [c] + [PAD];
      j := PutChar(output, j, c, [PAD], whole);
      assert [PAD] == [PAD] + [];
      j := PutChar(output, j, PAD, [], whole);
    }
    assert output[..] == output[..j];
  }

  /** What the decoder makes of a text: the bytes, and whether no bits are left over. */
  datatype Decoded = Decoded(bytes: seq<Byte>, whole: bool)

  /** The decoder with v the bits of the last characters not yet used: strangers are skipped, padding ends it. */
  function Decode(t: seq<Byte>, v: nat, bits: nat): Decoded
    requires (bits == 0 || bits == 2 || bits == 4 || bits == 6) && v < Unit(bits)
  {
    if t == [] then Decoded([], bits == 0)
    else if t[0] > 0x7F then Decode(t[1..], v, bits)
    else if t[0] == PAD then Decoded([], true)
    else if DecodeChar(t[0]) < 0 then Decode(t[1..], v, bits)
    else
      if bits == 0 then Decode(t[1..], DecodeChar(t[0]), 6)
      else
        var d := Decode(t[1..], Left(v, bits, DecodeChar(t[0])), bits - 2);
        Decoded([ByteOf(v, bits, DecodeChar(t[0]))] + d.bytes, d.whole)
  }

  /** The byte that is ready once a character follows pending bits. */
  function ByteOf(v: nat, bits: nat, c: nat): Byte
    requires (bits == 2 || bits == 4 || bits == 6) && v < Unit(bits) && c < 64
  {
    (v * 64 + c) / Unit(bits - 2)
  }

  /** The bits of it that stay pending. */
  function Left(v: nat, bits: nat, c: nat): (r: nat)
    requires bits == 2 || bits == 4 || bits == 6
    ensures r < Unit(bits - 2)
  {
    (v * 64 + c) % Unit(bits - 2)
  }

  /** One character of the alphabet. */
  lemma DecodeStep(c: nat, uri: bool, v: nat, bits: nat, rest: seq<Byte>)
    requires c < 64 && (bits == 0 || bits == 2 || bits == 4 || bits == 6) && v < Unit(bits)
    ensures var t := [EncodeChar(c, uri)] + rest;
            Decode(t, v, bits)
            == if bits == 0 then Decode(rest, c, 6)
               else var d := Decode(rest, Left(v, bits, c), bits - 2);
                    Decoded([ByteOf(v, bits, c)] + d.bytes, d.whole)
  {
    CharTrip(c, uri);
    hide EncodeChar, DecodeChar;
    assert ([EncodeChar(c, uri)] + rest)[1..] == rest;
  }

  /** The three bytes of a group come back from its four characters. */
  lemma GroupBytes(a: Byte, b: Byte, c: Byte)
    ensures var d0, d1, d2, d3 := a / 4, a % 4 * 16 + b / 16, b % 16 * 4 + c / 64, c % 64;
            && ByteOf(d0, 6, d1) == a && Left(d0, 6, d1) == b / 16
            && ByteOf(b / 16, 4, d2) == b && Left(b / 16, 4, d2) == c / 64
            && ByteOf(c / 64, 2, d3) == c && Left(c / 64, 2, d3) == 0
  {}

  /** Characters one after the other, whatever bytes they make. */
  lemma DecodeTwo(d0: nat, d1: nat, uri: bool, rest: seq<Byte>)
    requires d0 < 64 && d1 < 64
    ensures var d := Decode(rest, Left(d0, 6, d1), 4);
            Decode([EncodeChar(d0, uri), EncodeChar(d1, uri)] + rest, 0, 0) == Decoded([ByteOf(d0, 6, d1)] + d.bytes, d.whole)
  {
    hide Decode, EncodeChar, ByteOf, Left;
    DecodeStep(d0, uri, 0, 0, [EncodeChar(d1, uri)] + rest);
    DecodeStep(d1, uri, d0, 6, rest);
    assert [EncodeChar(d0, uri), EncodeChar(d1, uri)] + rest == [EncodeChar(d0, uri)] + ([EncodeChar(d1, uri)] + rest);
  }

  lemma DecodeLast(d2: nat, d3: nat, v: nat, uri: bool, rest: seq<Byte>)
    requires d2 < 64 && d3 < 64 && v < 16
    ensures var w := Left(v, 4, d2); var d := Decode(rest, Left(w, 2, d3), 0);
            Decode([EncodeChar(d2, uri), EncodeChar(d3, uri)] + rest, v, 4)
            == Decoded([ByteOf(v, 4, d2), ByteOf(w, 2, d3)] + d.bytes, d.whole)
  {
    hide Decode, EncodeChar, ByteOf, Left;
    DecodeStep(d2, uri, v, 4, [EncodeChar(d3, uri)] + rest);
    DecodeStep(d3, uri, Left(v, 4, d2), 2, rest);
    assert [EncodeChar(d2, uri), EncodeChar(d3, uri)] + rest == [EncodeChar(d2, uri)] + ([EncodeChar(d3, uri)] + rest);
  }

  lemma DecodeQuad(a: Byte, b: Byte, c: Byte, uri: bool, rest: seq<Byte>)
    ensures var t := [EncodeChar(a / 4, uri), EncodeChar(a % 4 * 16 + b / 16, uri),
                      EncodeChar(b % 16 * 4 + c / 64, uri), EncodeChar(c % 64, uri)] + rest;
            Decode(t, 0, 0) == Decoded([a, b, c] + Decode(rest, 0, 0).bytes, Decode(rest, 0, 0).whole)
  {
    GroupBytes(a, b, c);
    Quad(a / 4, a % 4 * 16 + b / 16, b % 16 * 4 + c / 64, c % 64, b / 16, c / 64, uri, rest);
  }

  lemma Quad(d0: nat, d1: nat, d2: nat, d3: nat, v: nat, w: nat, uri: bool, rest: seq<Byte>)
    requires d0 < 64 && d1 < 64 && d2 < 64 && d3 < 64
    requires Left(d0, 6, d1) == v && Left(v, 4, d2) == w && Left(w, 2, d3) == 0
    ensures Decode([EncodeChar(d0, uri), EncodeChar(d1, uri), EncodeChar(d2, uri), EncodeChar(d3, uri)] + rest, 0, 0)
            == Decoded([ByteOf(d0, 6, d1), ByteOf(v, 4, d2), ByteOf(w, 2, d3)] + Decode(rest, 0, 0).bytes, Decode(rest, 0, 0).whole)
  {
    hide Decode, EncodeChar, ByteOf, Left;
    var t2 := [EncodeChar(d2, uri), EncodeChar(d3, uri)] + rest;
    DecodeTwo(d0, d1, uri, t2);
    DecodeLast(d2, d3, v, uri, rest);
    assert [EncodeChar(d0, uri), EncodeChar(d1, uri), EncodeChar(d2, uri), EncodeChar(d3, uri)] + rest
           == [EncodeChar(d0, uri), EncodeChar(d1, uri)] + t2;
  }

  /** Padding ends the text and drops the bits left over. */
  lemma DecodePad(rest: seq<Byte>, v: nat, bits: nat)
    requires (bits == 0 || bits == 2 || bits == 4 || bits == 6) && v < Unit(bits)
    ensures Decode([PAD] + rest, v, bits) == Decoded([], true)
  {}

  lemma {:induction false} RoundTrip(s: seq<Byte>, uri: bool)
    ensures Decode(Encode(s, uri), 0, 0) == Decoded(s, true)
  {
    if |s| >= 3 {
      RoundTrip(s[3..], uri);
      DecodeQuad(s[0], s[1], s[2], uri, Encode(s[3..], uri));
      assert [s[0], s[1], s[2]] + s[3..] == s;
    } else if |s| == 2 {
      TwoBytes(s[0], s[1], uri);
    } else if |s| == 1 {
      OneByte(s[0], uri);
    }
  }

  lemma OneByte(a: Byte, uri: bool)
    ensures Decode([EncodeChar(a / 4, uri), EncodeChar(a % 4 * 16, uri), PAD, PAD], 0, 0) == Decoded([a], true)
  {
    hide Decode, EncodeChar;
    assert ByteOf(a / 4, 6, a % 4 * 16) == a;
    PaddedTwo(a / 4, a % 4 * 16, uri);
  }

  lemma PaddedTwo(d0: nat, d1: nat, uri: bool)
    requires d0 < 64 && d1 < 64
    ensures Decode([EncodeChar(d0, uri), EncodeChar(d1, uri), PAD, PAD], 0, 0) == Decoded([ByteOf(d0, 6, d1)], true)
  {
    hide Decode, EncodeChar, ByteOf, Left;
    DecodeTwo(d0, d1, uri, [PAD] + [PAD]);
    DecodePad([PAD], Left(d0, 6, d1), 4);
    assert [EncodeChar(d0, uri), EncodeChar(d1, uri)] + ([PAD] + [PAD]) == [EncodeChar(d0, uri), EncodeChar(d1, uri), PAD, PAD];
  }

  lemma TwoBytes(a: Byte, b: Byte, uri: bool)
    ensures Decode([EncodeChar(a / 4, uri), EncodeChar(a % 4 * 16 + b / 16, uri), EncodeChar(b % 16 * 4, uri), PAD], 0, 0)
            == Decoded([a, b], true)
  {
    hide Decode, EncodeChar, ByteOf, Left;
    PairBytes(a, b);
    PaddedThree(a / 4, a % 4 * 16 + b / 16, b % 16 * 4, b / 16, uri);
  }

  lemma PairBytes(a: Byte, b: Byte)
    ensures ByteOf(a / 4, 6, a % 4 * 16 + b / 16) == a && Left(a / 4, 6, a % 4 * 16 + b / 16) == b / 16
    ensures ByteOf(b / 16, 4, b % 16 * 4) == b
  {}

  lemma PaddedThree(d0: nat, d1: nat, d2: nat, v: nat, uri: bool)
    requires d0 < 64 && d1 < 64 && d2 < 64 && Left(d0, 6, d1) == v
    ensures Decode([EncodeChar(d0, uri), EncodeChar(d1, uri), EncodeChar(d2, uri), PAD], 0, 0)
            == Decoded([ByteOf(d0, 6, d1), ByteOf(v, 4, d2)], true)
  {
    hide Decode, EncodeChar, ByteOf, Left;
    var t := [EncodeChar(d2, uri)] + ([PAD] + []);
    DecodeTwo(d0, d1, uri, t);
    DecodeStep(d2, uri, v, 4, [PAD] + []);
    DecodePad([], Left(v, 4, d2), 2);
    assert [EncodeChar(d0, uri), EncodeChar(d1, uri)] + t == [EncodeChar(d0, uri), EncodeChar(d1, uri), EncodeChar(d2, uri), PAD];
  }

  /** The decoder as it runs: the accumulator wraps around, a byte is ready when eight bits are. */
  method Base64Decode(t: seq<Byte>) returns (output: seq<Byte>, whole: bool)
    ensures Decoded(output, whole) == Decode(t, 0, 0)
  {
    hide Left, ByteOf, Low, DecodeChar;
    NoBits(0);
    var value: nat := 0;
    var bits, i := 0, 0;
    output := [];
    assert t[0..] == t;
    while i < |t|
      invariant 0 <= i <= |t| && (bits == 0 || bits == 2 || bits == 4 || bits == 6)
      invariant var d := Decode(t[i..], Low(value, bits), bits); Decode(t, 0, 0) == Decoded(output + d.bytes, d.whole)
    {
      var c := t[i];
      assert t[i..][1..] == t[i + 1..];
      if c == PAD {
        bits := 0;
        assert output + [] == output;
        return output, true;
      }
      if c <= 0x7F && DecodeChar(c) >= 0 {
        ghost var v := Low(value, bits);
        PushChar(value, bits, DecodeChar(c));
        value := (value * 64 + DecodeChar(c)) % WORD32;
        bits := bits + 6;
        if bits >= 8 {
          bits := bits - 8;
          output := output + [value / Unit(bits) % 256];
        }
      }
      i := i + 1;
    }
    whole := bits == 0;
    assert output + [] == output;
  }
}
