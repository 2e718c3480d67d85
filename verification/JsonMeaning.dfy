/** How JSON is spelled, character by character, for all that the printer and the parser share. */
module JsonMeaning {
  import opened Options
  import opened FbLayout
  import opened Conv
  import opened Utf8
  import opened JsonText
  import opened JsonParse
  import opened JsonTrip

  /** The bytes of a text. */
  function Ascii(s: string): (r: seq<Byte>)
    requires forall i :: 0 <= i < |s| ==> s[i] < 128 as char
    ensures |r| == |s| && forall i :: 0 <= i < |s| ==> r[i] == s[i] as int
  {
    seq(|s|, i requires 0 <= i < |s| => s[i] as int)
  }

  const LOWER: string := "0123456789abcdef"
  const UPPER: string := "0123456789ABCDEF"

  /** c is the hex digit of value d, in either case. */
  predicate Writes(c: Byte, d: int) {
    0 <= d < 16 && (c == LOWER[d] as int || c == UPPER[d] as int)
  }

  lemma HexIs(c: Byte, d: nat)
    ensures HexVal(c) == Some(d) <==> Writes(c, d)
  {
    if d < 10 {
      assert LOWER[d] as int == 48 + d && UPPER[d] as int == 48 + d;
    } else if d < 16 {
      assert LOWER[d] as int == 87 + d && UPPER[d] as int == 55 + d;
    }
  }

  /** Four hex digits, highest first. */
  predicate WritesFour(s: seq<Byte>, v: nat) {
    && |s| == 4 && v <= 0xFFFF
    && Writes(s[0], v / 4096) && Writes(s[1], v / 256 % 16) && Writes(s[2], v / 16 % 16) && Writes(s[3], v % 16)
  }

  lemma HexRead(s: seq<Byte>, v: nat, rest: seq<Byte>)
    requires WritesFour(s, v)
    ensures ReadHex(s + rest) == Got(v, rest)
  {
    HexIs(s[0], v / 4096);
    HexIs(s[1], v / 256 % 16);
    HexIs(s[2], v / 16 % 16);
    HexIs(s[3], v % 16);
    FourNibbles(v);
    hide HexVal, Writes;
    assert (s + rest)[4..] == rest;
  }

  /** Nothing else is read as a number. */
  lemma HexOnly(s: seq<Byte>)
    requires ReadHex(s).Got?
    ensures WritesFour(s[..4], ReadHex(s).value)
  {
    var a, b, c, d := HexVal(s[0]).value, HexVal(s[1]).value, HexVal(s[2]).value, HexVal(s[3]).value;
    HexIs(s[0], a);
    HexIs(s[1], b);
    HexIs(s[2], c);
    HexIs(s[3], d);
    var v := ReadHex(s).value;
    assert v == a * 4096 + b * 256 + c * 16 + d;
    hide HexVal, ReadHex;
    SplitNibbles(v, a, b, c, d);
  }

  lemma SplitNibbles(v: int, a: int, b: int, c: int, d: int)
    requires 0 <= a < 16 && 0 <= b < 16 && 0 <= c < 16 && 0 <= d < 16 && v == a * 4096 + b * 256 + c * 16 + d
    ensures v / 4096 == a && v / 256 % 16 == b && v / 16 % 16 == c && v % 16 == d
  {
    assert v / 16 == a * 256 + b * 16 + c;
    assert v / 256 == a * 16 + b;
  }

  predicate IsTail(b: Byte) {
    0x80 <= b <= 0xBF
  }

  /** What a byte holds above its marker. */
  function Over(b: int, marker: int): int {
    b - marker
  }

  /** The bytes of a code point in UTF-8, in their one shortest form; surrogates are not told apart here. */
  predicate IsUtf8(b: seq<Byte>, cp: nat) {
    if |b| == 1 then cp < 0x80 && b[0] == cp
    else if |b| == 2 then
      0x80 <= cp && 0xC0 <= b[0] <= 0xDF && IsTail(b[1]) && Over(b[0], 0xC0) * 64 + Over(b[1], 0x80) == cp
    else if |b| == 3 then
      && 0x800 <= cp && 0xE0 <= b[0] <= 0xEF && IsTail(b[1]) && IsTail(b[2])
      && Over(b[0], 0xE0) * 4096 + Over(b[1], 0x80) * 64 + Over(b[2], 0x80) == cp
    else
      && |b| == 4 && 0x1_0000 <= cp && 0xF0 <= b[0] <= 0xF4 && IsTail(b[1]) && IsTail(b[2]) && IsTail(b[3])
      && Over(b[0], 0xF0) * 0x4_0000 + Over(b[1], 0x80) * 4096 + Over(b[2], 0x80) * 64 + Over(b[3], 0x80) == cp
  }

  lemma EncodeMeans(cp: nat)
    requires cp <= 0x10FFFF
    ensures IsUtf8(Encode(cp), cp) && (cp >= 0x1_0000 ==> |Encode(cp)| == 4)
  {
    var a := cp / 64;
    var b := a / 64;
    assert cp / 4096 == b;
    assert cp / 0x4_0000 == b / 64;
  }

  lemma LetterU()
    ensures Ascii("\\u") == [BACKSLASH, 117]
  {}

  /** A string goes on behind an escape with what that stands for. */
  lemma EscapeInside(t: seq<Byte>, acc: seq<Byte>)
    ensures StringBody(Ascii("\\u") + t, acc)
            == var e := UnicodeEscape(t); if e.Bad? then Bad else StringBody(e.rest, acc + e.value)
  {
    hide UnicodeEscape;
    LetterU();
    var s := [BACKSLASH, 117] + t;
    assert s[1..] == [117] + t && s[1..][1..] == t;
    assert Escape(s[1..]) == UnicodeEscape(t);
  }

  /** The code point of the two halves of a pair. */
  function PairPoint(h: nat, l: nat): nat {
    0x1_0000 + h % 1024 * 1024 + l % 1024
  }

  lemma PairEscape(h: nat, l: nat, high: seq<Byte>, low: seq<Byte>, tail: seq<Byte>)
    requires 0xD800 <= h <= 0xDBFF && 0xDC00 <= l <= 0xDFFF && WritesFour(high, h) && WritesFour(low, l)
    ensures UnicodeEscape(high + (Ascii("\\u") + (low + tail))) == Got(Encode(PairPoint(h, l)), tail)
  {
    hide ReadHex, Encode, WritesFour, Ascii, UnicodeEscape, PairPoint;
    var rest := Ascii("\\u") + (low + tail);
    HexRead(high, h, rest);
    HexRead(low, l, tail);
    LetterU();
    assert rest[2..] == low + tail;
    assert [BACKSLASH, 117] <= rest;
    TwoHalves(high + rest, h, rest, l, tail);
  }

  lemma TwoHalves(s: seq<Byte>, h: nat, rest: seq<Byte>, l: nat, tail: seq<Byte>)
    requires ReadHex(s) == Got(h, rest) && [BACKSLASH, 117] <= rest && ReadHex(rest[2..]) == Got(l, tail)
    requires 0xD800 <= h <= 0xDBFF && 0xDC00 <= l <= 0xDFFF
    ensures UnicodeEscape(s) == Got(Encode(PairPoint(h, l)), tail)
  {
    hide ReadHex, Encode;
  }

  /** A surrogate pair in either case of hex digits, anywhere in a string, is the four bytes of its code point. */
  lemma SurrogatePair(cp: nat, high: seq<Byte>, low: seq<Byte>, acc: seq<Byte>, tail: seq<Byte>) returns (b: seq<Byte>)
    requires 0x1_0000 <= cp <= 0x10FFFF
    requires WritesFour(high, 0xD800 + (cp - 0x1_0000) / 1024) && WritesFour(low, 0xDC00 + (cp - 0x1_0000) % 1024)
    ensures |b| == 4 && IsUtf8(b, cp)
    ensures StringBody(Ascii("\\u") + high + Ascii("\\u") + low + tail, acc) == StringBody(tail, acc + b)
  {
    hide StringBody, Encode, WritesFour, Ascii, PairPoint, IsUtf8;
    b := Encode(cp);
    EncodeMeans(cp);
    var h, l := 0xD800 + (cp - 0x1_0000) / 1024, 0xDC00 + (cp - 0x1_0000) % 1024;
    HalvesJoin(cp, h, l);
    PairInside(h, l, high, low, acc, tail);
  }

  lemma PairInside(h: nat, l: nat, high: seq<Byte>, low: seq<Byte>, acc: seq<Byte>, tail: seq<Byte>)
    requires 0xD800 <= h <= 0xDBFF && 0xDC00 <= l <= 0xDFFF && WritesFour(high, h) && WritesFour(low, l)
    ensures StringBody(Ascii("\\u") + high + Ascii("\\u") + low + tail, acc)
            == StringBody(tail, acc + Encode(PairPoint(h, l)))
  {
    hide StringBody, UnicodeEscape, Encode, WritesFour, Ascii, PairPoint;
    PairEscape(h, l, high, low, tail);
    var t := high + (Ascii("\\u") + (low + tail));
    assert Ascii("\\u") + high + Ascii("\\u") + low + tail == Ascii("\\u") + t;
    EscapeInside(t, acc);
  }

  lemma HalvesJoin(cp: nat, h: nat, l: nat)
    requires 0x1_0000 <= cp <= 0x10FFFF && h == 0xD800 + (cp - 0x1_0000) / 1024 && l == 0xDC00 + (cp - 0x1_0000) % 1024
    ensures 0xD800 <= h <= 0xDBFF && 0xDC00 <= l <= 0xDFFF && PairPoint(h, l) == cp
  {
    var x := cp - 0x1_0000;
    assert x < 0x10_0000 && x / 1024 < 1024;
    assert h % 1024 == x / 1024 && l % 1024 == x % 1024;
  }

  /** As a whole text. */
  lemma PairParses(cp: nat, high: seq<Byte>, low: seq<Byte>, limit: nat) returns (b: seq<Byte>)
    requires 0x1_0000 <= cp <= 0x10FFFF
    requires WritesFour(high, 0xD800 + (cp - 0x1_0000) / 1024) && WritesFour(low, 0xDC00 + (cp - 0x1_0000) % 1024)
    ensures |b| == 4 && IsUtf8(b, cp)
    ensures ParseJson(Ascii("\"\\u") + high + Ascii("\\u") + low + Ascii("\""), limit) == Some(Str(b))
  {
    hide StringBody, WritesFour, IsUtf8, Ascii;
    var quote := Ascii("\"");
    b := SurrogatePair(cp, high, low, [], quote);
    var t := Ascii("\\u") + high + Ascii("\\u") + low + quote;
    assert [] + b == b;
    InQuotes(t, b, limit);
    assert Ascii("\"\\u") == quote + Ascii("\\u");
    assert Ascii("\"\\u") + high + Ascii("\\u") + low + quote == quote + t;
  }

  /** A text that is one string. */
  lemma InQuotes(t: seq<Byte>, b: seq<Byte>, limit: nat)
    requires StringBody(t, []) == StringBody(Ascii("\""), b)
    ensures ParseJson(Ascii("\"") + t, limit) == Some(Str(b))
  {
    var s := Ascii("\"") + t;
    assert s[1..] == t;
    assert StringBody(Ascii("\""), b) == Got(b, []);
    hide StringBody;
    StringAt(s, 0, limit);
  }

  /** Any other code point of four digits; half a pair, or two that do not match, is refused. */
  lemma BasicEscape(v: nat, h: seq<Byte>, acc: seq<Byte>, tail: seq<Byte>) returns (b: seq<Byte>)
    requires WritesFour(h, v)
    ensures !IsSurrogate(v) ==>
              IsUtf8(b, v) && StringBody(Ascii("\\u") + h + tail, acc) == StringBody(tail, acc + b)
    ensures IsSurrogate(v) && (v >= 0xDC00 || !(Ascii("\\u") <= tail) || !LowHalf(tail[2..])) ==>
              StringBody(Ascii("\\u") + h + tail, acc).Bad?
  {
    b := Encode(v);
    EncodeMeans(v);
    hide StringBody, Encode, IsUtf8, Ascii;
    assert Ascii("\\u") + h + tail == Ascii("\\u") + (h + tail);
    EscapeInside(h + tail, acc);
    HexRead(h, v, tail);
    LetterU();
    if |tail| >= 2 && ReadHex(tail[2..]).Got? {
      HexOnly(tail[2..]);
    }
    hide ReadHex, WritesFour;
  }

  predicate LowHalf(s: seq<Byte>) {
    |s| >= 4 && exists v: nat :: 0xDC00 <= v <= 0xDFFF && WritesFour(s[..4], v)
  }

  /** The escapes of one letter, and the characters they stand for. */
  const LETTERS: string := "\"\\/bfnrt"
  const MEANT: seq<Byte> := [34, 92, 47, 8, 12, 10, 13, 9]

  lemma LetterEscape(i: nat, acc: seq<Byte>, tail: seq<Byte>)
    requires i < 8
    ensures StringBody(Ascii("\\") + [LETTERS[i] as int] + tail, acc) == StringBody(tail, acc + [MEANT[i]])
  {
    var s := Ascii("\\") + [LETTERS[i] as int] + tail;
    assert s[0] == BACKSLASH && s[1..] == [LETTERS[i] as int] + tail && s[1..][1..] == tail;
    assert Unescaped(LETTERS[i] as int) == Some(MEANT[i]) by {
      LetterMeans(i);
    }
  }

  lemma LetterMeans(i: nat)
    requires i < 8
    ensures LETTERS[i] < 128 as char && Unescaped(LETTERS[i] as int) == Some(MEANT[i])
  {
    if i < 4 {
    } else {
    }
  }

  /** No other letter but u may follow a backslash. */
  lemma NoOtherEscape(c: Byte, acc: seq<Byte>, tail: seq<Byte>)
    requires c != 'u' as int && forall i :: 0 <= i < 8 ==> c != LETTERS[i] as int
    ensures StringBody(Ascii("\\") + [c] + tail, acc).Bad?
  {
    assert LETTERS[0] == '\"' && LETTERS[1] == '\\' && LETTERS[2] == '/' && LETTERS[3] == 'b';
    assert LETTERS[4] == 'f' && LETTERS[5] == 'n' && LETTERS[6] == 'r' && LETTERS[7] == 't';
    var s := Ascii("\\") + [c] + tail;
    assert s[0] == BACKSLASH && s[1..][0] == c;
  }

  /** A byte as it is printed: a letter escape where there is one, but for the slash; four digits for other controls. */
  lemma PrintedByte(b: Byte)
    ensures forall i :: 0 <= i < 8 && i != 2 && b == MEANT[i] ==> EscapedByte(b) == Ascii("\\") + [LETTERS[i] as int]
    ensures b >= 0x20 && b != '\"' as int && b != '\\' as int ==> EscapedByte(b) == [b]
    ensures b < 0x20 && b !in MEANT ==>
              EscapedByte(b) == Ascii("\\u00") + [LOWER[b / 16] as int, LOWER[b % 16] as int]
  {
    forall i | 0 <= i < 8 && i != 2 && b == MEANT[i]
      ensures EscapedByte(b) == Ascii("\\") + [LETTERS[i] as int]
    {
      LetterPrinted(i);
    }
    if b < 0x20 && b !in MEANT {
      ControlPrinted(b);
    }
  }

  lemma LetterPrinted(i: nat)
    requires i < 8 && i != 2
    ensures EscapedByte(MEANT[i]) == Ascii("\\") + [LETTERS[i] as int]
  {
    LetterMeans(i);
  }

  lemma ControlPrinted(b: Byte)
    requires b < 0x20 && b !in MEANT
    ensures EscapedByte(b) == Ascii("\\u00") + [LOWER[b / 16] as int, LOWER[b % 16] as int]
  {
    assert MEANT[3] == 8 && MEANT[4] == 12 && MEANT[5] == 10 && MEANT[6] == 13 && MEANT[7] == 9;
    LowerIs(b / 16);
    LowerIs(b % 16);
    LowerIs(0);
    hide HexDigit;
    assert b / 4096 == 0 && b / 256 % 16 == 0;
  }

  lemma LowerIs(d: nat)
    requires d < 16
    ensures LOWER[d] < 128 as char && HexDigit(d) == LOWER[d] as int
  {
    if d < 10 {
    } else {
    }
  }

  lemma BlankIs(c: Byte)
    ensures IsBlank(c) <==> c in Ascii(" \t\n\r")
  {
    var b := Ascii(" \t\n\r");
    assert b == [32, 9, 10, 13];
  }

  /** Blanks, tabs, new lines and returns before a value do not matter. */
  lemma BlanksBefore(w: seq<Byte>, s: seq<Byte>, level: nat, limit: nat)
    requires forall i :: 0 <= i < |w| ==> w[i] in Ascii(" \t\n\r")
    ensures ParseValue(w + s, level, limit) == ParseValue(s, level, limit)
  {
    hide ParseValue;
    forall i | 0 <= i < |w| ensures IsBlank(w[i]) {
      BlankIs(w[i]);
    }
    TrimBlanks(w, s);
    SameValue(w + s, s, level, limit);
  }

  lemma Keywords()
    ensures TRUE == Ascii("true") && FALSE == Ascii("false") && NULL == Ascii("null")
    ensures INFINITY == Ascii("Infinity") && NAN == Ascii("NaN")
  {}

  /** A point and digits, or nothing. */
  predicate IsFraction(f: seq<Byte>) {
    f == [] || (f[0] == '.' as int && AllDigits(f[1..]))
  }

  /** The letter, a sign or none, and digits, or nothing. */
  predicate IsExponent(x: seq<Byte>) {
    x != [] ==>
      && (x[0] == 'e' as int || x[0] == 'E' as int)
      && (AllDigits(x[1..]) || (|x| > 1 && (x[1] == '+' as int || x[1] == '-' as int) && AllDigits(x[2..])))
  }

  /** What cannot be part of the number any more. */
  predicate Apart(x: seq<Byte>, rest: seq<Byte>) {
    rest != [] ==>
      && !IsDigit(rest[0])
      && (x == [] ==> rest[0] != 'e' as int && rest[0] != 'E' as int)
      && (|x| == 1 ==> rest[0] != '+' as int && rest[0] != '-' as int)
  }

  /** A number with a fraction or an exponent is taken as far as its last digit, and is a double. */
  lemma DoubleExtent(sign: seq<Byte>, d: seq<Byte>, f: seq<Byte>, x: seq<Byte>, rest: seq<Byte>)
    requires (sign == [] || sign == Ascii("-")) && d != [] && AllDigits(d)
    requires IsFraction(f) && IsExponent(x) && f + x != [] && Apart(x, rest)
    ensures var s := sign + d + f + x + rest;
            && (s[0] == MINUS || IsDigit(s[0]))
            && Number(s) == Got(Double(sign + d + f + x), rest)
  {
    hide AfterFraction, IntegralLength, AllDigits, IsFraction, IsExponent, Number;
    var t := f + x + rest;
    var s := sign + d + f + x + rest;
    assert s == sign + d + t;
    FractionExtent(f, x, rest);
    IntegralIs(sign, d, t);
    NotInfinity(s);
    var n := |sign + d|;
    assert s[n..] == t;
    assert s[..|s| - |rest|] == sign + d + f + x;
    DoubleAt(s, n, rest);
  }

  lemma DoubleAt(s: seq<Byte>, n: nat, rest: seq<Byte>)
    requires s != [] && (s[0] == MINUS || IsDigit(s[0])) && !([MINUS] + INFINITY <= s)
    requires IntegralLength(s) == n < |s| && (s[0] == MINUS ==> n >= 2)
    requires (StartsWith(s[n..], 46) || IsE(s[n..])) && AfterFraction(s[n..]) == rest
    ensures Number(s) == Got(Double(s[..|s| - |rest|]), rest)
  {
    hide AfterFraction, IntegralLength, INFINITY, ParseInt;
  }

  lemma IntegralIs(sign: seq<Byte>, d: seq<Byte>, t: seq<Byte>)
    requires (sign == [] || sign == Ascii("-")) && d != [] && AllDigits(d) && t != [] && !IsDigit(t[0])
    ensures var s := sign + d + t;
            && IntegralLength(s) == |sign + d| && (s[0] == MINUS <==> sign != []) && (sign == [] ==> IsDigit(s[0]))
            && (sign != [] ==> |s| > 1 && IsDigit(s[1]))
  {
    hide LeadingDigits;
    var u, s := d + t, sign + d + t;
    assert u[..|d|] == d && u[0] == d[0];
    LeadingIs(u, |d|);
    assert s == sign + u;
    if sign == [] {
      assert s == u;
    } else {
      assert s[0] == MINUS && s[1..] == u;
    }
  }

  lemma FractionExtent(f: seq<Byte>, x: seq<Byte>, rest: seq<Byte>)
    requires IsFraction(f) && IsExponent(x) && f + x != [] && Apart(x, rest)
    ensures var t := f + x + rest;
            && t != [] && !IsDigit(t[0]) && (StartsWith(t, 46) || IsE(t)) && AfterFraction(t) == rest
  {
    hide LeadingDigits, AllDigits, AfterExponent;
    ExponentExtent(x, rest);
    var t, u := f + x + rest, x + rest;
    assert t == f + u;
    if f == [] {
      assert t == u;
    } else {
      assert t[1..] == f[1..] + u;
      DigitsEnd(f[1..], u);
    }
  }

  lemma ExponentExtent(x: seq<Byte>, rest: seq<Byte>)
    requires IsExponent(x) && Apart(x, rest)
    ensures AfterExponent(x + rest) == rest
  {
    hide LeadingDigits, AllDigits;
    var u := x + rest;
    if x == [] {
      assert u == rest;
    } else {
      var y := x[1..];
      assert u[1..] == y + rest;
      if y != [] && (y[0] == 43 || y[0] == 45) {
        assert y[1..] == x[2..];
        assert (y + rest)[1..] == y[1..] + rest;
        SignIsNoDigit(x);
        DigitsEnd(x[2..], rest);
      } else {
        DigitsEnd(y, rest);
        SignFree(y, rest);
      }
    }
  }

  lemma SignIsNoDigit(x: seq<Byte>)
    requires IsExponent(x) && |x| > 1 && (x[1] == 43 || x[1] == 45)
    ensures AllDigits(x[2..])
  {
    assert x[1..][0] == x[1];
  }

  lemma SignFree(y: seq<Byte>, rest: seq<Byte>)
    requires AllDigits(y) && (y == [] && rest != [] ==> rest[0] != 43 && rest[0] != 45)
    ensures !StartsWith(y + rest, PLUS) && !StartsWith(y + rest, MINUS)
  {}

  lemma DigitsEnd(d: seq<Byte>, u: seq<Byte>)
    requires AllDigits(d) && (u == [] || !IsDigit(u[0]))
    ensures LeadingDigits(d + u) == |d| && (d + u)[LeadingDigits(d + u)..] == u
  {
    hide LeadingDigits;
    assert (d + u)[..|d|] == d;
    LeadingIs(d + u, |d|);
  }

  /** Arrays and objects as they are printed. */
  lemma Layout(opts: Opts, level: nat)
    ensures Colon(opts) == if opts.pretty then Ascii(" : ") else Ascii(":")
    ensures !opts.pretty ==> NewLine(opts, level) == []
    ensures opts.pretty ==> var n := NewLine(opts, level);
              |n| == 1 + 2 * level && n[0] == '\n' as int && forall i :: 1 <= i < |n| ==> n[i] == ' ' as int
  {}

  lemma ArrayText(items: seq<Doc>, opts: Opts, level: nat)
    requires Printable(List(items), opts.ascii)
    ensures items == [] ==> Text(List(items), opts, level) == Ascii("[]")
    ensures items != [] ==>
              Text(List(items), opts, level)
              == Ascii("[") + NewLine(opts, level + 1) + ItemsText(items, opts, level + 1) + NewLine(opts, level) + Ascii("]")
    ensures |items| > 1 ==>
              ItemsText(items, opts, level)
              == Text(items[0], opts, level) + Ascii(",") + NewLine(opts, level) + ItemsText(items[1..], opts, level)
  {
    hide NewLine;
    assert Ascii("[") == [91] && Ascii("]") == [93] && Ascii("[]") == [91, 93] && Ascii(",") == [44];
  }

  lemma ObjectText(members: seq<Member>, opts: Opts, level: nat)
    requires Printable(Table(members), opts.ascii)
    ensures members == [] ==> Text(Table(members), opts, level) == Ascii("{}")
    ensures members != [] ==>
              Text(Table(members), opts, level)
              == Ascii("{") + NewLine(opts, level + 1) + MembersText(members, opts, level + 1) + NewLine(opts, level) + Ascii("}")
    ensures |members| > 1 ==>
              MembersText(members, opts, level)
              == MemberText(members[0], opts, level) + Ascii(",") + NewLine(opts, level) + MembersText(members[1..], opts, level)
  {
    hide NewLine, MemberText;
    assert Ascii("{") == [123] && Ascii("}") == [125] && Ascii("{}") == [123, 125] && Ascii(",") == [44];
  }

  /** An array holds the values of its items in their order. */
  lemma {:induction false} ItemsInOrder(items: seq<Doc>, i: nat)
    requires i < |items|
    ensures DenoteItems(items)[i] == Denote(items[i])
  {
    hide Denote;
    if i > 0 {
      ItemsInOrder(items[1..], i - 1);
    }
  }

  /** Of several members with one key the last counts. */
  lemma {:induction false} LastMemberCounts(m: map<seq<Byte>, Value>, members: seq<Member>, i: nat)
    requires i < |members| && forall j :: i < j < |members| ==> members[j].key != members[i].key
    ensures members[i].key in Inserted(m, members) && Inserted(m, members)[members[i].key] == Denote(members[i].value)
    decreases |members|
  {
    var n := m[members[0].key := Denote(members[0].value)];
    if i == 0 {
      OthersKeep(n, members[1..], members[0].key);
    } else {
      LastMemberCounts(n, members[1..], i - 1);
    }
  }

  lemma {:induction false} OthersKeep(m: map<seq<Byte>, Value>, members: seq<Member>, k: seq<Byte>)
    requires forall j :: 0 <= j < |members| ==> members[j].key != k
    ensures k in Inserted(m, members) <==> k in m
    ensures k in m ==> Inserted(m, members)[k] == m[k]
    decreases |members|
  {
    if members != [] {
      OthersKeep(m[members[0].key := Denote(members[0].value)], members[1..], k);
    }
  }
}
