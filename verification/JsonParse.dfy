/** What the JSON parser accepts and what it makes of it, as functions of the remaining input. */
module JsonParse {
  import opened Options
  import opened FbLayout
  import opened Conv
  import opened Utf8
  import opened JsonText

  datatype Parsed<T> = Bad | Got(value: T, rest: seq<Byte>)

  predicate IsBlank(c: Byte) {
    c == 32 || c == 10 || c == 9 || c == 13
  }

  function Trim(s: seq<Byte>): (r: seq<Byte>)
    ensures |r| <= |s| && (r != [] ==> !IsBlank(r[0]))
  {
    if s != [] && IsBlank(s[0]) then Trim(s[1..]) else s
  }

  predicate StartsWith(s: seq<Byte>, c: Byte) {
    s != [] && s[0] == c
  }

  function HexVal(c: Byte): Option<nat> {
    if 48 <= c <= 57 then Some(c - 48)
    else if 97 <= c <= 102 then Some(c - 97 + 10)
    else if 65 <= c <= 70 then Some(c - 65 + 10)
    else None
  }

  /** Four hex digits. */
  function ReadHex(s: seq<Byte>): (r: Parsed<nat>)
    ensures r.Got? ==> |s| >= 4 && r.rest == s[4..] && r.value <= 0xFFFF
  {
    if |s| < 4 || HexVal(s[0]).None? || HexVal(s[1]).None? || HexVal(s[2]).None? || HexVal(s[3]).None? then Bad
    else
      var v := HexVal(s[0]).value * 4096 + HexVal(s[1]).value * 256 + HexVal(s[2]).value * 16 + HexVal(s[3]).value;
      Got(v, s[4..])
  }

  /** decodeUnicodeEscape, after the u: a code point, or the two halves of a surrogate pair. */
  function UnicodeEscape(s: seq<Byte>): (r: Parsed<seq<Byte>>)
    ensures r.Got? ==> |r.rest| < |s|
  {
    var h := ReadHex(s);
    if h.Bad? then Bad
    else if 0xD800 <= h.value <= 0xDBFF then
      if !([BACKSLASH, 117] <= h.rest) then Bad
      else
        var l := ReadHex(h.rest[2..]);
        if l.Got? && 0xDC00 <= l.value <= 0xDFFF
        then Got(Encode(0x1_0000 + h.value % 1024 * 1024 + l.value % 1024), l.rest)
        else Bad
    else if 0xDC00 <= h.value <= 0xDFFF then Bad
    else Got(Encode(h.value), h.rest)
  }

  /** What a letter after a backslash stands for. */
  function Unescaped(c: Byte): Option<Byte> {
    if c == QUOTE || c == BACKSLASH || c == 47 then Some(c)
    else if c == 98 then Some(8)
    else if c == 102 then Some(12)
    else if c == 110 then Some(10)
    else if c == 114 then Some(13)
    else if c == 116 then Some(9)
    else None
  }

  /** An escape, after the backslash. */
  function Escape(s: seq<Byte>): (r: Parsed<seq<Byte>>)
    ensures r.Got? ==> |r.rest| < |s|
  {
    if s == [] then Bad
    else if Unescaped(s[0]).Some? then Got([Unescaped(s[0]).value], s[1..])
    else if s[0] == 117 then UnicodeEscape(s[1..])
    else Bad
  }

  /** A string after its opening quote; acc is what has been read of it. */
  function StringBody(s: seq<Byte>, acc: seq<Byte>): (r: Parsed<seq<Byte>>)
    ensures r.Got? ==> |r.rest| < |s|
    decreases |s|
  {
    if s == [] then Bad
    else if s[0] == QUOTE then Got(acc, s[1..])
    else if s[0] == BACKSLASH then
      var e := Escape(s[1..]);
      if e.Bad? then Bad else StringBody(e.rest, acc + e.value)
    else StringBody(s[1..], acc + [s[0]])
  }

  const INFINITY: seq<Byte> := [73, 110, 102, 105, 110, 105, 116, 121]
  const NAN: seq<Byte> := [78, 97, 78]

  /** The length of the sign and digits a number begins with. */
  function IntegralLength(s: seq<Byte>): (n: nat)
    ensures n <= |s|
  {
    if StartsWith(s, MINUS) then 1 + LeadingDigits(s[1..]) else LeadingDigits(s)
  }

  predicate IsE(s: seq<Byte>) {
    StartsWith(s, 101) || StartsWith(s, 69)
  }

  /** What follows the point and the exponent of a floating-point number. */
  function AfterFraction(s: seq<Byte>): (r: seq<Byte>)
    requires s != []
    ensures |r| <= |s|
  {
    AfterExponent(if IsE(s) then s else s[1..][LeadingDigits(s[1..])..])
  }

  function AfterExponent(t: seq<Byte>): (r: seq<Byte>)
    ensures |r| <= |t|
  {
    if IsE(t) then
      var u := t[1..];
      var w := if StartsWith(u, PLUS) || StartsWith(u, MINUS) then u[1..] else u;
      w[LeadingDigits(w)..]
    else t
  }

  /** parseNumber, at a minus sign or a digit. */
  function Number(s: seq<Byte>): (r: Parsed<Value>)
    requires s != [] && (s[0] == MINUS || IsDigit(s[0]))
    ensures r.Got? ==> |r.rest| < |s|
  {
    if [MINUS] + INFINITY <= s then Got(Double([MINUS] + INFINITY), s[9..])
    else
      var n := IntegralLength(s);
      if s[0] == MINUS && n < 2 then Bad
      else
        var t := s[n..];
        if !StartsWith(t, 46) && !IsE(t) then
          var v := ParseInt(s[..n], true);
          if v.None? || SkipSpaces(v.value.1) != [] then Bad else Got(Int(v.value.0), Trim(t))
        else
          var rest := AfterFraction(t);
          Got(Double(s[..|s| - |rest|]), rest)
  }

  /** true, false, null, Infinity and NaN. */
  function Keyword(s: seq<Byte>): (r: Parsed<Value>)
    ensures r.Got? ==> |r.rest| < |s|
  {
    if TRUE <= s then Got(Bool(true), s[4..])
    else if FALSE <= s then Got(Bool(false), s[5..])
    else if NULL <= s then Got(Null, s[4..])
    else if INFINITY <= s then Got(Double(INFINITY), s[8..])
    else if NAN <= s then Got(Double(NAN), s[3..])
    else Bad
  }

  /** parseValue at a recursion level, which must not exceed the limit. */
  function ParseValue(s: seq<Byte>, level: nat, limit: nat): (r: Parsed<Value>)
    ensures r.Got? ==> |r.rest| < |s|
    decreases |s|, 0
  {
    if level > limit then Bad
    else
      var t := Trim(s);
      if StartsWith(t, 91) then ParseArray(t[1..], level + 1, limit)
      else if StartsWith(t, 123) then ParseObject(t[1..], level + 1, limit)
      else if StartsWith(t, QUOTE) then
        var b := StringBody(t[1..], []);
        if b.Bad? then Bad else Got(Str(b.value), b.rest)
      else if t != [] && (t[0] == MINUS || IsDigit(t[0])) then Number(t)
      else Keyword(t)
  }

  /** An array after its bracket. */
  function ParseArray(s: seq<Byte>, level: nat, limit: nat): (r: Parsed<Value>)
    ensures r.Got? ==> |r.rest| < |s|
    decreases |s|, 2
  {
    var t := Trim(s);
    if StartsWith(t, 93) then Got(Arr([]), t[1..]) else ParseItems(t, [], level, limit)
  }

  /** The loop of parseArray. */
  function ParseItems(s: seq<Byte>, acc: seq<Value>, level: nat, limit: nat): (r: Parsed<Value>)
    ensures r.Got? ==> |r.rest| < |s|
    decreases |s|, 1
  {
    var v := ParseValue(s, level, limit);
    if v.Bad? then Bad
    else
      var t := Trim(v.rest);
      if StartsWith(t, 44) then ParseItems(Trim(t[1..]), acc + [v.value], level, limit)
      else if StartsWith(t, 93) then Got(Arr(acc + [v.value]), t[1..])
      else Bad
  }

  /** An object after its brace. */
  function ParseObject(s: seq<Byte>, level: nat, limit: nat): (r: Parsed<Value>)
    ensures r.Got? ==> |r.rest| < |s|
    decreases |s|, 2
  {
    var t := Trim(s);
    if StartsWith(t, 125) then Got(Obj(map[]), t[1..]) else ParseMembers(t, map[], level, limit)
  }

  /** A key, the colon, and where its value begins. */
  function ParseKey(s: seq<Byte>): (r: Parsed<seq<Byte>>)
    ensures r.Got? ==> |r.rest| < |s|
  {
    if !StartsWith(s, QUOTE) then Bad
    else
      var k := StringBody(s[1..], []);
      if k.Bad? || !StartsWith(Trim(k.rest), 58) then Bad
      else Got(k.value, Trim(Trim(k.rest)[1..]))
  }

  /** The loop of parseObject. */
  function ParseMembers(s: seq<Byte>, acc: map<seq<Byte>, Value>, level: nat, limit: nat): (r: Parsed<Value>)
    ensures r.Got? ==> |r.rest| < |s|
    decreases |s|, 1
  {
    var k := ParseKey(s);
    if k.Bad? then Bad
    else
      var v := ParseValue(k.rest, level, limit);
      if v.Bad? then Bad
      else
        var t := Trim(v.rest);
        if StartsWith(t, 44) then ParseMembers(Trim(t[1..]), acc[k.value := v.value], level, limit)
        else if StartsWith(t, 125) then Got(Obj(acc[k.value := v.value]), t[1..])
        else Bad
  }

  /** parseJson: one value, then nothing but blanks, or a zero byte and anything. */
  function ParseJson(s: seq<Byte>, limit: nat): Option<Value> {
    var v := ParseValue(s, 0, limit);
    if v.Bad? then None
    else
      var t := Trim(v.rest);
      if t != [] && t[0] != 0 then None else Some(v.value)
  }
}
