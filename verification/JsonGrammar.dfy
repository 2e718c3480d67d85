/** The language the parser accepts: texts of a grammar, with the value each of them means. */
module JsonGrammar {
  import opened Options
  import opened FbLayout
  import opened Conv
  import opened Utf8
  import opened JsonText
  import opened JsonParse
  import opened JsonTrip
  import opened JsonMeaning

  /** One character of a string as it is written. */
  datatype Part =
    | Plain(c: Byte)
    | Short(i: nat)                                      // a backslash and a letter
    | Basic(h: seq<Byte>, v: nat)                        // \u and four digits
    | Pair(high: seq<Byte>, low: seq<Byte>, cp: nat)     // two of them for one code point

  predicate GoodPart(p: Part) {
    match p
    case Plain(c) => c != '\"' as int && c != '\\' as int
    case Short(i) => i < 8
    case Basic(h, v) => WritesFour(h, v) && !IsSurrogate(v)
    case Pair(high, low, cp) =>
      && 0x1_0000 <= cp <= 0x10FFFF
      && WritesFour(high, 0xD800 + (cp - 0x1_0000) / 1024) && WritesFour(low, 0xDC00 + (cp - 0x1_0000) % 1024)
  }

  function PartText(p: Part): (s: seq<Byte>)
    requires GoodPart(p)
    ensures s != []
  {
    match p
    case Plain(c) => [c]
    case Short(i) => LetterMeans(i); Ascii("\\") + [LETTERS[i] as int]
    case Basic(h, _) => Ascii("\\u") + h
    case Pair(high, low, _) => Ascii("\\u") + high + Ascii("\\u") + low
  }

  function PartBytes(p: Part): seq<Byte>
    requires GoodPart(p)
  {
    match p
    case Plain(c) => [c]
    case Short(i) => [MEANT[i]]
    case Basic(_, v) => Encode(v)
    case Pair(_, _, cp) => Encode(cp)
  }

  predicate GoodParts(ps: seq<Part>) {
    forall i :: 0 <= i < |ps| ==> GoodPart(ps[i])
  }

  function PartsText(ps: seq<Part>): seq<Byte>
    requires GoodParts(ps)
  {
    if ps == [] then [] else PartText(ps[0]) + PartsText(ps[1..])
  }

  function PartsBytes(ps: seq<Part>): seq<Byte>
    requires GoodParts(ps)
  {
    if ps == [] then [] else PartBytes(ps[0]) + PartsBytes(ps[1..])
  }

  lemma PartTrip(p: Part, acc: seq<Byte>, tail: seq<Byte>)
    requires GoodPart(p)
    ensures StringBody(PartText(p) + tail, acc) == StringBody(tail, acc + PartBytes(p))
  {
    match p
    case Plain(c) =>
      assert ([c] + tail)[1..] == tail;
    case Short(i) =>
      LetterMeans(i);
      hide StringBody, Ascii;
      LetterEscape(i, acc, tail);
    case Basic(h, v) =>
      hide StringBody, Encode, WritesFour, Ascii;
      BasicInside(h, v, acc, tail);
    case Pair(high, low, cp) =>
      hide StringBody, Encode, WritesFour, Ascii, PairPoint;
      var hi, lo := 0xD800 + (cp - 0x1_0000) / 1024, 0xDC00 + (cp - 0x1_0000) % 1024;
      HalvesJoin(cp, hi, lo);
      PairInside(hi, lo, high, low, acc, tail);
  }

  lemma BasicInside(h: seq<Byte>, v: nat, acc: seq<Byte>, tail: seq<Byte>)
    requires WritesFour(h, v) && !IsSurrogate(v)
    ensures StringBody(Ascii("\\u") + h + tail, acc) == StringBody(tail, acc + Encode(v))
  {
    hide StringBody, Encode, WritesFour, Ascii, ReadHex;
    HexRead(h, v, tail);
    assert Ascii("\\u") + h + tail == Ascii("\\u") + (h + tail);
    EscapeInside(h + tail, acc);
  }

  lemma {:induction false} PartsTrip(ps: seq<Part>, acc: seq<Byte>, rest: seq<Byte>)
    requires GoodParts(ps)
    ensures StringBody(PartsText(ps) + [QUOTE] + rest, acc) == Got(acc + PartsBytes(ps), rest)
    decreases |ps|
  {
    if ps == [] {
      assert PartsText(ps) + [QUOTE] + rest == [QUOTE] + rest;
      assert ([QUOTE] + rest)[1..] == rest && acc + PartsBytes(ps) == acc;
    } else {
      hide GoodPart, PartText, PartBytes, StringBody;
      var tail := PartsText(ps[1..]) + [QUOTE] + rest;
      assert PartsText(ps) + [QUOTE] + rest == PartText(ps[0]) + tail;
      PartTrip(ps[0], acc, tail);
      PartsTrip(ps[1..], acc + PartBytes(ps[0]), rest);
      assert acc + PartBytes(ps[0]) + PartsBytes(ps[1..]) == acc + PartsBytes(ps);
    }
  }

  /** Whatever escape is read is one of the four kinds. */
  lemma EscapeIsPart(s: seq<Byte>) returns (p: Part)
    requires Escape(s).Got?
    ensures GoodPart(p) && [BACKSLASH] + s == PartText(p) + Escape(s).rest && PartBytes(p) == Escape(s).value
  {
    var e := Escape(s);
    if Unescaped(s[0]).Some? {
      var i := LetterNumber(s[0]);
      p := Short(i);
      LetterMeans(i);
      assert Ascii("\\") == [BACKSLASH];
      assert [BACKSLASH] + s == [BACKSLASH] + [s[0]] + s[1..];
    } else {
      assert s[0] == 117;
      p := UnicodeIsPart(s[1..]);
      LetterU();
      hide UnicodeEscape, PartText, PartBytes, GoodPart, Ascii;
      assert [BACKSLASH] + s == [BACKSLASH, 117] + s[1..];
    }
  }

  lemma LetterNumber(c: Byte) returns (i: nat)
    requires Unescaped(c).Some?
    ensures i < 8 && LETTERS[i] < 128 as char && LETTERS[i] as int == c && Unescaped(c) == Some(MEANT[i])
  {
    i := if c == 34 then 0 else if c == 92 then 1 else if c == 47 then 2 else if c == 98 then 3 else if c == 102 then 4
         else if c == 110 then 5 else if c == 114 then 6 else 7;
    LetterMeans(i);
    assert LETTERS[0] == '\"' && LETTERS[1] == '\\' && LETTERS[2] == '/' && LETTERS[3] == 'b';
    assert LETTERS[4] == 'f' && LETTERS[5] == 'n' && LETTERS[6] == 'r' && LETTERS[7] == 't';
  }

  /** What UnicodeEscape has read when it accepts. */
  lemma UnicodeCases(s: seq<Byte>)
    requires UnicodeEscape(s).Got?
    ensures ReadHex(s).Got?
    ensures var h := ReadHex(s);
            if IsSurrogate(h.value) then
              && h.value <= 0xDBFF && |h.rest| >= 2 && h.rest[0] == BACKSLASH && h.rest[1] == 117
              && var l := ReadHex(h.rest[2..]);
              && l.Got? && 0xDC00 <= l.value <= 0xDFFF
              && UnicodeEscape(s) == Got(Encode(PairPoint(h.value, l.value)), l.rest)
            else UnicodeEscape(s) == Got(Encode(h.value), h.rest)
  {
    hide ReadHex, Encode;
  }

  lemma UnicodeIsPart(s: seq<Byte>) returns (p: Part)
    requires UnicodeEscape(s).Got?
    ensures GoodPart(p) && Ascii("\\u") + s == PartText(p) + UnicodeEscape(s).rest && PartBytes(p) == UnicodeEscape(s).value
  {
    hide UnicodeEscape, Encode, WritesFour, Ascii, PairPoint, GoodPart, PartText, PartBytes;
    UnicodeCases(s);
    var h := ReadHex(s);
    HexOnly(s);
    assert s == s[..4] + h.rest;
    if IsSurrogate(h.value) {
      var r := h.rest[2..];
      HexOnly(r);
      var l := ReadHex(r);
      assert h.rest == [BACKSLASH, 117] + r && r == r[..4] + l.rest;
      hide ReadHex;
      p := PairPart(s[..4], r[..4], h.value, l.value, l.rest);
    } else {
      p := BasicPart(s[..4], h.value, h.rest);
    }
  }

  lemma BasicPart(h: seq<Byte>, v: nat, rest: seq<Byte>) returns (p: Part)
    requires WritesFour(h, v) && !IsSurrogate(v)
    ensures GoodPart(p) && Ascii("\\u") + (h + rest) == PartText(p) + rest && PartBytes(p) == Encode(v)
  {
    p := Basic(h, v);
    hide Encode, WritesFour, Ascii;
    assert Ascii("\\u") + (h + rest) == Ascii("\\u") + h + rest;
  }

  lemma PairPart(high: seq<Byte>, low: seq<Byte>, h: nat, l: nat, rest: seq<Byte>) returns (p: Part)
    requires WritesFour(high, h) && WritesFour(low, l) && 0xD800 <= h <= 0xDBFF && 0xDC00 <= l <= 0xDFFF
    ensures GoodPart(p) && PartBytes(p) == Encode(PairPoint(h, l))
    ensures Ascii("\\u") + (high + ([BACKSLASH, 117] + (low + rest))) == PartText(p) + rest
  {
    var cp := JoinHalves(h, l);
    p := Pair(high, low, cp);
    assert cp == PairPoint(h, l);
    LetterU();
    hide Encode, WritesFour, Ascii, PairPoint;
    assert Ascii("\\u") + (high + ([BACKSLASH, 117] + (low + rest))) == Ascii("\\u") + high + Ascii("\\u") + low + rest;
  }

  lemma JoinHalves(h: nat, l: nat) returns (cp: nat)
    requires 0xD800 <= h <= 0xDBFF && 0xDC00 <= l <= 0xDFFF
    ensures cp == 0x1_0000 + h % 1024 * 1024 + l % 1024 && 0x1_0000 <= cp <= 0x10FFFF
    ensures 0xD800 + (cp - 0x1_0000) / 1024 == h && 0xDC00 + (cp - 0x1_0000) % 1024 == l
  {
    cp := 0x1_0000 + h % 1024 * 1024 + l % 1024;
    assert h % 1024 == h - 0xD800 && l % 1024 == l - 0xDC00;
  }

  lemma FirstPart(s: seq<Byte>, acc: seq<Byte>) returns (p: Part, tail: seq<Byte>)
    requires StringBody(s, acc).Got? && s != [] && s[0] != QUOTE
    ensures GoodPart(p) && s == PartText(p) + tail && |tail| < |s|
    ensures StringBody(s, acc) == StringBody(tail, acc + PartBytes(p))
  {
    if s[0] == BACKSLASH {
      p := EscapeIsPart(s[1..]);
      tail := Escape(s[1..]).rest;
      assert s == [BACKSLASH] + s[1..];
      hide GoodPart, PartText, PartBytes, Escape;
    } else {
      p, tail := Plain(s[0]), s[1..];
      assert s == [s[0]] + s[1..];
    }
  }

  /** Whatever string is read is written with such parts. */
  lemma {:induction false} StringIsParts(s: seq<Byte>, acc: seq<Byte>) returns (ps: seq<Part>)
    requires StringBody(s, acc).Got?
    ensures GoodParts(ps) && s == PartsText(ps) + [QUOTE] + StringBody(s, acc).rest
    ensures StringBody(s, acc).value == acc + PartsBytes(ps)
    decreases |s|
  {
    hide GoodPart, PartText, PartBytes, StringBody, PartsText, PartsBytes, GoodParts;
    BodyHead(s, acc);
    var r := StringBody(s, acc);
    if s[0] == QUOTE {
      ps := [];
      NoParts();
      assert s == [] + [QUOTE] + s[1..] && acc + [] == acc;
    } else {
      var p, tail := FirstPart(s, acc);
      var b := PartBytes(p);
      var more := StringIsParts(tail, acc + b);
      MoreParts(p, more);
      ps := [p] + more;
      assert s == PartText(p) + PartsText(more) + [QUOTE] + r.rest;
      assert acc + b + PartsBytes(more) == acc + (b + PartsBytes(more));
    }
  }

  lemma BodyHead(s: seq<Byte>, acc: seq<Byte>)
    requires StringBody(s, acc).Got?
    ensures s != [] && (s[0] == QUOTE ==> StringBody(s, acc) == Got(acc, s[1..]))
  {}

  lemma NoParts()
    ensures GoodParts([]) && PartsText([]) == [] && PartsBytes([]) == []
  {}

  lemma MoreParts(p: Part, more: seq<Part>)
    requires GoodPart(p) && GoodParts(more)
    ensures var ps := [p] + more;
            GoodParts(ps) && PartsText(ps) == PartText(p) + PartsText(more) && PartsBytes(ps) == PartBytes(p) + PartsBytes(more)
  {
    hide GoodPart, PartText, PartBytes;
    assert ([p] + more)[1..] == more;
  }
}
