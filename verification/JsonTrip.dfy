/** Parsing what was printed gives the value back. */
module JsonTrip {
  import opened Options
  import opened FbLayout
  import opened Conv
  import opened Utf8
  import opened JsonText
  import opened JsonParse

  lemma HexTrip(v: nat, rest: seq<Byte>)
    requires v <= 0xFFFF
    ensures ReadHex(Hex4(v) + rest) == Got(v, rest)
  {
    HexDigitTrip(v / 4096);
    HexDigitTrip(v / 256 % 16);
    HexDigitTrip(v / 16 % 16);
    HexDigitTrip(v % 16);
    FourNibbles(v);
    hide HexDigit, HexVal;
    assert (Hex4(v) + rest)[4..] == rest;
  }

  lemma HexDigitTrip(c: nat)
    requires c < 16
    ensures HexVal(HexDigit(c)) == Some(c)
  {}

  lemma FourNibbles(v: nat)
    ensures v <= 0xFFFF ==> v == v / 4096 * 4096 + v / 256 % 16 * 256 + v / 16 % 16 * 16 + v % 16
  {
    var a := v / 16;
    var b := a / 16;
    assert v / 256 == b;
    assert v / 4096 == b / 16;
  }

  /** A code point written with four hex digits comes back as its UTF-8 bytes. */
  lemma PointTrip(cp: nat, acc: seq<Byte>, tail: seq<Byte>)
    requires cp <= 0xFFFF && !IsSurrogate(cp)
    ensures StringBody([BACKSLASH, 117] + Hex4(cp) + tail, acc) == StringBody(tail, acc + Encode(cp))
  {
    var s := [BACKSLASH, 117] + Hex4(cp) + tail;
    HexTrip(cp, tail);
    hide Hex4, ReadHex, Encode;
    assert s[1..] == [117] + (Hex4(cp) + tail);
    assert s[1..][1..] == Hex4(cp) + tail;
    assert UnicodeEscape(Hex4(cp) + tail) == Got(Encode(cp), tail);
    assert Escape(s[1..]) == Got(Encode(cp), tail);
  }

  lemma ByteTrip(b: Byte, acc: seq<Byte>, tail: seq<Byte>)
    ensures StringBody(EscapedByte(b) + tail, acc) == StringBody(tail, acc + [b])
  {
    var s := EscapedByte(b) + tail;
    if b == BACKSLASH || b == QUOTE {
      assert s[1..] == [b] + tail && s[1..][1..] == tail;
    } else if b > 0x1F {
      assert s[1..] == tail;
    } else if Letter(b).Some? {
      assert s[1..] == [Letter(b).value] + tail && s[1..][1..] == tail;
    } else {
      PointTrip(b, acc, tail);
    }
  }

  /** Any string, escaped and read back. */
  lemma {:induction false} StringTrip(s: seq<Byte>, ascii: bool, acc: seq<Byte>, rest: seq<Byte>)
    requires Encodable(s, ascii)
    ensures StringBody(Escaped(s, ascii) + [QUOTE] + rest, acc) == Got(acc + s, rest)
    decreases |s|
  {
    hide EscapedByte, Hex4, Encode, Decode, Escape;
    if s == [] {
      assert Escaped(s, ascii) + [QUOTE] + rest == [QUOTE] + rest;
      assert acc + s == acc;
    } else if ascii && s[0] >= 0x80 {
      var n := Decode(s).length;
      DecodedIsEncoded(s);
      var tail := Escaped(s[n..], ascii) + [QUOTE] + rest;
      assert Escaped(s, ascii) + [QUOTE] + rest == [BACKSLASH, 117] + Hex4(Decode(s).cp) + tail;
      PointTrip(Decode(s).cp, acc, tail);
      StringTrip(s[n..], ascii, acc + s[..n], rest);
      assert acc + s[..n] + s[n..] == acc + s;
    } else {
      var tail := Escaped(s[1..], ascii) + [QUOTE] + rest;
      assert Escaped(s, ascii) + [QUOTE] + rest == EscapedByte(s[0]) + tail;
      ByteTrip(s[0], acc, tail);
      StringTrip(s[1..], ascii, acc + [s[0]], rest);
      assert acc + [s[0]] + s[1..] == acc + s;
    }
  }

  /** What may follow a value: punctuation, a blank, a zero byte, or nothing. */
  predicate Ends(rest: seq<Byte>) {
    rest == [] || rest[0] == 44 || rest[0] == 93 || rest[0] == 125 || rest[0] == 0 || IsBlank(rest[0])
  }

  /** The text of a number is as long as what the parser takes for its integral part. */
  lemma IntegralTrip(n: int, rest: seq<Byte>)
    requires Ends(rest)
    ensures var s := IntText(n) + rest;
            && IntegralLength(s) == |IntText(n)| && (s[0] == MINUS <==> n < 0) && (n < 0 ==> |IntText(n)| >= 2)
            && (n >= 0 ==> IsDigit(s[0])) && (n < 0 ==> IsDigit(s[1]))
  {
    var v: nat := if n < 0 then -n else n;
    DecTextDenotes(v);
    DigitsThen(DecText(v), rest);
  }

  /** Digits with an end after them, with and without a sign before. */
  lemma DigitsThen(d: seq<Byte>, rest: seq<Byte>)
    requires d != [] && AllDigits(d) && Ends(rest)
    ensures IsDigit((d + rest)[0]) && IntegralLength(d + rest) == |d|
    ensures var s := [MINUS] + d + rest; s[0] == MINUS && IsDigit(s[1]) && IntegralLength(s) == 1 + |d|
  {
    hide LeadingDigits;
    var t := d + rest;
    assert t[..|d|] == d && t[0] == d[0];
    LeadingIs(t, |d|);
    assert ([MINUS] + d + rest)[1..] == t;
  }

  lemma NumberTrip(n: int, rest: seq<Byte>)
    requires -(MAX_INT64 + 1) <= n <= MAX_INT64 && Ends(rest)
    ensures var s := IntText(n) + rest;
            s != [] && (s[0] == MINUS || IsDigit(s[0])) && Number(s) == Got(Int(n), Trim(rest))
  {
    var d, s := IntText(n), IntText(n) + rest;
    IntegralTrip(n, rest);
    PrintThenParse(n, true, []);
    assert d + [] == d;
    assert s[..|d|] == d && s[|d|..] == rest;
    hide IntText;
    NotInfinity(s);
    NumberIs(s, |d|, n);
  }

  lemma NotInfinity(s: seq<Byte>)
    requires s != [] && (s[0] == MINUS ==> |s| > 1 && IsDigit(s[1]))
    ensures !([MINUS] + INFINITY <= s)
  {}

  lemma NumberIs(s: seq<Byte>, k: nat, n: int)
    requires s != [] && (s[0] == MINUS || IsDigit(s[0])) && !([MINUS] + INFINITY <= s)
    requires IntegralLength(s) == k <= |s| && (s[0] == MINUS ==> k >= 2) && Ends(s[k..])
    requires ParseInt(s[..k], true) == Some((n, []))
    ensures Number(s) == Got(Int(n), Trim(s[k..]))
  {
    hide ParseInt, IntegralLength, AfterFraction, INFINITY;
  }

  lemma {:induction false} TrimSpaces(n: nat, s: seq<Byte>)
    ensures Trim(Spaces(n) + s) == Trim(s)
    decreases n
  {
    if n == 0 {
      assert Spaces(n) + s == s;
    } else {
      assert Spaces(n) == [32] + Spaces(n - 1);
      assert (Spaces(n) + s)[1..] == Spaces(n - 1) + s;
      TrimSpaces(n - 1, s);
    }
  }

  lemma TrimNewLine(opts: Opts, level: nat, s: seq<Byte>)
    ensures Trim(NewLine(opts, level) + s) == Trim(s)
  {
    if opts.pretty {
      var t := NewLine(opts, level) + s;
      assert t[0] == 10 && t[1..] == Spaces(2 * level) + s;
      TrimSpaces(2 * level, s);
    } else {
      assert NewLine(opts, level) + s == s;
    }
  }

  lemma TrimTwice(s: seq<Byte>)
    ensures Trim(Trim(s)) == Trim(s)
  {}

  lemma KeywordTrip(v: Value, level: nat, limit: nat, rest: seq<Byte>)
    requires (v.Null? || v.Bool?) && level <= limit
    ensures ParseValue(LeafText(v, false) + rest, level, limit) == Got(v, rest)
  {
    hide ParseArray, ParseObject, StringBody, Number;
    var s := LeafText(v, false) + rest;
    match v
    case Null => assert s[4..] == rest;
    case Bool(b) =>
      if b {
        assert s[4..] == rest;
      } else {
        assert s[5..] == rest;
      }
  }

  lemma QuotedTrip(t: seq<Byte>, ascii: bool, rest: seq<Byte>)
    requires Encodable(t, ascii)
    ensures var s := Quoted(t, ascii) + rest;
            s != [] && s[0] == QUOTE && StringBody(s[1..], []) == Got(t, rest)
  {
    hide Escaped, StringBody, Encodable;
    var s := Quoted(t, ascii) + rest;
    StringTrip(t, ascii, [], rest);
    assert s[1..] == Escaped(t, ascii) + [QUOTE] + rest;
    assert [] + t == t;
  }

  /** A leaf, whose text begins with a character that tells what it is. */
  lemma LeafTrip(v: Value, ascii: bool, level: nat, limit: nat, rest: seq<Byte>)
    requires Printable(Leaf(v), ascii) && Ends(rest) && level <= limit
    ensures var r := ParseValue(LeafText(v, ascii) + rest, level, limit);
            r.Got? && r.value == v && Trim(r.rest) == Trim(rest)
  {
    hide ParseArray, ParseObject, Number, Keyword, Encodable, Quoted, IntText, ParseValue;
    match v
    case Null => KeywordTrip(v, level, limit, rest);
    case Bool(_) => KeywordTrip(v, level, limit, rest);
    case Int(n) =>
      NumberTrip(n, rest);
      NumberAt(IntText(n) + rest, level, limit);
      TrimTwice(rest);
    case Str(t) =>
      QuotedTrip(t, ascii, rest);
      StringAt(Quoted(t, ascii) + rest, level, limit);
  }

  lemma NumberAt(s: seq<Byte>, level: nat, limit: nat)
    requires s != [] && (s[0] == MINUS || IsDigit(s[0])) && level <= limit
    ensures ParseValue(s, level, limit) == Number(s)
  {
    hide ParseArray, ParseObject, Number, Keyword, StringBody;
    assert Trim(s) == s;
  }

  lemma StringAt(s: seq<Byte>, level: nat, limit: nat)
    requires s != [] && s[0] == QUOTE && level <= limit && StringBody(s[1..], []).Got?
    ensures ParseValue(s, level, limit) == Got(Str(StringBody(s[1..], []).value), StringBody(s[1..], []).rest)
  {
    hide ParseArray, ParseObject, Number, Keyword;
    assert Trim(s) == s;
  }

  /** Whether a document fits under the recursion limit from here. */
  ghost predicate FitsAt(depth: nat, level: nat, limit: nat) {
    level + depth <= limit + 1
  }

  /** The parser's verdict on a printed document: its value, or nothing when it is nested too deep. */
  ghost predicate Verdict(r: Parsed<Value>, fits: bool, v: Value, rest: seq<Byte>) {
    if fits then r.Got? && r.value == v && Trim(r.rest) == Trim(rest) else r.Bad?
  }

  /** A printed text begins with a character that starts a value. */
  lemma Begins(doc: Doc, opts: Opts, indent: nat)
    requires Printable(doc, opts.ascii)
    ensures var s := Text(doc, opts, indent); s != [] && !IsBlank(s[0]) && s[0] != 93 && s[0] != 125
  {
    hide ItemsText, MembersText, NewLine, Encodable, Escaped;
    if doc.Leaf? && doc.v.Int? {
      var n := doc.v.n;
      DecTextDenotes(if n < 0 then -n else n);
      hide DecText;
    }
  }

  /** An array or an object at the start of the text. */
  lemma BracketAt(s: seq<Byte>, level: nat, limit: nat)
    requires s != [] && level <= limit
    ensures s[0] == 91 ==> ParseValue(s, level, limit) == ParseArray(s[1..], level + 1, limit)
    ensures s[0] == 123 ==> ParseValue(s, level, limit) == ParseObject(s[1..], level + 1, limit)
  {
    hide ParseArray, ParseObject, Number, Keyword, StringBody;
    assert s[0] == 91 || s[0] == 123 ==> Trim(s) == s;
  }

  /** Text after a new line, as the parser comes upon it. */
  lemma Arrives(doc: Doc, opts: Opts, indent: nat, more: seq<Byte>)
    requires Printable(doc, opts.ascii)
    ensures Trim(NewLine(opts, indent) + (Text(doc, opts, indent) + more)) == Text(doc, opts, indent) + more
  {
    Begins(doc, opts, indent);
    TrimNewLine(opts, indent, Text(doc, opts, indent) + more);
  }

  lemma {:induction false} TextTrip(doc: Doc, opts: Opts, indent: nat, level: nat, limit: nat, rest: seq<Byte>)
    requires Printable(doc, opts.ascii) && Ends(rest)
    ensures Verdict(ParseValue(Text(doc, opts, indent) + rest, level, limit), FitsAt(Depth(doc), level, limit), Denote(doc), rest)
    decreases doc
  {
    if level > limit {
      AtLeastOne(doc);
    } else {
      match doc
      case Leaf(v) => LeafTrip(v, opts.ascii, level, limit, rest);
      case List(items) => ListTrip(doc, opts, indent, level, limit, rest);
      case Table(members) => TableTrip(doc, opts, indent, level, limit, rest);
    }
  }

  lemma AtLeastOne(doc: Doc)
    ensures Depth(doc) >= 1
  {}

  /** What follows the first item of a list, up to the text after the last. */
  ghost function More(items: seq<Doc>, opts: Opts, indent: nat, tail: seq<Byte>): seq<Byte>
    requires items != [] && (forall i :: 0 <= i < |items| ==> Printable(items[i], opts.ascii))
  {
    if |items| == 1 then tail
    else [44] + (NewLine(opts, indent) + (ItemsText(items[1..], opts, indent) + tail))
  }

  lemma FirstItem(items: seq<Doc>, opts: Opts, indent: nat, tail: seq<Byte>)
    requires items != [] && (forall i :: 0 <= i < |items| ==> Printable(items[i], opts.ascii))
    ensures ItemsText(items, opts, indent) + tail == Text(items[0], opts, indent) + More(items, opts, indent, tail)
  {
    hide Text, NewLine;
  }

  /** The items of a list after a new line: the parser comes upon the first. */
  lemma ItemsArrive(items: seq<Doc>, opts: Opts, indent: nat, tail: seq<Byte>)
    requires items != [] && (forall i :: 0 <= i < |items| ==> Printable(items[i], opts.ascii))
    ensures var body := ItemsText(items, opts, indent) + tail;
            && Trim(NewLine(opts, indent) + body) == body && body != [] && body[0] != 93
  {
    hide Text, NewLine, More, ItemsText;
    FirstItem(items, opts, indent, tail);
    Begins(items[0], opts, indent);
    Arrives(items[0], opts, indent, More(items, opts, indent, tail));
  }

  lemma {:induction false} ListTrip(doc: Doc, opts: Opts, indent: nat, level: nat, limit: nat, rest: seq<Byte>)
    requires doc.List? && Printable(doc, opts.ascii) && Ends(rest) && level <= limit
    ensures Verdict(ParseValue(Text(doc, opts, indent) + rest, level, limit), FitsAt(Depth(doc), level, limit), Denote(doc), rest)
    decreases doc.items, 1
  {
    var items, s := doc.items, Text(doc, opts, indent) + rest;
    if items == [] {
      EmptyAt(s, level, limit, rest);
    } else {
      var tail := NewLine(opts, indent) + ([93] + rest);
      ListOpens(doc, opts, indent, rest);
      hide ParseValue, NewLine, ParseItems, ItemsText, MembersText, Text;
      BracketAt(s, level, limit);
      ItemsArrive(items, opts, indent + 1, tail);
      TailOf(opts, indent, 93, rest);
      ItemsTrip(items, opts, indent + 1, level + 1, limit, [], tail, rest);
      assert [] + DenoteItems(items) == DenoteItems(items);
    }
  }

  lemma ListOpens(doc: Doc, opts: Opts, indent: nat, rest: seq<Byte>)
    requires doc.List? && Printable(doc, opts.ascii) && doc.items != []
    ensures var s := Text(doc, opts, indent) + rest;
            && s != [] && s[0] == 91
            && s[1..] == NewLine(opts, indent + 1)
                         + (ItemsText(doc.items, opts, indent + 1) + (NewLine(opts, indent) + ([93] + rest)))
  {
    hide NewLine, ItemsText;
  }

  lemma TableOpens(doc: Doc, opts: Opts, indent: nat, rest: seq<Byte>)
    requires doc.Table? && Printable(doc, opts.ascii) && doc.members != []
    ensures var s := Text(doc, opts, indent) + rest;
            && s != [] && s[0] == 123
            && s[1..] == NewLine(opts, indent + 1)
                         + (MembersText(doc.members, opts, indent + 1) + (NewLine(opts, indent) + ([125] + rest)))
  {
    hide NewLine, MembersText;
  }

  /** An empty array or object. */
  lemma EmptyAt(s: seq<Byte>, level: nat, limit: nat, rest: seq<Byte>)
    requires level <= limit && (s == [91, 93] + rest || s == [123, 125] + rest)
    ensures ParseValue(s, level, limit) == Got(if s[0] == 91 then Arr([]) else Obj(map[]), rest)
  {
    hide ParseValue;
    BracketAt(s, level, limit);
    assert s[1..] == [s[1]] + rest;
    assert Trim(s[1..]) == s[1..];
    assert s[1..][1..] == rest;
  }

  /** The closing bracket on its line. */
  lemma TailOf(opts: Opts, indent: nat, c: Byte, rest: seq<Byte>)
    requires c == 93 || c == 125
    ensures var tail := NewLine(opts, indent) + ([c] + rest); Trim(tail) == [c] + rest && Ends(tail)
  {
    TrimNewLine(opts, indent, [c] + rest);
    assert Trim([c] + rest) == [c] + rest;
  }

  lemma {:induction false} ItemsTrip(items: seq<Doc>, opts: Opts, indent: nat, level: nat, limit: nat,
                                     acc: seq<Value>, tail: seq<Byte>, rest: seq<Byte>)
    requires items != [] && (forall i :: 0 <= i < |items| ==> Printable(items[i], opts.ascii))
    requires Trim(tail) == [93] + rest && Ends(tail)
    ensures var r := ParseItems(ItemsText(items, opts, indent) + tail, acc, level, limit);
            if FitsAt(DepthItems(items), level, limit) then r == Got(Arr(acc + DenoteItems(items)), rest) else r.Bad?
    decreases items, 0
  {
    hide Text, NewLine, ParseValue, Printable, ParseItems, ItemsText, Denote, Depth, Ends;
    var first, more := items[0], More(items, opts, indent, tail);
    FirstItem(items, opts, indent, tail);
    TextTrip(first, opts, indent, level, limit, more);
    if |items| > 1 {
      ItemsArrive(items[1..], opts, indent, tail);
    }
    ItemsStep(ItemsText(items, opts, indent) + tail, acc, level, limit);
    if FitsAt(Depth(first), level, limit) {
      if |items| == 1 {
        assert items[1..] == [];
        assert DepthItems(items[1..]) == 0;
        assert ([93] + rest)[1..] == rest;
        assert DenoteItems(items) == [Denote(first)];
      } else {
        var body := ItemsText(items[1..], opts, indent) + tail;
        assert more[1..] == NewLine(opts, indent) + body;
        assert Trim(more) == more;
        ItemsTrip(items[1..], opts, indent, level, limit, acc + [Denote(first)], tail, rest);
        assert acc + [Denote(first)] + DenoteItems(items[1..]) == acc + DenoteItems(items);
      }
    }
  }

  /** A key and its colon bring the parser to the value. */
  lemma KeyTrip(m: Member, opts: Opts, indent: nat, more: seq<Byte>)
    requires Encodable(m.key, opts.ascii) && Printable(m.value, opts.ascii)
    ensures var s := MemberText(m, opts, indent) + more;
            s != [] && s[0] == QUOTE && ParseKey(s) == Got(m.key, Text(m.value, opts, indent) + more)
  {
    var value := Text(m.value, opts, indent) + more;
    var s := MemberText(m, opts, indent) + more;
    var after := Colon(opts) + value;
    Begins(m.value, opts, indent);
    hide Text, Quoted, Encodable, StringBody;
    assert s == Quoted(m.key, opts.ascii) + after;
    QuotedTrip(m.key, opts.ascii, after);
    ColonTrip(opts, value);
  }

  lemma ColonTrip(opts: Opts, value: seq<Byte>)
    requires value != [] && !IsBlank(value[0])
    ensures var t := Trim(Colon(opts) + value); StartsWith(t, 58) && Trim(t[1..]) == value
  {
    assert Trim(value) == value;
    if opts.pretty {
      var s := Colon(opts) + value;
      assert s[1..] == [58, 32] + value && s[1..][1..] == [32] + value;
      assert Trim(s) == s[1..];
      assert ([32] + value)[1..] == value;
    } else {
      var s := Colon(opts) + value;
      assert Trim(s) == s && s[1..] == value;
    }
  }

  ghost function MoreMembers(members: seq<Member>, opts: Opts, indent: nat, tail: seq<Byte>): seq<Byte>
    requires members != []
    requires forall i :: 0 <= i < |members| ==>
               Encodable(members[i].key, opts.ascii) && Printable(members[i].value, opts.ascii)
  {
    if |members| == 1 then tail
    else [44] + (NewLine(opts, indent) + (MembersText(members[1..], opts, indent) + tail))
  }

  lemma FirstMember(members: seq<Member>, opts: Opts, indent: nat, tail: seq<Byte>)
    requires members != []
    requires forall i :: 0 <= i < |members| ==>
               Encodable(members[i].key, opts.ascii) && Printable(members[i].value, opts.ascii)
    ensures MembersText(members, opts, indent) + tail
            == MemberText(members[0], opts, indent) + MoreMembers(members, opts, indent, tail)
  {
    hide MemberText, NewLine;
  }

  lemma MembersArrive(members: seq<Member>, opts: Opts, indent: nat, tail: seq<Byte>)
    requires members != []
    requires forall i :: 0 <= i < |members| ==>
               Encodable(members[i].key, opts.ascii) && Printable(members[i].value, opts.ascii)
    ensures var body := MembersText(members, opts, indent) + tail;
            && Trim(NewLine(opts, indent) + body) == body && body != [] && body[0] != 125
  {
    hide MemberText, NewLine, MoreMembers, MembersText;
    FirstMember(members, opts, indent, tail);
    var body := MembersText(members, opts, indent) + tail;
    KeyTrip(members[0], opts, indent, MoreMembers(members, opts, indent, tail));
    TrimNewLine(opts, indent, body);
    assert Trim(body) == body;
  }

  lemma {:induction false} TableTrip(doc: Doc, opts: Opts, indent: nat, level: nat, limit: nat, rest: seq<Byte>)
    requires doc.Table? && Printable(doc, opts.ascii) && Ends(rest) && level <= limit
    ensures Verdict(ParseValue(Text(doc, opts, indent) + rest, level, limit), FitsAt(Depth(doc), level, limit), Denote(doc), rest)
    decreases doc.members, 1
  {
    var members, s := doc.members, Text(doc, opts, indent) + rest;
    if members == [] {
      EmptyAt(s, level, limit, rest);
    } else {
      var tail := NewLine(opts, indent) + ([125] + rest);
      TableOpens(doc, opts, indent, rest);
      hide ParseValue, NewLine, ParseMembers, MembersText, ItemsText, Text;
      BracketAt(s, level, limit);
      MembersArrive(members, opts, indent + 1, tail);
      TailOf(opts, indent, 125, rest);
      MembersTrip(members, opts, indent + 1, level + 1, limit, map[], tail, rest);
    }
  }

  lemma {:induction false} MembersTrip(members: seq<Member>, opts: Opts, indent: nat, level: nat, limit: nat,
                                       acc: map<seq<Byte>, Value>, tail: seq<Byte>, rest: seq<Byte>)
    requires members != []
    requires forall i :: 0 <= i < |members| ==>
               Encodable(members[i].key, opts.ascii) && Printable(members[i].value, opts.ascii)
    requires Trim(tail) == [125] + rest && Ends(tail)
    ensures var r := ParseMembers(MembersText(members, opts, indent) + tail, acc, level, limit);
            if FitsAt(DepthMembers(members), level, limit) then r == Got(Obj(Inserted(acc, members)), rest) else r.Bad?
    decreases members, 0
  {
    hide Text, MemberText, NewLine, ParseValue, ParseKey, Encodable, Printable, ParseMembers, MembersText;
    var m, more := members[0], MoreMembers(members, opts, indent, tail);
    FirstMember(members, opts, indent, tail);
    KeyTrip(m, opts, indent, more);
    TextTrip(m.value, opts, indent, level, limit, more);
    if |members| > 1 {
      MembersArrive(members[1..], opts, indent, tail);
    }
    var t := MembersText(members, opts, indent) + tail;
    MembersStep(t, acc, level, limit);
    if FitsAt(Depth(m.value), level, limit) {
      if |members| == 1 {
        assert members[1..] == [];
        assert DepthMembers(members[1..]) == 0;
        assert ([125] + rest)[1..] == rest;
      } else {
        var body := MembersText(members[1..], opts, indent) + tail;
        assert more[1..] == NewLine(opts, indent) + body;
        assert Trim(more) == more;
        MembersTrip(members[1..], opts, indent, level, limit, acc[m.key := Denote(m.value)], tail, rest);
      }
    }
  }

  /** One turn of the loop of parseArray. */
  lemma ItemsStep(s: seq<Byte>, acc: seq<Value>, level: nat, limit: nat)
    ensures var v := ParseValue(s, level, limit);
            && (v.Bad? ==> ParseItems(s, acc, level, limit).Bad?)
            && (v.Got? && StartsWith(Trim(v.rest), 44) ==>
                  ParseItems(s, acc, level, limit) == ParseItems(Trim(Trim(v.rest)[1..]), acc + [v.value], level, limit))
            && (v.Got? && StartsWith(Trim(v.rest), 93) ==>
                  ParseItems(s, acc, level, limit) == Got(Arr(acc + [v.value]), Trim(v.rest)[1..]))
  {
    hide ParseValue, Trim;
  }

  /** One turn of the loop of parseObject. */
  lemma MembersStep(s: seq<Byte>, acc: map<seq<Byte>, Value>, level: nat, limit: nat)
    requires ParseKey(s).Got?
    ensures var k := ParseKey(s); var v := ParseValue(k.rest, level, limit);
            && (v.Bad? ==> ParseMembers(s, acc, level, limit).Bad?)
            && (v.Got? && StartsWith(Trim(v.rest), 44) ==>
                  ParseMembers(s, acc, level, limit) == ParseMembers(Trim(Trim(v.rest)[1..]), acc[k.value := v.value], level, limit))
            && (v.Got? && StartsWith(Trim(v.rest), 125) ==>
                  ParseMembers(s, acc, level, limit) == Got(Obj(acc[k.value := v.value]), Trim(v.rest)[1..]))
  {
    hide ParseValue, ParseKey, Trim;
  }

  /**
   * What parseJson makes of the text of a document: its value, exactly when
   * it is nested at most one deeper than the recursion limit.
   */
  lemma RoundTrip(doc: Doc, opts: Opts, limit: nat)
    requires Printable(doc, opts.ascii)
    ensures ParseJson(Text(doc, opts, 0), limit) == if Depth(doc) <= limit + 1 then Some(Denote(doc)) else None
  {
    hide ParseValue, Text;
    TextTrip(doc, opts, 0, 0, limit, []);
    assert Text(doc, opts, 0) + [] == Text(doc, opts, 0);
  }

  /** The same with blanks before it, and with blanks and whatever the parser lets follow behind it. */
  lemma PaddedTrip(doc: Doc, opts: Opts, limit: nat, before: seq<Byte>, after: seq<Byte>)
    requires Printable(doc, opts.ascii) && Ends(after) && forall i :: 0 <= i < |before| ==> IsBlank(before[i])
    ensures ParseJson(before + Text(doc, opts, 0) + after, limit)
            == if Depth(doc) <= limit + 1 && (Trim(after) == [] || Trim(after)[0] == 0) then Some(Denote(doc)) else None
  {
    var s := Text(doc, opts, 0) + after;
    assert before + Text(doc, opts, 0) + after == before + s;
    Begins(doc, opts, 0);
    hide Text;
    TrimBlanks(before, s);
    SameValue(before + s, s, 0, limit);
    hide ParseValue, Trim;
    TextTrip(doc, opts, 0, 0, limit, after);
  }

  lemma {:induction false} TrimBlanks(w: seq<Byte>, s: seq<Byte>)
    requires forall i :: 0 <= i < |w| ==> IsBlank(w[i])
    ensures Trim(w + s) == Trim(s)
    decreases |w|
  {
    if w == [] {
      assert w + s == s;
    } else {
      assert (w + s)[1..] == w[1..] + s;
      TrimBlanks(w[1..], s);
    }
  }

  lemma SameValue(s: seq<Byte>, t: seq<Byte>, level: nat, limit: nat)
    requires Trim(s) == Trim(t)
    ensures ParseValue(s, level, limit) == ParseValue(t, level, limit)
  {
    hide ParseArray, ParseObject, Number, Keyword, StringBody;
  }

  /** Values that can be printed: no doubles, 64-bit integers, strings the options allow. */
  ghost predicate Storable(v: Value, ascii: bool) {
    match v
    case Null => true
    case Bool(_) => true
    case Int(n) => -(MAX_INT64 + 1) <= n <= MAX_INT64
    case Double(_) => false
    case Str(s) => Encodable(s, ascii)
    case Arr(items) => forall i :: 0 <= i < |items| ==> Storable(items[i], ascii)
    case Obj(members) => forall k :: k in members ==> Encodable(k, ascii) && Storable(members[k], ascii)
  }

  /** A value nested at most n deep, a scalar being one deep. */
  ghost predicate Within(v: Value, n: int)
    decreases v, 1
  {
    && n > 0
    && match v
       case Arr(items) => ItemsWithin(items, n - 1)
       case Obj(members) => forall k :: k in members ==> Within(members[k], n - 1)
       case _ => true
  }

  ghost predicate ItemsWithin(items: seq<Value>, n: int)
    decreases items, 0
  {
    forall i :: 0 <= i < |items| ==> Within(items[i], n)
  }

  /** A document that shows a value: its members once each, in whatever order they come. */
  lemma {:induction false} Listing(v: Value, ascii: bool) returns (doc: Doc)
    requires Storable(v, ascii)
    ensures Denote(doc) == v && Printable(doc, ascii)
    ensures forall n :: Within(v, n) <==> Depth(doc) <= n
    decreases v
  {
    match v
    case Arr(items) =>
      var docs := ListingItems(items, ascii);
      doc := List(docs);
      forall n ensures Within(v, n) <==> Depth(doc) <= n {
        assert ItemsWithin(items, n - 1) <==> items == [] || DepthItems(docs) <= n - 1;
      }
    case Obj(members) =>
      var ms := ListingMembers(members, members.Keys, map[], ascii, v);
      doc := Table(ms);
      forall n ensures Within(v, n) <==> Depth(doc) <= n {
        assert KeysWithin(members, members.Keys, n - 1) <==> members.Keys == {} || DepthMembers(ms) <= n - 1;
      }
    case _ =>
      doc := Leaf(v);
  }

  lemma {:induction false} ListingItems(items: seq<Value>, ascii: bool) returns (docs: seq<Doc>)
    requires forall i :: 0 <= i < |items| ==> Storable(items[i], ascii)
    ensures DenoteItems(docs) == items && forall i :: 0 <= i < |docs| ==> Printable(docs[i], ascii)
    ensures forall n :: ItemsWithin(items, n) <==> items == [] || DepthItems(docs) <= n
    ensures items == [] <==> docs == []
    decreases items
  {
    docs := [];
    if items != [] {
      var doc := Listing(items[0], ascii);
      var more := ListingItems(items[1..], ascii);
      docs := [doc] + more;
      assert docs[1..] == more;
      forall n ensures ItemsWithin(items, n) <==> DepthItems(docs) <= n {
        FirstWithin(items, n);
      }
    }
  }

  lemma FirstWithin(items: seq<Value>, n: int)
    requires items != []
    ensures ItemsWithin(items, n) <==> Within(items[0], n) && ItemsWithin(items[1..], n)
  {
    if Within(items[0], n) && ItemsWithin(items[1..], n) {
      forall i | 0 < i < |items| ensures Within(items[i], n) {
        assert items[i] == items[1..][i - 1];
      }
    }
  }

  ghost predicate KeysWithin(members: map<seq<Byte>, Value>, keys: set<seq<Byte>>, n: int)
    requires keys <= members.Keys
  {
    forall k :: k in keys ==> Within(members[k], n)
  }

  /** The members whose keys are still to come, after those already in the object. */
  lemma {:induction false} ListingMembers(members: map<seq<Byte>, Value>, keys: set<seq<Byte>>, done: map<seq<Byte>, Value>,
                                          ascii: bool, v: Value) returns (ms: seq<Member>)
    requires v == Obj(members) && Storable(v, ascii) && keys <= members.Keys
    requires done.Keys == members.Keys - keys && forall k :: k in done ==> done[k] == members[k]
    ensures Inserted(done, ms) == members
    ensures forall i :: 0 <= i < |ms| ==> Encodable(ms[i].key, ascii) && Printable(ms[i].value, ascii)
    ensures forall n :: KeysWithin(members, keys, n) <==> keys == {} || DepthMembers(ms) <= n
    ensures keys == {} <==> ms == []
    decreases v, 0, |keys|
  {
    ms := [];
    if keys == {} {
      assert done == members;
    } else {
      var k :| k in keys;
      var doc := Listing(members[k], ascii);
      var more := ListingMembers(members, keys - {k}, done[k := members[k]], ascii, v);
      ms := [Member(k, doc)] + more;
      assert ms[1..] == more;
      forall n ensures KeysWithin(members, keys, n) <==> DepthMembers(ms) <= n {
        assert KeysWithin(members, keys, n) <==> Within(members[k], n) && KeysWithin(members, keys - {k}, n);
      }
    }
  }

  /**
   * Every storable value has a text, which parses back to it exactly when the value is nested at
   * most one deeper than the recursion limit; a deeper one is refused.
   */
  lemma ValueRoundTrip(v: Value, opts: Opts, limit: nat) returns (doc: Doc)
    requires Storable(v, opts.ascii)
    ensures Denote(doc) == v && Printable(doc, opts.ascii)
    ensures ParseJson(Text(doc, opts, 0), limit) == if Within(v, limit + 1) then Some(v) else None
  {
    hide ParseJson, Text;
    doc := Listing(v, opts.ascii);
    RoundTrip(doc, opts, limit);
  }
}
