/** The printer as it runs: text appended to one output, with an indentation level. */
module JsonPrinter {
  import opened Options
  import opened FbLayout
  import opened Conv
  import opened Utf8
  import opened JsonText
  import opened JsonParse
  import opened JsonTrip
  import opened JsonInput

  /** Documents without doubles and with 64-bit integers: all the printer is asked to print here. */
  ghost predicate Plain(doc: Doc) {
    match doc
    case Leaf(Int(n)) => -(MAX_INT64 + 1) <= n <= MAX_INT64
    case Leaf(v) => v.Null? || v.Bool? || v.Str?
    case List(items) => forall i :: 0 <= i < |items| ==> Plain(items[i])
    case Table(members) => forall i :: 0 <= i < |members| ==> Plain(members[i].value)
  }

  class Printer {
    var out: seq<Byte>
    var indentLevel: nat
    const opts: Opts

    constructor (opts: Opts)
      ensures out == [] && indentLevel == 0 && this.opts == opts
    {
      this.opts, out, indentLevel := opts, [], 0;
    }

    method Put(s: seq<Byte>)
      modifies this`out
      ensures out == old(out) + s
    {
      out := out + s;
    }

    method PutNewLine()
      modifies this`out
      ensures out == old(out) + NewLine(opts, indentLevel)
    {
      if opts.pretty {
        Put([10] + Spaces(2 * indentLevel));
      } else {
        assert out + [] == out;
      }
    }

    method PutColon()
      modifies this`out
      ensures out == old(out) + Colon(opts)
    {
      Put(Colon(opts));
    }

    /** escapeString; a byte sequence that is not UTF-8 is an error when it has to be decoded. */
    method PutString(s: seq<Byte>) returns (ok: bool)
      modifies this`out
      ensures ok == Encodable(s, opts.ascii)
      ensures ok ==> out == old(out) + Quoted(s, opts.ascii)
    {
      hide Encodable, Escaped;
      Put([QUOTE]);
      ghost var base := out;
      var p := 0;
      assert s[0..] == s;
      while p < |s|
        invariant 0 <= p <= |s| && Encodable(s[p..], opts.ascii) == Encodable(s, opts.ascii)
        invariant Encodable(s, opts.ascii) ==> base + Escaped(s, opts.ascii) == out + Escaped(s[p..], opts.ascii)
      {
        var n := PutCharacter(s[p..]);
        if n == 0 {
          return false;
        }
        assert s[p..][n..] == s[p + n..];
        p := p + n;
      }
      NothingToEscape(opts.ascii);
      assert base + Escaped(s, opts.ascii) == out + [];
      Put([QUOTE]);
      ok := true;
      assert base + Escaped(s, opts.ascii) + [QUOTE] == old(out) + Quoted(s, opts.ascii);
    }

    /** The next character escaped; how many bytes it took, or none if it is not UTF-8. */
    method PutCharacter(s: seq<Byte>) returns (n: nat)
      requires s != []
      modifies this`out
      ensures n <= |s| && (n == 0 ==> !Encodable(s, opts.ascii))
      ensures n > 0 ==> Encodable(s, opts.ascii) == Encodable(s[n..], opts.ascii)
      ensures n > 0 && Encodable(s, opts.ascii) ==>
                old(out) + Escaped(s, opts.ascii) == out + Escaped(s[n..], opts.ascii)
    {
      if opts.ascii && s[0] >= 0x80 {
        var d := DecodeUtf8(s);
        if d.Invalid? {
          return 0;
        }
        HeadPoint(s, out);
        DecodedIsEncoded(s);
        hide Decode, Hex4, Encode, Encodable, Escaped;
        Put([BACKSLASH, 117] + Hex4(d.cp));
        n := d.length;
      } else {
        HeadByte(s, opts.ascii, out);
        hide EscapedByte, Decode, Encodable, Escaped;
        Put(EscapedByte(s[0]));
        n := 1;
      }
    }

    method Print(doc: Doc) returns (ok: bool)
      requires Plain(doc)
      modifies this`out, this`indentLevel
      ensures ok == Printable(doc, opts.ascii) && (ok ==> indentLevel == old(indentLevel))
      ensures ok ==> out == old(out) + Text(doc, opts, old(indentLevel))
      decreases doc, 1
    {
      match doc
      case Leaf(Null) =>
        Put(NULL);
        ok := true;
      case Leaf(Bool(b)) =>
        Put(if b then TRUE else FALSE);
        ok := true;
      case Leaf(Int(n)) =>
        out := ToAppend(n, out);
        ok := true;
      case Leaf(Str(s)) =>
        ok := PutString(s);
      case List(items) =>
        if items == [] {
          Put([91, 93]);
          ok := true;
        } else {
          ok := PrintArray(items);
        }
      case Table(members) =>
        if members == [] {
          Put([123, 125]);
          ok := true;
        } else {
          ok := PrintObject(members);
        }
    }

    method PrintArray(items: seq<Doc>) returns (ok: bool)
      requires items != [] && Plain(List(items))
      modifies this`out, this`indentLevel
      ensures ok == Printable(List(items), opts.ascii) && (ok ==> indentLevel == old(indentLevel))
      ensures ok ==> out == old(out) + Text(List(items), opts, old(indentLevel))
      decreases items, 1
    {
      hide ItemsText, NewLine, MembersText;
      Put([91]);
      indentLevel := indentLevel + 1;
      PutNewLine();
      ghost var base := out;
      ok := PrintItems(items);
      if ok {
        indentLevel := indentLevel - 1;
        PutNewLine();
        Put([93]);
        Enclosed(old(out), 91, NewLine(opts, indentLevel + 1), ItemsText(items, opts, indentLevel + 1), NewLine(opts, indentLevel), 93);
      }
    }

    method PrintItems(items: seq<Doc>) returns (ok: bool)
      requires items != [] && forall i :: 0 <= i < |items| ==> Plain(items[i])
      modifies this`out, this`indentLevel
      ensures ok == AllPrintable(items, opts.ascii)
      ensures ok ==> indentLevel == old(indentLevel) && out == old(out) + ItemsText(items, opts, indentLevel)
      decreases items, 0
    {
      hide Text, NewLine, ItemsText;
      ok := Print(items[0]);
      if !ok {
        return;
      }
      FirstOf(old(out), items, opts, indentLevel);
      var i := 1;
      while i < |items|
        invariant 1 <= i <= |items| && indentLevel == old(indentLevel)
        invariant forall k :: 0 <= k < i ==> Printable(items[k], opts.ascii)
        invariant AllPrintable(items, opts.ascii) ==>
                    old(out) + ItemsText(items, opts, indentLevel) == out + FromItem(items, i, opts, indentLevel)
      {
        ghost var before := out;
        Put([44]);
        PutNewLine();
        ok := Print(items[i]);
        if !ok {
          return;
        }
        NextOf(before, items, i, opts, indentLevel);
        i := i + 1;
      }
      assert out + [] == out;
    }

    method PrintMember(m: Member) returns (ok: bool)
      requires Plain(m.value)
      modifies this`out, this`indentLevel
      ensures ok == (Encodable(m.key, opts.ascii) && Printable(m.value, opts.ascii))
      ensures ok ==> indentLevel == old(indentLevel) && out == old(out) + MemberText(m, opts, indentLevel)
      decreases m, 0
    {
      hide Text, Encodable, Quoted, Colon;
      ok := PutString(m.key);
      if ok {
        PutColon();
        ok := Print(m.value);
      }
    }

    method PrintMembers(members: seq<Member>) returns (ok: bool)
      requires members != [] && forall i :: 0 <= i < |members| ==> Plain(members[i].value)
      modifies this`out, this`indentLevel
      ensures ok == MembersPrintable(members, opts.ascii)
      ensures ok ==> indentLevel == old(indentLevel) && out == old(out) + MembersText(members, opts, indentLevel)
      decreases members, 0
    {
      hide MemberText, NewLine, MembersText, Encodable;
      ok := PrintMember(members[0]);
      if !ok {
        return;
      }
      FirstMemberOf(old(out), members, opts, indentLevel);
      var i := 1;
      while i < |members|
        invariant 1 <= i <= |members| && indentLevel == old(indentLevel)
        invariant forall k :: 0 <= k < i ==>
                    Encodable(members[k].key, opts.ascii) && Printable(members[k].value, opts.ascii)
        invariant MembersPrintable(members, opts.ascii) ==>
                    old(out) + MembersText(members, opts, indentLevel) == out + FromMember(members, i, opts, indentLevel)
      {
        ghost var before := out;
        Put([44]);
        PutNewLine();
        ok := PrintMember(members[i]);
        if !ok {
          return;
        }
        NextMemberOf(before, members, i, opts, indentLevel);
        i := i + 1;
      }
      assert out + [] == out;
    }

    method PrintObject(members: seq<Member>) returns (ok: bool)
      requires members != [] && Plain(Table(members))
      modifies this`out, this`indentLevel
      ensures ok == Printable(Table(members), opts.ascii) && (ok ==> indentLevel == old(indentLevel))
      ensures ok ==> out == old(out) + Text(Table(members), opts, old(indentLevel))
      decreases members, 1
    {
      hide ItemsText, NewLine, MembersText, Encodable;
      Put([123]);
      indentLevel := indentLevel + 1;
      PutNewLine();
      ok := PrintMembers(members);
      if ok {
        indentLevel := indentLevel - 1;
        PutNewLine();
        Put([125]);
        Enclosed(old(out), 123, NewLine(opts, indentLevel + 1), MembersText(members, opts, indentLevel + 1), NewLine(opts, indentLevel), 125);
      }
    }
  }

  lemma NothingToEscape(ascii: bool)
    ensures Encodable([], ascii) && Escaped([], ascii) == []
  {}

  lemma HeadByte(s: seq<Byte>, ascii: bool, out: seq<Byte>)
    requires s != [] && !(ascii && s[0] >= 0x80)
    ensures Encodable(s, ascii) == Encodable(s[1..], ascii)
    ensures Encodable(s, ascii) ==> out + Escaped(s, ascii) == out + EscapedByte(s[0]) + Escaped(s[1..], ascii)
  {
    hide EscapedByte, Decode;
  }

  lemma HeadPoint(s: seq<Byte>, out: seq<Byte>)
    requires s != [] && s[0] >= 0x80 && Decode(s).Point?
    ensures 0 < Decode(s).length <= |s| && Decode(s).cp <= 0xFFFF
    ensures Encodable(s, true) == Encodable(s[Decode(s).length..], true)
    ensures Encodable(s, true) ==>
              out + Escaped(s, true) == out + ([BACKSLASH, 117] + Hex4(Decode(s).cp)) + Escaped(s[Decode(s).length..], true)
  {
    hide Decode, Hex4, Encode, EscapedByte;
    DecodedIsEncoded(s);
  }

  ghost predicate AllPrintable(items: seq<Doc>, ascii: bool) {
    forall i :: 0 <= i < |items| ==> Printable(items[i], ascii)
  }

  ghost predicate MembersPrintable(members: seq<Member>, ascii: bool) {
    forall i :: 0 <= i < |members| ==> Encodable(members[i].key, ascii) && Printable(members[i].value, ascii)
  }

  lemma Enclosed(base: seq<Byte>, open: Byte, a: seq<Byte>, b: seq<Byte>, c: seq<Byte>, close: Byte)
    ensures base + [open] + a + b + c + [close] == base + ([open] + a + b + c + [close])
  {}

  /** What is left to print of a list before item i. */
  ghost function FromItem(items: seq<Doc>, i: nat, opts: Opts, level: nat): seq<Byte>
    requires 0 < i <= |items| && AllPrintable(items, opts.ascii)
  {
    if i == |items| then [] else [44] + NewLine(opts, level) + ItemsText(items[i..], opts, level)
  }

  lemma FirstOf(base: seq<Byte>, items: seq<Doc>, opts: Opts, level: nat)
    requires items != []
    ensures AllPrintable(items, opts.ascii) ==>
              base + ItemsText(items, opts, level) == base + Text(items[0], opts, level) + FromItem(items, 1, opts, level)
  {
    hide Text, NewLine;
  }

  lemma NextOf(base: seq<Byte>, items: seq<Doc>, i: nat, opts: Opts, level: nat)
    requires 0 < i < |items|
    ensures AllPrintable(items, opts.ascii) ==>
              base + FromItem(items, i, opts, level)
              == base + [44] + NewLine(opts, level) + Text(items[i], opts, level) + FromItem(items, i + 1, opts, level)
  {
    hide Text, NewLine;
    if AllPrintable(items, opts.ascii) {
      assert items[i..][1..] == items[i + 1..];
      assert ItemsText(items[i..], opts, level) == Text(items[i], opts, level) + FromItem(items, i + 1, opts, level);
    }
  }

  ghost function FromMember(members: seq<Member>, i: nat, opts: Opts, level: nat): seq<Byte>
    requires 0 < i <= |members| && MembersPrintable(members, opts.ascii)
  {
    if i == |members| then [] else [44] + NewLine(opts, level) + MembersText(members[i..], opts, level)
  }

  lemma FirstMemberOf(base: seq<Byte>, members: seq<Member>, opts: Opts, level: nat)
    requires members != []
    ensures MembersPrintable(members, opts.ascii) ==>
              base + MembersText(members, opts, level)
              == base + MemberText(members[0], opts, level) + FromMember(members, 1, opts, level)
  {
    hide MemberText, NewLine, Encodable;
  }

  lemma NextMemberOf(base: seq<Byte>, members: seq<Member>, i: nat, opts: Opts, level: nat)
    requires 0 < i < |members|
    ensures MembersPrintable(members, opts.ascii) ==>
              base + FromMember(members, i, opts, level)
              == base + [44] + NewLine(opts, level) + MemberText(members[i], opts, level) + FromMember(members, i + 1, opts, level)
  {
    hide MemberText, NewLine, Encodable;
    if MembersPrintable(members, opts.ascii) {
      assert members[i..][1..] == members[i + 1..];
      assert MembersText(members[i..], opts, level)
             == MemberText(members[i], opts, level) + FromMember(members, i + 1, opts, level);
    }
  }

  /** Printing and parsing, as they run: the value comes back exactly when the nesting allows it. */
  method PrintAndParse(doc: Doc, opts: Opts, limit: nat) returns (ok: bool, r: Option<Value>)
    requires Plain(doc)
    ensures ok == Printable(doc, opts.ascii)
    ensures ok ==> r == if Depth(doc) <= limit + 1 then Some(Denote(doc)) else None
  {
    var printer := new Printer(opts);
    ok := printer.Print(doc);
    r := None;
    if ok {
      hide ParseJson, Text;
      RoundTrip(doc, opts, limit);
      assert [] + Text(doc, opts, 0) == Text(doc, opts, 0);
      r := ParseText(printer.out, limit);
    }
  }
}
