/** JSON values and the text the printer makes of them. */
module JsonText {
  import opened Options
  import opened FbLayout
  import opened Conv
  import opened Utf8

  /** What parsing gives: a dynamic. A double stands for the text it was read from. */
  datatype Value =
    | Null
    | Bool(b: bool)
    | Int(n: int)
    | Double(text: seq<Byte>)
    | Str(s: seq<Byte>)
    | Arr(items: seq<Value>)
    | Obj(members: map<seq<Byte>, Value>)

  /** A value in the order it is printed: the members of an object in any order the table iterates in. */
  datatype Doc = Leaf(v: Value) | List(items: seq<Doc>) | Table(members: seq<Member>)
  datatype Member = Member(key: seq<Byte>, value: Doc)

  datatype Opts = Opts(ascii: bool, pretty: bool)

  /** A member that comes later replaces an earlier one with its key, as dynamic::insert does. */
  ghost function Denote(doc: Doc): Value {
    match doc
    case Leaf(v) => v
    case List(items) => Arr(DenoteItems(items))
    case Table(members) => Obj(Inserted(map[], members))
  }

  ghost function DenoteItems(items: seq<Doc>): (r: seq<Value>)
    ensures |r| == |items|
  {
    if items == [] then [] else [Denote(items[0])] + DenoteItems(items[1..])
  }

  ghost function Inserted(m: map<seq<Byte>, Value>, members: seq<Member>): map<seq<Byte>, Value>
    decreases members
  {
    if members == [] then m
    else Inserted(m[members[0].key := Denote(members[0].value)], members[1..])
  }

  const QUOTE: Byte := 34
  const BACKSLASH: Byte := 92

  function HexDigit(c: nat): (b: Byte)
    requires c < 16
  {
    if c < 10 then c + 48 else c - 10 + 97
  }

  function Hex4(v: nat): seq<Byte>
    requires v <= 0xFFFF
  {
    [HexDigit(v / 4096), HexDigit(v / 256 % 16), HexDigit(v / 16 % 16), HexDigit(v % 16)]
  }

  /** The letter that stands for a control character after a backslash, if there is one. */
  function Letter(b: Byte): Option<Byte> {
    if b == 8 then Some(98)
    else if b == 12 then Some(102)
    else if b == 10 then Some(110)
    else if b == 13 then Some(114)
    else if b == 9 then Some(116)
    else None
  }

  /** One byte of a string as it is printed. */
  function EscapedByte(b: Byte): seq<Byte> {
    if b == BACKSLASH || b == QUOTE then [BACKSLASH, b]
    else if b > 0x1F then [b]
    else if Letter(b).Some? then [BACKSLASH, Letter(b).value]
    else [BACKSLASH, 117] + Hex4(b)
  }

  /** Strings the printer accepts: any bytes, or with ascii valid sequences of one to three bytes. */
  predicate Encodable(s: seq<Byte>, ascii: bool)
    decreases |s|
  {
    if s == [] then true
    else if ascii && s[0] >= 0x80 then
      Decode(s).Point? && Decode(s).length <= |s| && Decode(s).length > 0 && Encodable(s[Decode(s).length..], ascii)
    else Encodable(s[1..], ascii)
  }

  function Escaped(s: seq<Byte>, ascii: bool): seq<Byte>
    requires Encodable(s, ascii)
    decreases |s|
  {
    if s == [] then []
    else if ascii && s[0] >= 0x80 then
      DecodedIsEncoded(s);
      [BACKSLASH, 117] + Hex4(Decode(s).cp) + Escaped(s[Decode(s).length..], ascii)
    else EscapedByte(s[0]) + Escaped(s[1..], ascii)
  }

  function Quoted(s: seq<Byte>, ascii: bool): seq<Byte>
    requires Encodable(s, ascii)
  {
    [QUOTE] + Escaped(s, ascii) + [QUOTE]
  }

  const TRUE: seq<Byte> := [116, 114, 117, 101]
  const FALSE: seq<Byte> := [102, 97, 108, 115, 101]
  const NULL: seq<Byte> := [110, 117, 108, 108]

  /** What can be printed: 64-bit integers, strings the options allow, nothing else as a leaf. */
  ghost predicate Printable(doc: Doc, ascii: bool) {
    match doc
    case Leaf(Null) => true
    case Leaf(Bool(_)) => true
    case Leaf(Int(n)) => -(MAX_INT64 + 1) <= n <= MAX_INT64
    case Leaf(Str(s)) => Encodable(s, ascii)
    case Leaf(_) => false
    case List(items) => forall i :: 0 <= i < |items| ==> Printable(items[i], ascii)
    case Table(members) =>
      forall i :: 0 <= i < |members| ==> Encodable(members[i].key, ascii) && Printable(members[i].value, ascii)
  }

  function Spaces(n: nat): (s: seq<Byte>)
    ensures |s| == n && forall i :: 0 <= i < n ==> s[i] == 32
  {
    seq(n, i => 32)
  }

  function NewLine(opts: Opts, level: nat): seq<Byte> {
    if opts.pretty then [10] + Spaces(2 * level) else []
  }

  function Colon(opts: Opts): seq<Byte> {
    if opts.pretty then [32, 58, 32] else [58]
  }

  ghost function LeafText(v: Value, ascii: bool): seq<Byte>
    requires Printable(Leaf(v), ascii)
  {
    match v
    case Null => NULL
    case Bool(b) => if b then TRUE else FALSE
    case Int(n) => IntText(n)
    case Str(s) => Quoted(s, ascii)
  }

  ghost function Text(doc: Doc, opts: Opts, level: nat): seq<Byte>
    requires Printable(doc, opts.ascii)
    decreases doc
  {
    match doc
    case Leaf(v) => LeafText(v, opts.ascii)
    case List(items) =>
      if items == [] then [91, 93]
      else [91] + NewLine(opts, level + 1) + ItemsText(items, opts, level + 1) + NewLine(opts, level) + [93]
    case Table(members) =>
      if members == [] then [123, 125]
      else [123] + NewLine(opts, level + 1) + MembersText(members, opts, level + 1) + NewLine(opts, level) + [125]
  }

  ghost function ItemsText(items: seq<Doc>, opts: Opts, level: nat): seq<Byte>
    requires items != [] && (forall i :: 0 <= i < |items| ==> Printable(items[i], opts.ascii))
    decreases items
  {
    if |items| == 1 then Text(items[0], opts, level)
    else Text(items[0], opts, level) + [44] + NewLine(opts, level) + ItemsText(items[1..], opts, level)
  }

  ghost function MemberText(m: Member, opts: Opts, level: nat): seq<Byte>
    requires Encodable(m.key, opts.ascii) && Printable(m.value, opts.ascii)
    decreases m
  {
    Quoted(m.key, opts.ascii) + Colon(opts) + Text(m.value, opts, level)
  }

  ghost function MembersText(members: seq<Member>, opts: Opts, level: nat): seq<Byte>
    requires members != []
    requires forall i :: 0 <= i < |members| ==>
               Encodable(members[i].key, opts.ascii) && Printable(members[i].value, opts.ascii)
    decreases members
  {
    if |members| == 1 then MemberText(members[0], opts, level)
    else MemberText(members[0], opts, level) + [44] + NewLine(opts, level) + MembersText(members[1..], opts, level)
  }

  /** How deep arrays and objects are nested; a leaf or an empty one counts one. */
  ghost function Depth(doc: Doc): nat {
    match doc
    case Leaf(_) => 1
    case List(items) => 1 + DepthItems(items)
    case Table(members) => 1 + DepthMembers(members)
  }

  ghost function DepthItems(items: seq<Doc>): nat {
    if items == [] then 0 else Higher(Depth(items[0]), DepthItems(items[1..]))
  }

  ghost function DepthMembers(members: seq<Member>): nat {
    if members == [] then 0 else Higher(Depth(members[0].value), DepthMembers(members[1..]))
  }

  function Higher(a: nat, b: nat): nat {
    if a < b then b else a
  }
}
