/** Documents of the grammar: what parseJson accepts, and nothing else. */
module JsonLanguage {
  import opened Options
  import opened FbLayout
  import opened Conv
  import opened JsonText
  import opened JsonParse
  import opened JsonTrip
  import opened JsonMeaning
  import opened JsonGrammar

  /** A value as it is written, with the blanks around the values inside it. */
  datatype Node =
    | Atom(text: seq<Byte>, v: Value)
    | Chars(parts: seq<Part>)
    | Items(blanks: seq<Byte>, items: seq<Slot>)       // blanks stand alone in an empty array
    | Fields(blanks: seq<Byte>, fields: seq<Field>)
  datatype Slot = Slot(before: seq<Byte>, node: Node, after: seq<Byte>)
  datatype Field = Field(before: seq<Byte>, key: seq<Part>, gap: seq<Byte>, value: Slot)

  predicate Blank(s: seq<Byte>) {
    forall i :: 0 <= i < |s| ==> s[i] in Ascii(" \t\n\r")
  }

  /** The five words and their values. */
  predicate IsWord(t: seq<Byte>, v: Value) {
    || (t == Ascii("true") && v == Bool(true)) || (t == Ascii("false") && v == Bool(false))
    || (t == Ascii("null") && v == Null)
    || ((t == Ascii("Infinity") || t == Ascii("NaN") || t == Ascii("-Infinity")) && v == Double(t))
  }

  predicate IsSign(sign: seq<Byte>) {
    sign == [] || sign == Ascii("-")
  }

  /** A sign or none and digits, within 64 bits. */
  predicate WholeParts(t: seq<Byte>, v: Value, sign: seq<Byte>, d: seq<Byte>) {
    && IsSign(sign) && d != [] && AllDigits(d) && t == sign + d
    && if sign == [] then Conv.Value(d) < 0x8000_0000_0000_0000 && v == Int(Conv.Value(d))
       else Conv.Value(d) <= 0x8000_0000_0000_0000 && v == Int(-Conv.Value(d))
  }

  /** The same with a fraction or an exponent behind it. */
  predicate DecimalParts(t: seq<Byte>, sign: seq<Byte>, d: seq<Byte>, f: seq<Byte>, x: seq<Byte>) {
    && IsSign(sign) && d != [] && AllDigits(d) && IsFraction(f) && IsExponent(x) && f + x != []
    && t == sign + d + f + x
  }

  ghost predicate GoodAtom(t: seq<Byte>, v: Value) {
    || IsWord(t, v)
    || (exists sign, d :: WholeParts(t, v, sign, d))
    || (v == Double(t) && exists sign, d, f, x :: DecimalParts(t, sign, d, f, x))
  }

  ghost predicate Good(n: Node) {
    match n
    case Atom(t, v) => GoodAtom(t, v)
    case Chars(parts) => GoodParts(parts)
    case Items(blanks, items) => Blank(blanks) && forall i :: 0 <= i < |items| ==> GoodSlot(items[i])
    case Fields(blanks, fields) => Blank(blanks) && forall i :: 0 <= i < |fields| ==> GoodField(fields[i])
  }

  ghost predicate GoodSlot(s: Slot) {
    Blank(s.before) && Good(s.node) && Blank(s.after)
  }

  ghost predicate GoodField(f: Field) {
    Blank(f.before) && GoodParts(f.key) && Blank(f.gap) && GoodSlot(f.value)
  }

  ghost predicate GoodSlots(items: seq<Slot>) {
    forall i :: 0 <= i < |items| ==> GoodSlot(items[i])
  }

  ghost predicate GoodFields(fields: seq<Field>) {
    forall i :: 0 <= i < |fields| ==> GoodField(fields[i])
  }

  function InQuoteMarks(parts: seq<Part>): seq<Byte>
    requires GoodParts(parts)
  {
    Ascii("\"") + PartsText(parts) + Ascii("\"")
  }

  ghost function NodeText(n: Node): seq<Byte>
    requires Good(n)
  {
    match n
    case Atom(t, _) => t
    case Chars(parts) => InQuoteMarks(parts)
    case Items(blanks, items) =>
      if items == [] then Ascii("[") + blanks + Ascii("]") else Ascii("[") + SlotsText(items) + Ascii("]")
    case Fields(blanks, fields) =>
      if fields == [] then Ascii("{") + blanks + Ascii("}") else Ascii("{") + FieldsText(fields) + Ascii("}")
  }

  ghost function SlotText(s: Slot): seq<Byte>
    requires GoodSlot(s)
  {
    s.before + NodeText(s.node) + s.after
  }

  ghost function SlotsText(items: seq<Slot>): seq<Byte>
    requires items != [] && GoodSlots(items)
    decreases items
  {
    if |items| == 1 then SlotText(items[0]) else SlotText(items[0]) + Ascii(",") + SlotsText(items[1..])
  }

  ghost function FieldText(f: Field): seq<Byte>
    requires GoodField(f)
  {
    f.before + InQuoteMarks(f.key) + f.gap + Ascii(":") + SlotText(f.value)
  }

  ghost function FieldsText(fields: seq<Field>): seq<Byte>
    requires fields != [] && GoodFields(fields)
    decreases fields
  {
    if |fields| == 1 then FieldText(fields[0]) else FieldText(fields[0]) + Ascii(",") + FieldsText(fields[1..])
  }

  ghost function Meaning(n: Node): Value
    requires Good(n)
  {
    match n
    case Atom(_, v) => v
    case Chars(parts) => Str(PartsBytes(parts))
    case Items(_, items) => Arr(Meanings(items))
    case Fields(_, fields) => Obj(Entered(map[], fields))
  }

  ghost function Meanings(items: seq<Slot>): (r: seq<Value>)
    requires GoodSlots(items)
    ensures |r| == |items|
    decreases items
  {
    if items == [] then [] else [Meaning(items[0].node)] + Meanings(items[1..])
  }

  /** The members in their order, a later one in place of an earlier one with its key. */
  ghost function Entered(m: map<seq<Byte>, Value>, fields: seq<Field>): map<seq<Byte>, Value>
    requires GoodFields(fields)
    decreases fields
  {
    if fields == [] then m
    else
      assert GoodField(fields[0]) && GoodSlot(fields[0].value);
      Entered(m[PartsBytes(fields[0].key) := Meaning(fields[0].value.node)], fields[1..])
  }

  /** Nested no deeper than there is room for. */
  ghost predicate Fits(n: Node, room: int) {
    && room > 0
    && match n
       case Items(_, items) => forall i :: 0 <= i < |items| ==> Fits(items[i].node, room - 1)
       case Fields(_, fields) => forall i :: 0 <= i < |fields| ==> Fits(fields[i].value.node, room - 1)
       case _ => true
  }

  lemma BlankTrims(w: seq<Byte>, s: seq<Byte>)
    requires Blank(w)
    ensures Trim(w + s) == Trim(s)
  {
    forall i | 0 <= i < |w| ensures IsBlank(w[i]) {
      BlankIs(w[i]);
    }
    TrimBlanks(w, s);
  }

  lemma BlankEnds(w: seq<Byte>, s: seq<Byte>)
    requires Blank(w) && Ends(s)
    ensures Ends(w + s)
  {
    if w == [] {
      assert w + s == s;
    } else {
      BlankIs(w[0]);
    }
  }

  /** A word, whatever follows it. */
  lemma WordTrip(t: seq<Byte>, v: Value, level: nat, limit: nat, rest: seq<Byte>)
    requires IsWord(t, v) && level <= limit
    ensures ParseValue(t + rest, level, limit) == Got(v, rest)
  {
    Keywords();
    var s := t + rest;
    if t == Ascii("-Infinity") {
      MinusInfinity();
      assert s[9..] == rest;
      hide IntegralLength, AfterFraction, ParseInt, INFINITY;
      NumberAt(s, level, limit);
    } else {
      assert s[|t|..] == rest && t <= s;
      WordFirst(t, v);
      hide Ascii, IsWord;
      KeywordAt(s, level, limit);
      KeywordIs(t, v, rest);
    }
  }

  lemma MinusInfinity()
    ensures Ascii("-Infinity") == [MINUS] + INFINITY && |INFINITY| == 8
  {}

  lemma WordFirst(t: seq<Byte>, v: Value)
    requires IsWord(t, v) && t != Ascii("-Infinity")
    ensures t == TRUE || t == FALSE || t == NULL || t == INFINITY || t == NAN
    ensures t[0] == 116 || t[0] == 102 || t[0] == 110 || t[0] == 73 || t[0] == 78
  {
    Keywords();
  }

  lemma KeywordAt(s: seq<Byte>, level: nat, limit: nat)
    requires level <= limit && s != [] && (s[0] == 116 || s[0] == 102 || s[0] == 110 || s[0] == 73 || s[0] == 78)
    ensures ParseValue(s, level, limit) == Keyword(s)
  {
    hide ParseArray, ParseObject, Number, Keyword, StringBody;
    assert Trim(s) == s;
  }

  lemma KeywordIs(t: seq<Byte>, v: Value, rest: seq<Byte>)
    requires IsWord(t, v) && t != Ascii("-Infinity")
    ensures Keyword(t + rest) == Got(v, rest)
  {
    Keywords();
    WordFirst(t, v);
    var s := t + rest;
    assert s[|t|..] == rest && t <= s && s[0] == t[0];
    assert TRUE[0] == 116 && FALSE[0] == 102 && NULL[0] == 110 && INFINITY[0] == 73 && NAN[0] == 78;
    assert TRUE <= s ==> s[0] == 116;
    assert FALSE <= s ==> s[0] == 102;
    assert NULL <= s ==> s[0] == 110;
    assert INFINITY <= s ==> s[0] == 73;
  }

  lemma WholeTrip(t: seq<Byte>, v: Value, sign: seq<Byte>, d: seq<Byte>, level: nat, limit: nat, rest: seq<Byte>)
    requires WholeParts(t, v, sign, d) && Ends(rest) && level <= limit
    ensures ParseValue(t + rest, level, limit) == Got(v, Trim(rest))
  {
    var s := t + rest;
    hide Conv.Value, AllDigits, ParseInt, Number, Ascii;
    DigitsThen(d, rest);
    assert Ascii("-") == [MINUS] by {
      Minus();
    }
    assert s == sign + d + rest;
    assert sign == [] ==> s == d + rest;
    assert s[..|t|] == t && s[|t|..] == rest;
    ParseMeans([], sign, d, [], true);
    assert [] + sign + d + [] == t;
    NotInfinity(s);
    NumberIs(s, |t|, v.n);
    NumberAt(s, level, limit);
  }

  lemma Minus()
    ensures Ascii("-") == [MINUS]
  {}

  lemma DecimalTrip(t: seq<Byte>, sign: seq<Byte>, d: seq<Byte>, f: seq<Byte>, x: seq<Byte>, level: nat, limit: nat, rest: seq<Byte>)
    requires DecimalParts(t, sign, d, f, x) && Ends(rest) && level <= limit
    ensures ParseValue(t + rest, level, limit) == Got(Double(t), rest)
  {
    EndsApart(x, rest);
    hide Number, AllDigits, IsFraction, IsExponent, Ascii;
    DoubleExtent(sign, d, f, x, rest);
    NumberAt(t + rest, level, limit);
  }

  lemma EndsApart(x: seq<Byte>, rest: seq<Byte>)
    requires Ends(rest)
    ensures Apart(x, rest)
  {}

  lemma AtomTrip(t: seq<Byte>, v: Value, level: nat, limit: nat, rest: seq<Byte>)
    requires GoodAtom(t, v) && Ends(rest) && level <= limit
    ensures var r := ParseValue(t + rest, level, limit); r.Got? && r.value == v && Trim(r.rest) == Trim(rest)
  {
    hide ParseValue, IsWord, WholeParts, DecimalParts;
    if IsWord(t, v) {
      WordTrip(t, v, level, limit, rest);
    } else if exists sign, d :: WholeParts(t, v, sign, d) {
      var sign, d :| WholeParts(t, v, sign, d);
      WholeTrip(t, v, sign, d, level, limit, rest);
      TrimTwice(rest);
    } else {
      var sign, d, f, x :| DecimalParts(t, sign, d, f, x);
      DecimalTrip(t, sign, d, f, x, level, limit, rest);
    }
  }

  lemma QuoteMark()
    ensures Ascii("\"") == [QUOTE]
  {}

  /** A string with what follows it. */
  lemma MarksTrip(parts: seq<Part>, rest: seq<Byte>)
    requires GoodParts(parts)
    ensures var s := InQuoteMarks(parts) + rest;
            s != [] && s[0] == QUOTE && StringBody(s[1..], []) == Got(PartsBytes(parts), rest)
  {
    hide StringBody, PartsText, PartsBytes, GoodParts, Ascii;
    QuoteMark();
    var s := InQuoteMarks(parts) + rest;
    assert s[1..] == PartsText(parts) + [QUOTE] + rest;
    PartsTrip(parts, [], rest);
    assert [] + PartsBytes(parts) == PartsBytes(parts);
  }

  /** The first character of a value tells it from a blank and from a closing bracket. */
  predicate Opens(s: seq<Byte>) {
    s != [] && !IsBlank(s[0]) && s[0] != 93 && s[0] != 125
  }

  lemma AtomOpens(t: seq<Byte>, v: Value)
    requires GoodAtom(t, v)
    ensures Opens(t)
  {
    hide IsWord, WholeParts, DecimalParts, IsBlank;
    if IsWord(t, v) {
      WordOpens(t, v);
    } else if exists sign, d :: WholeParts(t, v, sign, d) {
      var sign, d :| WholeParts(t, v, sign, d);
      WholeOpens(t, v, sign, d);
    } else {
      var sign, d, f, x :| DecimalParts(t, sign, d, f, x);
      DecimalOpens(t, sign, d, f, x);
    }
  }

  lemma WordOpens(t: seq<Byte>, v: Value)
    requires IsWord(t, v)
    ensures Opens(t)
  {
    if t == Ascii("-Infinity") {
      assert t[0] == 45;
    } else {
      WordFirst(t, v);
    }
  }

  lemma WholeOpens(t: seq<Byte>, v: Value, sign: seq<Byte>, d: seq<Byte>)
    requires WholeParts(t, v, sign, d)
    ensures Opens(t)
  {
    hide Conv.Value;
    Minus();
    assert t[0] == MINUS || t[0] == d[0];
  }

  lemma DecimalOpens(t: seq<Byte>, sign: seq<Byte>, d: seq<Byte>, f: seq<Byte>, x: seq<Byte>)
    requires DecimalParts(t, sign, d, f, x)
    ensures Opens(t)
  {
    hide IsFraction, IsExponent;
    Minus();
    assert t[0] == MINUS || t[0] == d[0];
  }

  lemma NodeOpens(n: Node)
    requires Good(n)
    ensures Opens(NodeText(n))
  {
    match n
    case Atom(t, v) => AtomOpens(t, v);
    case Chars(parts) =>
      hide PartsText;
      QuoteMark();
    case Items(_, _) =>
      hide SlotsText;
      assert Ascii("[") == [91];
    case Fields(_, _) =>
      hide FieldsText;
      assert Ascii("{") == [123];
  }

  /** What the parser makes of a node at some depth. */
  lemma {:induction false} NodeTrip(n: Node, level: nat, limit: nat, rest: seq<Byte>)
    requires Good(n) && Ends(rest)
    ensures Verdict(ParseValue(NodeText(n) + rest, level, limit), Fits(n, limit + 1 - level), Meaning(n), rest)
    decreases n
  {
    if level > limit {
      TooDeep(NodeText(n) + rest, level, limit);
    } else {
      match n
      case Atom(t, v) => AtomTrip(t, v, level, limit, rest);
      case Chars(parts) => CharsTrip(n, level, limit, rest);
      case Items(_, _) => ListTrip(n, level, limit, rest);
      case Fields(_, _) => TableTrip(n, level, limit, rest);
    }
  }

  lemma TooDeep(s: seq<Byte>, level: nat, limit: nat)
    requires level > limit
    ensures ParseValue(s, level, limit).Bad?
  {}

  lemma CharsTrip(n: Node, level: nat, limit: nat, rest: seq<Byte>)
    requires n.Chars? && Good(n) && level <= limit
    ensures ParseValue(NodeText(n) + rest, level, limit) == Got(Meaning(n), rest)
  {
    hide StringBody, ParseValue, InQuoteMarks, PartsBytes, GoodParts;
    MarksTrip(n.parts, rest);
    StringAt(NodeText(n) + rest, level, limit);
  }

  /** The list goes on behind blanks as it would without them. */
  lemma ItemsTrim(w: seq<Byte>, s: seq<Byte>, acc: seq<Value>, level: nat, limit: nat)
    requires Blank(w)
    ensures ParseItems(Trim(w + s), acc, level, limit) == ParseItems(s, acc, level, limit)
  {
    BlankTrims(w, s);
    TrimTwice(s);
    SameValue(Trim(s), s, level, limit);
    hide ParseValue, Trim;
  }

  lemma {:induction false} ListTrip(n: Node, level: nat, limit: nat, rest: seq<Byte>)
    requires n.Items? && Good(n) && Ends(rest) && level <= limit
    ensures Verdict(ParseValue(NodeText(n) + rest, level, limit), Fits(n, limit + 1 - level), Meaning(n), rest)
    decreases n, 0
  {
    var s := NodeText(n) + rest;
    Brackets();
    if n.items == [] {
      hide ParseItems, Blank, Ascii;
      EmptyList(s, n.blanks, rest, level, limit);
    } else {
      hide ParseValue, ParseItems, SlotsText, GoodSlot, Ascii, Blank;
      assert s == [91] + (SlotsText(n.items) + [93] + rest);
      BracketAt(s, level, limit);
      assert s[1..] == SlotsText(n.items) + [93] + rest;
      SlotsTrip(n.items, [], level + 1, limit, rest);
      assert [] + Meanings(n.items) == Meanings(n.items);
      ListStarts(n.items, rest, level, limit);
    }
  }

  lemma Brackets()
    ensures Ascii("[") == [91] && Ascii("]") == [93] && Ascii("{") == [123] && Ascii("}") == [125]
    ensures Ascii(",") == [44] && Ascii(":") == [58]
  {}

  lemma EmptyList(s: seq<Byte>, blanks: seq<Byte>, rest: seq<Byte>, level: nat, limit: nat)
    requires Blank(blanks) && s == [91] + blanks + [93] + rest && level <= limit
    ensures ParseValue(s, level, limit) == Got(Arr([]), rest)
  {
    hide ParseValue, ParseItems;
    BracketAt(s, level, limit);
    assert s[1..] == blanks + ([93] + rest);
    BlankTrims(blanks, [93] + rest);
    assert Trim([93] + rest) == [93] + rest && ([93] + rest)[1..] == rest;
  }

  /** The loop is entered at the first item. */
  lemma ListStarts(items: seq<Slot>, rest: seq<Byte>, level: nat, limit: nat)
    requires items != [] && GoodSlots(items)
    ensures ParseArray(SlotsText(items) + [93] + rest, level + 1, limit)
            == ParseItems(SlotsText(items) + [93] + rest, [], level + 1, limit)
  {
    SlotsFront(items, rest);
    NodeOpens(items[0].node);
    hide ParseItems, NodeText, Good, SlotsText, GoodSlots, Blank;
    var w, t := items[0].before, FromItem(items, rest);
    assert !IsBlank(t[0]) && t[0] != 93;
    BlankTrims(w, t);
    assert Trim(t) == t;
    ItemsBlank(w, t, [], level + 1, limit);
  }

  /** The first item and what follows it. */
  ghost function FromItem(items: seq<Slot>, rest: seq<Byte>): seq<Byte>
    requires items != [] && GoodSlots(items) && GoodSlot(items[0])
  {
    NodeText(items[0].node) + (items[0].after + (MoreItems(items) + [93] + rest))
  }

  lemma SlotsFront(items: seq<Slot>, rest: seq<Byte>)
    requires items != [] && GoodSlots(items)
    ensures GoodSlot(items[0]) && SlotsText(items) + [93] + rest == items[0].before + FromItem(items, rest)
  {
    assert GoodSlot(items[0]);
    var i, t, m := items[0], NodeText(items[0].node), MoreItems(items);
    SlotsAre(items);
    hide SlotsText, MoreItems, NodeText, Good, Blank;
    RegroupItem(i.before, t, i.after, m, [93], rest);
  }

  lemma SlotsAre(items: seq<Slot>)
    requires items != [] && GoodSlots(items)
    ensures GoodSlot(items[0])
    ensures SlotsText(items) == items[0].before + NodeText(items[0].node) + items[0].after + MoreItems(items)
  {
    assert GoodSlot(items[0]);
    hide Blank, Ascii;
  }

  lemma RegroupItem(a: seq<Byte>, b: seq<Byte>, c: seq<Byte>, d: seq<Byte>, e: seq<Byte>, f: seq<Byte>)
    ensures (a + b + c + d) + e + f == a + (b + (c + (d + e + f)))
  {}

  lemma ItemsBlank(w: seq<Byte>, s: seq<Byte>, acc: seq<Value>, level: nat, limit: nat)
    requires Blank(w)
    ensures ParseItems(w + s, acc, level, limit) == ParseItems(s, acc, level, limit)
  {
    BlankTrims(w, s);
    SameValue(w + s, s, level, limit);
    hide ParseValue, Trim;
  }

  /** What follows the first item. */
  ghost function MoreItems(items: seq<Slot>): seq<Byte>
    requires items != [] && GoodSlots(items)
  {
    if |items| == 1 then [] else Ascii(",") + SlotsText(items[1..])
  }

  /** One turn of the loop, from the verdict on its value. */
  lemma ItemsGo(t: seq<Byte>, fits: bool, v: Value, tail: seq<Byte>, more: seq<Byte>, acc: seq<Value>, level: nat, limit: nat)
    requires Verdict(ParseValue(t, level, limit), fits, v, tail) && Trim(tail) == more && more != []
    ensures !fits ==> ParseItems(t, acc, level, limit).Bad?
    ensures fits && more[0] == 44 ==> ParseItems(t, acc, level, limit) == ParseItems(more[1..], acc + [v], level, limit)
    ensures fits && more[0] == 93 ==> ParseItems(t, acc, level, limit) == Got(Arr(acc + [v]), more[1..])
  {
    hide ParseValue, ParseItems, Trim;
    ItemsStep(t, acc, level, limit);
    EmptyIsBlank();
    ItemsTrim([], more[1..], acc + [v], level, limit);
    assert [] + more[1..] == more[1..];
  }

  lemma EmptyIsBlank()
    ensures Blank([])
  {}

  /** The verdict on the first item, and where the loop stands after it. */
  lemma FirstTrip(items: seq<Slot>, acc: seq<Value>, level: nat, limit: nat, rest: seq<Byte>, fits: bool, v: Value)
    requires items != [] && GoodSlots(items) && GoodSlot(items[0])
    requires Verdict(ParseValue(FromItem(items, rest), level, limit), fits, v, items[0].after + (MoreItems(items) + [93] + rest))
    ensures var s, more := SlotsText(items) + [93] + rest, MoreItems(items) + [93] + rest;
            && more != []
            && (!fits ==> ParseItems(s, acc, level, limit).Bad?)
            && (fits && more[0] == 44 ==> ParseItems(s, acc, level, limit) == ParseItems(more[1..], acc + [v], level, limit))
            && (fits && more[0] == 93 ==> ParseItems(s, acc, level, limit) == Got(Arr(acc + [v]), more[1..]))
  {
    var more := MoreItems(items) + [93] + rest;
    SlotsFront(items, rest);
    MoreEnds(items, rest);
    hide Good, ParseValue, ParseItems, Blank, SlotsText, Verdict, FromItem, MoreItems, GoodSlots, Trim;
    BlankTrims(items[0].after, more);
    ItemsBlank(items[0].before, FromItem(items, rest), acc, level, limit);
    ItemsGo(FromItem(items, rest), fits, v, items[0].after + more, more, acc, level, limit);
  }

  lemma MoreIs(items: seq<Slot>, rest: seq<Byte>)
    requires items != [] && GoodSlots(items)
    ensures var more := MoreItems(items) + [93] + rest;
            if |items| == 1 then more == [93] + rest && more[1..] == rest
            else more[0] == 44 && more[1..] == SlotsText(items[1..]) + [93] + rest
  {
    Brackets();
    hide SlotsText, Ascii;
  }

  lemma MeaningsFirst(items: seq<Slot>, acc: seq<Value>)
    requires items != [] && GoodSlots(items)
    ensures GoodSlot(items[0]) && acc + [Meaning(items[0].node)] + Meanings(items[1..]) == acc + Meanings(items)
  {
    assert GoodSlot(items[0]);
  }

  lemma {:induction false} SlotsTrip(items: seq<Slot>, acc: seq<Value>, level: nat, limit: nat, rest: seq<Byte>)
    requires items != [] && GoodSlots(items)
    ensures var r := ParseItems(SlotsText(items) + [93] + rest, acc, level, limit);
            if SlotsFit(items, limit + 1 - level) then r == Got(Arr(acc + Meanings(items)), rest) else r.Bad?
    decreases items
  {
    var first, more := items[0], MoreItems(items) + [93] + rest;
    assert GoodSlot(first);
    var tail := first.after + more;
    MoreEnds(items, rest);
    BlankEnds(first.after, more);
    NodeTrip(first.node, level, limit, tail);
    var fits, v := Fits(first.node, limit + 1 - level), Meaning(first.node);
    hide Good, ParseValue, ParseItems, Fits, Meaning, SlotsText, Verdict, MoreItems;
    FirstTrip(items, acc, level, limit, rest, fits, v);
    FirstFits(items, limit + 1 - level);
    MoreIs(items, rest);
    MeaningsFirst(items, acc);
    if fits {
      if |items| == 1 {
        assert items[1..] == [] && acc + [v] + [] == acc + [v];
      } else {
        SlotsTrip(items[1..], acc + [v], level, limit, rest);
      }
    }
  }

  ghost predicate SlotsFit(items: seq<Slot>, room: int) {
    forall i :: 0 <= i < |items| ==> Fits(items[i].node, room)
  }

  lemma FirstFits(items: seq<Slot>, room: int)
    requires items != []
    ensures SlotsFit(items, room) <==> Fits(items[0].node, room) && SlotsFit(items[1..], room)
  {
    hide Fits;
    if Fits(items[0].node, room) && SlotsFit(items[1..], room) {
      forall i | 0 < i < |items| ensures Fits(items[i].node, room) {
        assert items[i] == items[1..][i - 1];
      }
    }
  }

  lemma MoreEnds(items: seq<Slot>, rest: seq<Byte>)
    requires items != [] && GoodSlots(items)
    ensures var more := MoreItems(items) + [93] + rest; Ends(more) && Trim(more) == more && more != []
  {
    hide SlotsText;
    Brackets();
  }

  lemma {:induction false} TableTrip(n: Node, level: nat, limit: nat, rest: seq<Byte>)
    requires n.Fields? && Good(n) && Ends(rest) && level <= limit
    ensures Verdict(ParseValue(NodeText(n) + rest, level, limit), Fits(n, limit + 1 - level), Meaning(n), rest)
    decreases n, 0
  {
    var s := NodeText(n) + rest;
    Brackets();
    if n.fields == [] {
      hide ParseMembers, Blank, Ascii;
      EmptyTable(s, n.blanks, rest, level, limit);
    } else {
      hide ParseValue, FieldsText, Ascii;
      assert s == [123] + (FieldsText(n.fields) + [125] + rest);
      BracketAt(s, level, limit);
      assert s[1..] == FieldsText(n.fields) + [125] + rest;
      FullTable(n, level, limit, rest);
    }
  }

  lemma {:induction false} FullTable(n: Node, level: nat, limit: nat, rest: seq<Byte>)
    requires n.Fields? && Good(n) && n.fields != [] && GoodFields(n.fields) && level <= limit
    ensures Verdict(ParseObject(FieldsText(n.fields) + [125] + rest, level + 1, limit), Fits(n, limit + 1 - level), Meaning(n), rest)
    decreases n.fields, 1
  {
    hide *;
    FieldsTrip(n.fields, map[], level + 1, limit, rest);
    TableVerdict(n, level, limit, rest);
  }

  lemma TableVerdict(n: Node, level: nat, limit: nat, rest: seq<Byte>)
    requires n.Fields? && Good(n) && n.fields != [] && GoodFields(n.fields) && level <= limit
    requires var r := ParseMembers(Trim(FieldsText(n.fields) + [125] + rest), map[], level + 1, limit);
             if FieldsFit(n.fields, limit + 1 - (level + 1)) then r == Got(Obj(Entered(map[], n.fields)), rest) else r.Bad?
    ensures Verdict(ParseObject(FieldsText(n.fields) + [125] + rest, level + 1, limit), Fits(n, limit + 1 - level), Meaning(n), rest)
  {
    TableStarts(n.fields, rest, level, limit);
    hide ParseObject, ParseMembers, FieldsText, GoodField, Trim;
  }

  lemma EmptyTable(s: seq<Byte>, blanks: seq<Byte>, rest: seq<Byte>, level: nat, limit: nat)
    requires Blank(blanks) && s == [123] + blanks + [125] + rest && level <= limit
    ensures ParseValue(s, level, limit) == Got(Obj(map[]), rest)
  {
    hide ParseValue, ParseMembers;
    BracketAt(s, level, limit);
    assert s[1..] == blanks + ([125] + rest);
    BlankTrims(blanks, [125] + rest);
    assert Trim([125] + rest) == [125] + rest && ([125] + rest)[1..] == rest;
  }

  lemma TableStarts(fields: seq<Field>, rest: seq<Byte>, level: nat, limit: nat)
    requires fields != [] && GoodFields(fields)
    ensures var s := FieldsText(fields) + [125] + rest;
            ParseObject(s, level + 1, limit) == ParseMembers(Trim(s), map[], level + 1, limit)
  {
    hide ParseMembers;
    FieldsFront(fields, rest);
  }

  /** What follows the first field. */
  ghost function MoreFields(fields: seq<Field>): seq<Byte>
    requires fields != [] && GoodFields(fields)
  {
    if |fields| == 1 then [] else Ascii(",") + FieldsText(fields[1..])
  }

  /** The value of a field and what follows it. */
  ghost function FromValue(fields: seq<Field>, rest: seq<Byte>): seq<Byte>
    requires fields != [] && GoodFields(fields) && GoodField(fields[0]) && GoodSlot(fields[0].value)
  {
    NodeText(fields[0].value.node) + (fields[0].value.after + (MoreFields(fields) + [125] + rest))
  }

  lemma FieldsFront(fields: seq<Field>, rest: seq<Byte>)
    requires fields != [] && GoodFields(fields)
    ensures GoodField(fields[0]) && GoodSlot(fields[0].value)
    ensures var f, s := fields[0], FieldsText(fields) + [125] + rest;
            && Trim(s) == InQuoteMarks(f.key) + (f.gap + ([58] + (f.value.before + FromValue(fields, rest))))
            && Trim(s) != [] && Trim(s)[0] == QUOTE
  {
    var f, s := fields[0], FieldsText(fields) + [125] + rest;
    FieldsSplit(fields, rest);
    Brackets();
    QuoteMark();
    hide Good, NodeText, PartsText, GoodParts, Blank, Ascii, FieldsText, FromValue, GoodFields;
    var t := InQuoteMarks(f.key) + (f.gap + ([58] + (f.value.before + FromValue(fields, rest))));
    assert t[0] == QUOTE;
    BlankTrims(f.before, t);
    assert Trim(t) == t;
  }

  lemma FieldsSplit(fields: seq<Field>, rest: seq<Byte>)
    requires fields != [] && GoodFields(fields)
    ensures GoodField(fields[0]) && GoodSlot(fields[0].value)
    ensures var f := fields[0];
            FieldsText(fields) + [125] + rest
            == f.before + (InQuoteMarks(f.key) + (f.gap + (Ascii(":") + (f.value.before + FromValue(fields, rest)))))
  {
    var f, more := fields[0], MoreFields(fields) + [125] + rest;
    assert GoodField(f) && GoodSlot(f.value);
    assert FieldsText(fields) + [125] + rest == FieldText(f) + more;
    FieldSplit(f, more);
    hide GoodParts, Blank, Ascii, InQuoteMarks, FieldsText, FieldText, MoreFields;
  }

  lemma FieldSplit(f: Field, more: seq<Byte>)
    requires GoodField(f) && GoodSlot(f.value)
    ensures FieldText(f) + more
            == f.before + (InQuoteMarks(f.key) + (f.gap + (Ascii(":") + (f.value.before + (NodeText(f.value.node) + (f.value.after + more))))))
  {
    var q, c, t := InQuoteMarks(f.key), Ascii(":"), NodeText(f.value.node);
    assert FieldText(f) == f.before + q + f.gap + c + (f.value.before + t + f.value.after);
    Regroup(f.before, q, f.gap, c, f.value.before, t, f.value.after, more);
  }

  lemma Regroup(a: seq<Byte>, b: seq<Byte>, c: seq<Byte>, d: seq<Byte>, e: seq<Byte>, f: seq<Byte>, g: seq<Byte>, h: seq<Byte>)
    ensures a + b + c + d + (e + f + g) + h == a + (b + (c + (d + (e + (f + (g + h))))))
  {}

  lemma FieldKey(fields: seq<Field>, rest: seq<Byte>)
    requires fields != [] && GoodFields(fields)
    ensures GoodField(fields[0]) && GoodSlot(fields[0].value)
    ensures ParseKey(Trim(FieldsText(fields) + [125] + rest)) == Got(PartsBytes(fields[0].key), FromValue(fields, rest))
  {
    FieldsFront(fields, rest);
    var f, v := fields[0], FromValue(fields, rest);
    NodeOpens(f.value.node);
    hide Good, NodeText, PartsText, PartsBytes, GoodParts, Blank, Ascii, InQuoteMarks, StringBody, FieldsText, GoodFields;
    assert v != [] && !IsBlank(v[0]);
    var after := f.gap + ([58] + (f.value.before + v));
    MarksTrip(f.key, after);
    BlankTrims(f.gap, [58] + (f.value.before + v));
    assert Trim([58] + (f.value.before + v)) == [58] + (f.value.before + v);
    assert ([58] + (f.value.before + v))[1..] == f.value.before + v;
    BlankTrims(f.value.before, v);
    assert Trim(v) == v;
  }

  ghost predicate FieldsFit(fields: seq<Field>, room: int) {
    forall i :: 0 <= i < |fields| ==> Fits(fields[i].value.node, room)
  }

  lemma FirstFieldFits(fields: seq<Field>, room: int)
    requires fields != []
    ensures FieldsFit(fields, room) <==> Fits(fields[0].value.node, room) && FieldsFit(fields[1..], room)
  {
    hide Fits;
    if Fits(fields[0].value.node, room) && FieldsFit(fields[1..], room) {
      forall i | 0 < i < |fields| ensures Fits(fields[i].value.node, room) {
        assert fields[i] == fields[1..][i - 1];
      }
    }
  }

  lemma MoreFieldsEnd(fields: seq<Field>, rest: seq<Byte>)
    requires fields != [] && GoodFields(fields)
    ensures var more := MoreFields(fields) + [125] + rest; Ends(more) && Trim(more) == more && more != []
  {
    hide FieldsText;
    Brackets();
  }

  /** One turn of the loop over members. */
  lemma MembersGo(s: seq<Byte>, k: seq<Byte>, t: seq<Byte>, fits: bool, v: Value, tail: seq<Byte>, more: seq<Byte>,
                  acc: map<seq<Byte>, Value>, level: nat, limit: nat)
    requires ParseKey(s) == Got(k, t)
    requires Verdict(ParseValue(t, level, limit), fits, v, tail) && Trim(tail) == more && more != []
    ensures !fits ==> ParseMembers(s, acc, level, limit).Bad?
    ensures fits && more[0] == 44 ==> ParseMembers(s, acc, level, limit) == ParseMembers(Trim(more[1..]), acc[k := v], level, limit)
    ensures fits && more[0] == 125 ==> ParseMembers(s, acc, level, limit) == Got(Obj(acc[k := v]), more[1..])
  {
    hide ParseValue, ParseMembers, ParseKey, Trim;
    MembersStep(s, acc, level, limit);
  }

  lemma MoreFieldsAre(fields: seq<Field>, rest: seq<Byte>)
    requires fields != [] && GoodFields(fields)
    ensures var more := MoreFields(fields) + [125] + rest;
            if |fields| == 1 then more == [125] + rest && more[1..] == rest
            else more[0] == 44 && more[1..] == FieldsText(fields[1..]) + [125] + rest
  {
    Brackets();
    hide FieldsText, Ascii;
  }

  lemma EnteredFirst(fields: seq<Field>, acc: map<seq<Byte>, Value>)
    requires fields != [] && GoodFields(fields)
    ensures GoodField(fields[0]) && GoodSlot(fields[0].value)
    ensures Entered(acc, fields) == Entered(acc[PartsBytes(fields[0].key) := Meaning(fields[0].value.node)], fields[1..])
  {
    assert GoodField(fields[0]) && GoodSlot(fields[0].value);
    hide PartsBytes;
  }

  /** The verdict on the first value, and where the loop stands after it. */
  lemma FirstFieldTrip(fields: seq<Field>, acc: map<seq<Byte>, Value>, level: nat, limit: nat, rest: seq<Byte>, fits: bool, v: Value)
    requires fields != [] && GoodFields(fields) && GoodField(fields[0]) && GoodSlot(fields[0].value)
    requires Verdict(ParseValue(FromValue(fields, rest), level, limit), fits, v,
                     fields[0].value.after + (MoreFields(fields) + [125] + rest))
    ensures var r := ParseMembers(Trim(FieldsText(fields) + [125] + rest), acc, level, limit);
            var next := acc[PartsBytes(fields[0].key) := v];
            if !fits then r.Bad?
            else if |fields| == 1 then r == Got(Obj(next), rest)
            else r == ParseMembers(Trim(FieldsText(fields[1..]) + [125] + rest), next, level, limit)
  {
    FieldKey(fields, rest);
    MoreFieldsEnd(fields, rest);
    MoreFieldsAre(fields, rest);
    hide Good, ParseValue, ParseMembers, ParseKey, PartsBytes, FieldsText, Verdict, MoreFields, Trim, FromValue, GoodParts, Blank;
    var f, more := fields[0], MoreFields(fields) + [125] + rest;
    BlankTrims(f.value.after, more);
    var s := Trim(FieldsText(fields) + [125] + rest);
    MembersGo(s, PartsBytes(f.key), FromValue(fields, rest), fits, v, f.value.after + more, more, acc, level, limit);
  }

  /** The first value can be read where it stands. */
  lemma ValueStands(fields: seq<Field>, rest: seq<Byte>)
    requires fields != [] && GoodFields(fields)
    ensures GoodField(fields[0]) && GoodSlot(fields[0].value) && Good(fields[0].value.node) && GoodParts(fields[0].key)
    ensures var tail := fields[0].value.after + (MoreFields(fields) + [125] + rest);
            Ends(tail) && FromValue(fields, rest) == NodeText(fields[0].value.node) + tail
  {
    assert GoodField(fields[0]) && GoodSlot(fields[0].value);
    hide Blank, MoreFields;
    MoreFieldsEnd(fields, rest);
    BlankEnds(fields[0].value.after, MoreFields(fields) + [125] + rest);
  }

  lemma {:induction false} FieldsTrip(fields: seq<Field>, acc: map<seq<Byte>, Value>, level: nat, limit: nat, rest: seq<Byte>)
    requires fields != [] && GoodFields(fields)
    ensures var r := ParseMembers(Trim(FieldsText(fields) + [125] + rest), acc, level, limit);
            if FieldsFit(fields, limit + 1 - level) then r == Got(Obj(Entered(acc, fields)), rest) else r.Bad?
    decreases fields, 0
  {
    hide *;
    ValueStands(fields, rest);
    EnteredFirst(fields, acc);
    FirstFieldFits(fields, limit + 1 - level);
    var f := fields[0];
    var k, v := PartsBytes(f.key), Meaning(f.value.node);
    NodeTrip(f.value.node, level, limit, f.value.after + (MoreFields(fields) + [125] + rest));
    FirstFieldTrip(fields, acc, level, limit, rest, Fits(f.value.node, limit + 1 - level), v);
    if |fields| == 1 {
      assert fields[1..] == [];
      NoneEntered(acc[k := v]);
      NoneToFit(limit + 1 - level);
    } else {
      RestGood(fields);
      FieldsTrip(fields[1..], acc[k := v], level, limit, rest);
    }
  }

  lemma NoneToFit(room: int)
    ensures FieldsFit([], room)
  {}

  lemma RestGood(fields: seq<Field>)
    requires fields != [] && GoodFields(fields)
    ensures GoodFields(fields[1..])
  {}

  lemma NoneEntered(m: map<seq<Byte>, Value>)
    ensures Entered(m, []) == m
  {}

  /** The blanks in front of a text. */
  lemma {:induction false} TrimSplit(s: seq<Byte>) returns (w: seq<Byte>)
    ensures Blank(w) && s == w + Trim(s)
    decreases |s|
  {
    if s != [] && IsBlank(s[0]) {
      var more := TrimSplit(s[1..]);
      BlankIs(s[0]);
      w := [s[0]] + more;
      assert s == [s[0]] + s[1..];
    } else {
      w := [];
    }
  }

  /** What Keyword accepts. */
  lemma KeywordIsAtom(s: seq<Byte>) returns (t: seq<Byte>)
    requires Keyword(s).Got?
    ensures IsWord(t, Keyword(s).value) && s == t + Keyword(s).rest
  {
    Keywords();
    t := if TRUE <= s then TRUE else if FALSE <= s then FALSE else if NULL <= s then NULL
         else if INFINITY <= s then INFINITY else NAN;
    assert s == s[..|t|] + s[|t|..];
  }

  /** The sign and the digits a number begins with. */
  lemma IntegralSplit(s: seq<Byte>) returns (sign: seq<Byte>, d: seq<Byte>)
    requires s != [] && (s[0] == MINUS || IsDigit(s[0])) && (s[0] == MINUS ==> IntegralLength(s) >= 2)
    ensures IsSign(sign) && d != [] && AllDigits(d) && s[..IntegralLength(s)] == sign + d
    ensures sign == [] <==> s[0] != MINUS
  {
    Minus();
    var n := IntegralLength(s);
    if s[0] == MINUS {
      sign, d := Ascii("-"), s[1..n];
      assert d == s[1..][..n - 1];
    } else {
      sign, d := [], s[..n];
    }
  }

  /** What follows the point, up to an exponent, and the exponent. */
  lemma FractionSplit(t: seq<Byte>) returns (f: seq<Byte>, x: seq<Byte>)
    requires StartsWith(t, 46) || IsE(t)
    ensures IsFraction(f) && IsExponent(x) && f + x != [] && t == f + x + AfterFraction(t)
  {
    var u := t;
    f := [];
    if !IsE(t) {
      var n := LeadingDigits(t[1..]);
      f := t[..n + 1];
      u := t[1..][n..];
      assert f[1..] == t[1..][..n];
      assert t == f + u;
    }
    hide LeadingDigits, AllDigits;
    x := ExponentSplit(u);
    assert t == f + x + AfterExponent(u);
  }

  lemma ExponentSplit(u: seq<Byte>) returns (x: seq<Byte>)
    ensures IsExponent(x) && (IsE(u) ==> x != []) && u == x + AfterExponent(u)
  {
    hide LeadingDigits, AllDigits;
    x := [];
    if IsE(u) {
      var y := u[1..];
      if StartsWith(y, PLUS) || StartsWith(y, MINUS) {
        var w := y[1..];
        var n := LeadingDigits(w);
        x := u[..2 + n];
        assert w == u[2..] && x[2..] == w[..n];
        assert u == x + w[n..];
      } else {
        var n := LeadingDigits(y);
        x := u[..1 + n];
        assert x[1..] == y[..n];
        assert u == x + y[n..];
      }
    }
  }

  lemma NumberIsAtom(s: seq<Byte>) returns (t: seq<Byte>, gap: seq<Byte>)
    requires s != [] && (s[0] == MINUS || IsDigit(s[0])) && Number(s).Got?
    ensures GoodAtom(t, Number(s).value) && Blank(gap) && s == t + gap + Number(s).rest
  {
    NumberNeeds(s);
    hide Number, IntegralLength, AllDigits, IsFraction, IsExponent, AfterFraction, Blank;
    if [MINUS] + INFINITY <= s {
      MinusInfinity();
      t, gap := Ascii("-Infinity"), [];
      EmptyIsBlank();
      assert s == t + gap + s[9..];
    } else {
      hide INFINITY, GoodAtom, Ascii;
      var n := IntegralLength(s);
      var sign, d := IntegralSplit(s);
      var u := s[n..];
      if StartsWith(u, 46) || IsE(u) {
        t := DoubleIsAtom(s, n, sign, d);
        gap := [];
        EmptyIsBlank();
      } else {
        t := s[..n];
        gap := TrimSplit(u);
        assert s == t + u;
        WholeIsAtom(s, n, sign, d);
      }
    }
  }

  lemma NumberNeeds(s: seq<Byte>)
    requires s != [] && (s[0] == MINUS || IsDigit(s[0])) && Number(s).Got?
    ensures [MINUS] + INFINITY <= s ==> Number(s) == Got(Double([MINUS] + INFINITY), s[9..])
    ensures !([MINUS] + INFINITY <= s) && s[0] == MINUS ==> IntegralLength(s) >= 2
  {
    hide IntegralLength, AfterFraction, ParseInt;
  }

  lemma DoubleIsAtom(s: seq<Byte>, n: nat, sign: seq<Byte>, d: seq<Byte>) returns (t: seq<Byte>)
    requires s != [] && (s[0] == MINUS || IsDigit(s[0])) && !([MINUS] + INFINITY <= s) && n == IntegralLength(s)
    requires IsSign(sign) && d != [] && AllDigits(d) && s[..n] == sign + d && (s[0] == MINUS ==> n >= 2)
    requires StartsWith(s[n..], 46) || IsE(s[n..])
    ensures Number(s).Got? && GoodAtom(t, Number(s).value) && s == t + [] + Number(s).rest
  {
    hide INFINITY, AllDigits, IsFraction, IsExponent, AfterFraction, IntegralLength, Number, Ascii;
    var f, x := FractionSplit(s[n..]);
    var rest := AfterFraction(s[n..]);
    t := sign + d + f + x;
    assert s == s[..n] + s[n..];
    assert s == t + rest && s[..|s| - |rest|] == t;
    assert DecimalParts(t, sign, d, f, x);
    DoubleAt(s, n, rest);
    assert t + [] == t;
  }

  lemma WholeIsAtom(s: seq<Byte>, n: nat, sign: seq<Byte>, d: seq<Byte>)
    requires s != [] && (s[0] == MINUS || IsDigit(s[0])) && !([MINUS] + INFINITY <= s) && n == IntegralLength(s)
    requires IsSign(sign) && d != [] && AllDigits(d) && s[..n] == sign + d && (s[0] == MINUS ==> n >= 2)
    requires !StartsWith(s[n..], 46) && !IsE(s[n..]) && Number(s).Got?
    ensures GoodAtom(s[..n], Number(s).value) && Number(s).rest == Trim(s[n..])
  {
    hide INFINITY, AllDigits, IntegralLength, Conv.Value, ParseInt;
    Minus();
    ParseMeans([], sign, d, [], true);
    assert [] + sign + d + [] == s[..n];
    assert WholeParts(s[..n], Number(s).value, sign, d);
  }

  /** What a value that was accepted looks like. */
  ghost predicate Written(s: seq<Byte>, before: seq<Byte>, n: Node, gap: seq<Byte>, r: Parsed<Value>, room: int) {
    && Blank(before) && Good(n) && Blank(gap) && Fits(n, room)
    && r.Got? && r.value == Meaning(n) && s == before + NodeText(n) + gap + r.rest
  }

  /** The branches of parseValue. */
  lemma ValueCases(s: seq<Byte>, level: nat, limit: nat)
    requires ParseValue(s, level, limit).Got?
    ensures level <= limit && Trim(s) != []
    ensures var t, r := Trim(s), ParseValue(s, level, limit);
            if t[0] == 91 then r == ParseArray(t[1..], level + 1, limit)
            else if t[0] == 123 then r == ParseObject(t[1..], level + 1, limit)
            else if t[0] == QUOTE then
              var b := StringBody(t[1..], []); b.Got? && r == Got(Str(b.value), b.rest)
            else if t[0] == MINUS || IsDigit(t[0]) then r == Number(t)
            else r == Keyword(t)
  {
    hide ParseArray, ParseObject, Number, StringBody, Trim;
  }

  lemma {:induction false} ValueIsNode(s: seq<Byte>, level: nat, limit: nat) returns (before: seq<Byte>, n: Node, gap: seq<Byte>)
    requires ParseValue(s, level, limit).Got?
    ensures Written(s, before, n, gap, ParseValue(s, level, limit), limit + 1 - level)
    decreases |s|, 0
  {
    ValueCases(s, level, limit);
    before := TrimSplit(s);
    var t := Trim(s);
    hide *;
    if t[0] == 91 {
      n := ArrayIsNode(t[1..], level + 1, limit);
      gap := [];
      Composite(s, before, t, n, ParseValue(s, level, limit), limit + 1 - level);
    } else if t[0] == 123 {
      n := ObjectIsNode(t[1..], level + 1, limit);
      gap := [];
      Composite(s, before, t, n, ParseValue(s, level, limit), limit + 1 - level);
    } else {
      n, gap := LeafIsNode(s, before, t, ParseValue(s, level, limit), limit + 1 - level);
    }
  }

  lemma Composite(s: seq<Byte>, before: seq<Byte>, t: seq<Byte>, n: Node, r: Parsed<Value>, room: int)
    requires Blank(before) && s == before + t && Good(n) && Fits(n, room) && r.Got? && r.value == Meaning(n)
    requires t != [] && [t[0]] + t[1..] == NodeText(n) + r.rest
    ensures Written(s, before, n, [], r, room)
  {
    hide Good, Fits, Meaning, NodeText;
    assert t == [t[0]] + t[1..];
    assert s == before + NodeText(n) + [] + r.rest;
  }

  lemma LeafIsNode(s: seq<Byte>, before: seq<Byte>, t: seq<Byte>, r: Parsed<Value>, room: int) returns (n: Node, gap: seq<Byte>)
    requires Blank(before) && s == before + t && t != [] && r.Got? && room > 0
    requires if t[0] == QUOTE then var b := StringBody(t[1..], []); b.Got? && r == Got(Str(b.value), b.rest)
             else if t[0] == MINUS || IsDigit(t[0]) then r == Number(t)
             else r == Keyword(t)
    ensures Written(s, before, n, gap, r, room)
  {
    hide StringBody, Number, Keyword, PartsText, PartsBytes, GoodParts, GoodAtom, IsWord, Blank;
    EmptyIsBlank();
    if t[0] == QUOTE {
      var parts := StringIsParts(t[1..], []);
      n, gap := Chars(parts), [];
      assert [] + PartsBytes(parts) == PartsBytes(parts);
      QuoteMark();
      assert t == [QUOTE] + t[1..];
      assert t == InQuoteMarks(parts) + r.rest;
      assert s == before + NodeText(n) + gap + r.rest;
    } else if t[0] == MINUS || IsDigit(t[0]) {
      var text;
      text, gap := NumberIsAtom(t);
      n := Atom(text, r.value);
      assert s == before + text + gap + r.rest;
    } else {
      var text := KeywordIsAtom(t);
      n, gap := Atom(text, r.value), [];
      WordIsAtom(text, r.value);
      assert s == before + text + gap + r.rest;
    }
  }

  lemma WordIsAtom(t: seq<Byte>, v: Value)
    requires IsWord(t, v)
    ensures GoodAtom(t, v)
  {}

  lemma {:induction false} ArrayIsNode(u: seq<Byte>, level: nat, limit: nat) returns (n: Node)
    requires ParseArray(u, level, limit).Got? && level > 0 && level <= limit + 1
    ensures Good(n) && Fits(n, limit + 2 - level) && ParseArray(u, level, limit).value == Meaning(n)
    ensures [91] + u == NodeText(n) + ParseArray(u, level, limit).rest
    decreases |u|, 2
  {
    hide *;
    ArrayCases(u, level, limit);
    var r := ParseArray(u, level, limit);
    if Trim(u) != [] && Trim(u)[0] == 93 {
      var w := TrimSplit(u);
      n := Items(w, []);
      NoItems(w, u, r, limit + 2 - level);
    } else {
      var items := ItemsAre(u, [], level, limit);
      n := Items([], items);
      FullList(n, u, r, limit + 1 - level);
    }
  }

  lemma ArrayCases(u: seq<Byte>, level: nat, limit: nat)
    ensures var t, r := Trim(u), ParseArray(u, level, limit);
            if t != [] && t[0] == 93 then r == Got(Arr([]), t[1..]) else r == ParseItems(u, [], level, limit)
  {
    EmptyIsBlank();
    hide ParseItems, Trim, Blank;
    ItemsTrim([], u, [], level, limit);
    assert [] + u == u;
  }

  lemma NoItems(w: seq<Byte>, u: seq<Byte>, r: Parsed<Value>, room: int)
    requires Blank(w) && u == w + Trim(u) && Trim(u) != [] && Trim(u)[0] == 93 && r == Got(Arr([]), Trim(u)[1..]) && room > 0
    ensures var n := Items(w, []);
            Good(n) && Fits(n, room) && r.value == Meaning(n) && [91] + u == NodeText(n) + r.rest
  {
    Brackets();
    hide Ascii, Blank, Trim;
    assert u == w + ([93] + r.rest);
  }

  lemma FullList(n: Node, u: seq<Byte>, r: Parsed<Value>, room: int)
    requires n.Items? && n.blanks == [] && n.items != [] && GoodSlots(n.items) && SlotsFit(n.items, room) && room >= 0
    requires r.Got? && r.value == Arr([] + Meanings(n.items)) && u == SlotsText(n.items) + [93] + r.rest
    ensures Good(n) && Fits(n, room + 1) && r.value == Meaning(n) && [91] + u == NodeText(n) + r.rest
  {
    Brackets();
    hide Ascii, SlotsText;
    assert [] + Meanings(n.items) == Meanings(n.items);
    assert [91] + u == [91] + SlotsText(n.items) + [93] + r.rest;
  }

  lemma {:induction false} ItemsAre(s: seq<Byte>, acc: seq<Value>, level: nat, limit: nat) returns (items: seq<Slot>)
    requires ParseItems(s, acc, level, limit).Got?
    ensures items != [] && GoodSlots(items) && SlotsFit(items, limit + 1 - level)
    ensures ParseItems(s, acc, level, limit).value == Arr(acc + Meanings(items))
    ensures s == SlotsText(items) + [93] + ParseItems(s, acc, level, limit).rest
    decreases |s|, 1
  {
    ItemsCases(s, acc, level, limit);
    hide *;
    var v, r := ParseValue(s, level, limit), ParseItems(s, acc, level, limit);
    var before, n, gap := ValueIsNode(s, level, limit);
    var w := TrimSplit(v.rest);
    var t := Trim(v.rest);
    var slot := Slot(before, n, gap + w);
    SlotWritten(s, slot, w, gap, v, t, limit + 1 - level);
    if t[0] == 93 {
      items := [slot];
      LastSlot(slot, acc, s, t, r, limit + 1 - level);
    } else {
      var more := ItemsAre(t[1..], acc + [v.value], level, limit);
      items := [slot] + more;
      NextSlot(slot, more, acc, s, t, r, limit + 1 - level);
    }
  }

  /** The two ways a turn of the loop can go on. */
  lemma ItemsCases(s: seq<Byte>, acc: seq<Value>, level: nat, limit: nat)
    requires ParseItems(s, acc, level, limit).Got?
    ensures ParseValue(s, level, limit).Got? && Trim(ParseValue(s, level, limit).rest) != []
    ensures var v, r := ParseValue(s, level, limit), ParseItems(s, acc, level, limit);
            var t := Trim(v.rest);
            && |t| < |s| && (t[0] == 93 || t[0] == 44)
            && (t[0] == 93 ==> r == Got(Arr(acc + [v.value]), t[1..]))
            && (t[0] == 44 ==> r == ParseItems(t[1..], acc + [v.value], level, limit))
  {
    ItemsUnfold(s, acc, level, limit);
    var t := Trim(ParseValue(s, level, limit).rest);
    EmptyIsBlank();
    hide ParseItems, ParseValue, Trim, Blank;
    ItemsTrim([], t[1..], acc + [ParseValue(s, level, limit).value], level, limit);
    assert [] + t[1..] == t[1..];
  }

  lemma ItemsUnfold(s: seq<Byte>, acc: seq<Value>, level: nat, limit: nat)
    requires ParseItems(s, acc, level, limit).Got?
    ensures ParseValue(s, level, limit).Got? && Trim(ParseValue(s, level, limit).rest) != []
    ensures var v, r := ParseValue(s, level, limit), ParseItems(s, acc, level, limit);
            var t := Trim(v.rest);
            && |t| < |s| && (t[0] == 93 || t[0] == 44)
            && (t[0] == 93 ==> r == Got(Arr(acc + [v.value]), t[1..]))
            && (t[0] == 44 ==> r == ParseItems(Trim(t[1..]), acc + [v.value], level, limit))
  {
    hide ParseValue;
  }

  lemma SlotWritten(s: seq<Byte>, slot: Slot, w: seq<Byte>, gap: seq<Byte>, v: Parsed<Value>, t: seq<Byte>, room: int)
    requires Written(s, slot.before, slot.node, gap, v, room) && Blank(w) && slot.after == gap + w && v.rest == w + t
    ensures GoodSlot(slot) && Fits(slot.node, room) && v.value == Meaning(slot.node) && s == SlotText(slot) + t
  {
    hide Good, Fits, Meaning, NodeText;
    assert s == slot.before + NodeText(slot.node) + (gap + w) + t;
  }

  lemma LastSlot(slot: Slot, acc: seq<Value>, s: seq<Byte>, t: seq<Byte>, r: Parsed<Value>, room: int)
    requires GoodSlot(slot) && Fits(slot.node, room) && s == SlotText(slot) + t && t != [] && t[0] == 93
    requires r == Got(Arr(acc + [Meaning(slot.node)]), t[1..])
    ensures var items := [slot];
            && GoodSlots(items) && SlotsFit(items, room) && r.value == Arr(acc + Meanings(items))
            && s == SlotsText(items) + [93] + r.rest
  {
    hide Good, Fits, NodeText;
    assert [slot][1..] == [] && Meanings([slot]) == [Meaning(slot.node)];
    assert t == [93] + t[1..];
  }

  lemma NextSlot(slot: Slot, more: seq<Slot>, acc: seq<Value>, s: seq<Byte>, t: seq<Byte>, r: Parsed<Value>, room: int)
    requires GoodSlot(slot) && Fits(slot.node, room) && s == SlotText(slot) + t && t != [] && t[0] == 44
    requires more != [] && GoodSlots(more) && SlotsFit(more, room) && r.Got?
    requires r.value == Arr(acc + [Meaning(slot.node)] + Meanings(more)) && t[1..] == SlotsText(more) + [93] + r.rest
    ensures var items := [slot] + more;
            && GoodSlots(items) && SlotsFit(items, room) && r.value == Arr(acc + Meanings(items))
            && s == SlotsText(items) + [93] + r.rest
  {
    hide *;
    MoreSlotsText(slot, more);
    var items := [slot] + more;
    MeaningsFirst(items, acc);
    FirstFits(items, room);
    RegroupNext(SlotText(slot), t, 44, SlotsText(more), [93], r.rest);
  }

  lemma MoreSlotsText(slot: Slot, more: seq<Slot>)
    requires GoodSlot(slot) && more != [] && GoodSlots(more)
    ensures var items := [slot] + more;
            GoodSlots(items) && items[0] == slot && items[1..] == more
            && SlotsText(items) == SlotText(slot) + [44] + SlotsText(more)
  {
    var items := [slot] + more;
    assert items[1..] == more && items[0] == slot;
    Brackets();
    hide Ascii, GoodSlot;
  }

  lemma {:induction false} ObjectIsNode(u: seq<Byte>, level: nat, limit: nat) returns (n: Node)
    requires ParseObject(u, level, limit).Got? && level > 0 && level <= limit + 1
    ensures Good(n) && Fits(n, limit + 2 - level) && ParseObject(u, level, limit).value == Meaning(n)
    ensures [123] + u == NodeText(n) + ParseObject(u, level, limit).rest
    decreases |u|, 2
  {
    hide *;
    ObjectCases(u, level, limit);
    var r := ParseObject(u, level, limit);
    if Trim(u) != [] && Trim(u)[0] == 125 {
      var w := TrimSplit(u);
      n := Fields(w, []);
      NoFields(w, u, r, limit + 2 - level);
    } else {
      var fields := FieldsAre(u, map[], level, limit);
      n := Fields([], fields);
      FullFields(n, u, r, limit + 1 - level);
    }
  }

  lemma ObjectCases(u: seq<Byte>, level: nat, limit: nat)
    ensures var t, r := Trim(u), ParseObject(u, level, limit);
            if t != [] && t[0] == 125 then r == Got(Obj(map[]), t[1..]) else r == ParseMembers(t, map[], level, limit)
  {
    hide ParseMembers, Trim;
  }

  lemma NoFields(w: seq<Byte>, u: seq<Byte>, r: Parsed<Value>, room: int)
    requires Blank(w) && u == w + Trim(u) && Trim(u) != [] && Trim(u)[0] == 125 && r == Got(Obj(map[]), Trim(u)[1..]) && room > 0
    ensures var n := Fields(w, []);
            Good(n) && Fits(n, room) && r.value == Meaning(n) && [123] + u == NodeText(n) + r.rest
  {
    Brackets();
    hide Ascii, Blank, Trim;
    assert u == w + ([125] + r.rest);
  }

  lemma FullFields(n: Node, u: seq<Byte>, r: Parsed<Value>, room: int)
    requires n.Fields? && n.blanks == [] && n.fields != [] && GoodFields(n.fields) && FieldsFit(n.fields, room) && room >= 0
    requires r.Got? && r.value == Obj(Entered(map[], n.fields)) && u == FieldsText(n.fields) + [125] + r.rest
    ensures Good(n) && Fits(n, room + 1) && r.value == Meaning(n) && [123] + u == NodeText(n) + r.rest
  {
    Brackets();
    hide Ascii, FieldsText;
    assert [123] + u == [123] + FieldsText(n.fields) + [125] + r.rest;
  }

  lemma {:induction false} FieldsAre(s: seq<Byte>, acc: map<seq<Byte>, Value>, level: nat, limit: nat) returns (fields: seq<Field>)
    requires ParseMembers(Trim(s), acc, level, limit).Got?
    ensures fields != [] && GoodFields(fields) && FieldsFit(fields, limit + 1 - level)
    ensures ParseMembers(Trim(s), acc, level, limit).value == Obj(Entered(acc, fields))
    ensures s == FieldsText(fields) + [125] + ParseMembers(Trim(s), acc, level, limit).rest
    decreases |s|, 1
  {
    var start, key, gap, x := KeyIsParts(s, acc, level, limit);
    hide *;
    var v, r := ParseValue(x, level, limit), ParseMembers(Trim(s), acc, level, limit);
    var before, n, after := ValueIsNode(x, level, limit);
    var w := TrimSplit(v.rest);
    var t := Trim(v.rest);
    var slot := Slot(before, n, after + w);
    SlotWritten(x, slot, w, after, v, t, limit + 1 - level);
    var f := Field(start, key, gap, slot);
    FieldWritten(s, f, x, t);
    if t[0] == 125 {
      fields := [f];
      LastField(f, acc, s, t, r, limit + 1 - level);
    } else {
      var more := FieldsAre(t[1..], acc[PartsBytes(key) := v.value], level, limit);
      fields := [f] + more;
      NextField(f, more, acc, s, t, r, limit + 1 - level);
    }
  }

  /** The key of a member, its colon, the text x of its value, and how the loop goes on. */
  lemma KeyIsParts(s: seq<Byte>, acc: map<seq<Byte>, Value>, level: nat, limit: nat)
    returns (start: seq<Byte>, key: seq<Part>, gap: seq<Byte>, x: seq<Byte>)
    requires ParseMembers(Trim(s), acc, level, limit).Got?
    ensures Blank(start) && GoodParts(key) && Blank(gap) && |x| < |s|
    ensures s == start + InQuoteMarks(key) + gap + Ascii(":") + x
    ensures ParseValue(x, level, limit).Got? && Trim(ParseValue(x, level, limit).rest) != []
    ensures var v, r := ParseValue(x, level, limit), ParseMembers(Trim(s), acc, level, limit);
            var t := Trim(v.rest);
            && |t| < |s| && (t[0] == 125 || t[0] == 44)
            && (t[0] == 125 ==> r == Got(Obj(acc[PartsBytes(key) := v.value]), t[1..]))
            && (t[0] == 44 ==> r == ParseMembers(Trim(t[1..]), acc[PartsBytes(key) := v.value], level, limit))
  {
    hide *;
    var u := Trim(s);
    start := TrimSplit(s);
    MembersUnfold(u, acc, level, limit);
    key, gap, x := KeySplit(u);
    SameTrimmed(x, level, limit);
    RegroupKey(start, InQuoteMarks(key), gap, Ascii(":"), x);
  }

  lemma RegroupKey(a: seq<Byte>, b: seq<Byte>, c: seq<Byte>, d: seq<Byte>, e: seq<Byte>)
    ensures a + (b + c + d + e) == a + b + c + d + e
  {}

  lemma SameTrimmed(x: seq<Byte>, level: nat, limit: nat)
    ensures ParseValue(Trim(x), level, limit) == ParseValue(x, level, limit)
  {
    TrimTwice(x);
    SameValue(Trim(x), x, level, limit);
  }

  lemma KeySplit(u: seq<Byte>) returns (key: seq<Part>, gap: seq<Byte>, x: seq<Byte>)
    requires ParseKey(u).Got?
    ensures GoodParts(key) && Blank(gap) && |x| < |u| && u == InQuoteMarks(key) + gap + Ascii(":") + x
    ensures ParseKey(u) == Got(PartsBytes(key), Trim(x))
  {
    hide StringBody, PartsText, PartsBytes, GoodParts, Blank, Trim;
    var k := StringBody(u[1..], []);
    key := StringIsParts(u[1..], []);
    gap := TrimSplit(k.rest);
    x := Trim(k.rest)[1..];
    Brackets();
    QuoteMark();
    hide Ascii;
    assert [] + PartsBytes(key) == PartsBytes(key);
    assert u == [QUOTE] + u[1..];
    assert k.rest == gap + ([58] + x);
    assert u == [QUOTE] + PartsText(key) + [QUOTE] + gap + [58] + x;
  }

  lemma MembersUnfold(u: seq<Byte>, acc: map<seq<Byte>, Value>, level: nat, limit: nat)
    requires ParseMembers(u, acc, level, limit).Got?
    ensures ParseKey(u).Got? && ParseValue(ParseKey(u).rest, level, limit).Got?
    ensures Trim(ParseValue(ParseKey(u).rest, level, limit).rest) != []
    ensures var k, r := ParseKey(u), ParseMembers(u, acc, level, limit);
            var v := ParseValue(k.rest, level, limit);
            var t := Trim(v.rest);
            && |t| < |u| && (t[0] == 125 || t[0] == 44)
            && (t[0] == 125 ==> r == Got(Obj(acc[k.value := v.value]), t[1..]))
            && (t[0] == 44 ==> r == ParseMembers(Trim(t[1..]), acc[k.value := v.value], level, limit))
  {
    hide ParseValue, ParseKey;
  }

  lemma FieldWritten(s: seq<Byte>, f: Field, x: seq<Byte>, t: seq<Byte>)
    requires Blank(f.before) && GoodParts(f.key) && Blank(f.gap) && GoodSlot(f.value)
    requires s == f.before + InQuoteMarks(f.key) + f.gap + Ascii(":") + x && x == SlotText(f.value) + t
    ensures GoodField(f) && s == FieldText(f) + t
  {
    hide Blank, GoodParts, Ascii, InQuoteMarks, SlotText, GoodSlot;
  }

  lemma LastField(f: Field, acc: map<seq<Byte>, Value>, s: seq<Byte>, t: seq<Byte>, r: Parsed<Value>, room: int)
    requires GoodField(f) && GoodSlot(f.value) && GoodParts(f.key) && Fits(f.value.node, room)
    requires s == FieldText(f) + t && t != [] && t[0] == 125
    requires r == Got(Obj(acc[PartsBytes(f.key) := Meaning(f.value.node)]), t[1..])
    ensures var fields := [f];
            && GoodFields(fields) && FieldsFit(fields, room) && r.value == Obj(Entered(acc, fields))
            && s == FieldsText(fields) + [125] + r.rest
  {
    OneField(f);
    EnteredFirst([f], acc);
    assert [f][1..] == [];
    NoneEntered(acc[PartsBytes(f.key) := Meaning(f.value.node)]);
    hide Fits, PartsBytes, Entered, FieldText, FieldsText, GoodField, GoodParts, Meaning;
    assert t == [125] + t[1..];
  }

  lemma OneField(f: Field)
    requires GoodField(f)
    ensures GoodFields([f]) && FieldsText([f]) == FieldText(f)
  {}

  lemma MoreFieldsText(f: Field, more: seq<Field>)
    requires GoodField(f) && more != [] && GoodFields(more)
    ensures var fields := [f] + more;
            GoodFields(fields) && fields[0] == f && fields[1..] == more
            && FieldsText(fields) == FieldText(f) + [44] + FieldsText(more)
  {
    var fields := [f] + more;
    assert fields[1..] == more && fields[0] == f;
    Brackets();
    hide Ascii, GoodField;
  }

  lemma NextField(f: Field, more: seq<Field>, acc: map<seq<Byte>, Value>, s: seq<Byte>, t: seq<Byte>, r: Parsed<Value>, room: int)
    requires GoodField(f) && GoodSlot(f.value) && GoodParts(f.key) && Fits(f.value.node, room)
    requires s == FieldText(f) + t && t != [] && t[0] == 44
    requires more != [] && GoodFields(more) && FieldsFit(more, room) && r.Got?
    requires r.value == Obj(Entered(acc[PartsBytes(f.key) := Meaning(f.value.node)], more))
    requires t[1..] == FieldsText(more) + [125] + r.rest
    ensures var fields := [f] + more;
            && GoodFields(fields) && FieldsFit(fields, room) && r.value == Obj(Entered(acc, fields))
            && s == FieldsText(fields) + [125] + r.rest
  {
    hide *;
    MoreFieldsText(f, more);
    var fields := [f] + more;
    EnteredFirst(fields, acc);
    FirstFieldFits(fields, room);
    RegroupNext(FieldText(f), t, 44, FieldsText(more), [125], r.rest);
  }

  lemma RegroupNext(x: seq<Byte>, t: seq<Byte>, c: Byte, y: seq<Byte>, z: seq<Byte>, rest: seq<Byte>)
    requires t != [] && t[0] == c && t[1..] == y + z + rest
    ensures x + t == x + [c] + y + z + rest
  {
    assert t == [c] + t[1..];
  }

  /** What may stand behind the value: blanks, and then nothing, or a zero byte and anything. */
  predicate Closes(tail: seq<Byte>) {
    Trim(tail) == [] || Trim(tail)[0] == 0
  }

  /** Whatever is accepted is a document of the grammar that is not nested too deep, and the result is its meaning. */
  lemma AcceptedIsWritten(s: seq<Byte>, limit: nat) returns (before: seq<Byte>, n: Node, tail: seq<Byte>)
    requires ParseJson(s, limit).Some?
    ensures Blank(before) && Good(n) && Closes(tail) && s == before + NodeText(n) + tail
    ensures Fits(n, limit + 1) && ParseJson(s, limit) == Some(Meaning(n))
  {
    hide ParseValue, Good, Fits, Meaning, NodeText, Blank, Trim;
    var gap;
    before, n, gap := ValueIsNode(s, 0, limit);
    var rest := ParseValue(s, 0, limit).rest;
    tail := gap + rest;
    assert s == before + NodeText(n) + tail;
    BlankTrims(gap, rest);
  }

  /** Every such document is accepted with its meaning, and refused when it is nested deeper. */
  lemma WrittenIsAccepted(before: seq<Byte>, n: Node, tail: seq<Byte>, limit: nat)
    requires Blank(before) && Good(n) && Ends(tail)
    ensures ParseJson(before + NodeText(n) + tail, limit)
            == if Fits(n, limit + 1) && Closes(tail) then Some(Meaning(n)) else None
  {
    hide ParseValue, Good, Fits, Meaning, NodeText, Blank, Trim, Ends;
    var s := NodeText(n) + tail;
    assert before + NodeText(n) + tail == before + s;
    BlankTrims(before, s);
    SameValue(before + s, s, 0, limit);
    NodeTrip(n, 0, limit, tail);
  }

  /** s is a document of the grammar with this meaning, within the recursion limit. */
  ghost predicate Document(s: seq<Byte>, before: seq<Byte>, n: Node, tail: seq<Byte>, limit: nat, v: Value) {
    Blank(before) && Good(n) && Closes(tail) && s == before + NodeText(n) + tail && Fits(n, limit + 1) && v == Meaning(n)
  }

  /** parseJson accepts exactly the documents of the grammar, each with its meaning. */
  lemma Language(s: seq<Byte>, limit: nat, v: Value)
    ensures ParseJson(s, limit) == Some(v) <==> exists before, n, tail :: Document(s, before, n, tail, limit, v)
  {
    hide ParseJson, Good, Fits, Meaning, NodeText, Blank, Closes;
    if ParseJson(s, limit) == Some(v) {
      var before, n, tail := AcceptedIsWritten(s, limit);
      assert Document(s, before, n, tail, limit, v);
    }
    if exists before, n, tail :: Document(s, before, n, tail, limit, v) {
      var before, n, tail :| Document(s, before, n, tail, limit, v);
      ClosesEnds(tail);
      WrittenIsAccepted(before, n, tail, limit);
    }
  }

  lemma ClosesEnds(tail: seq<Byte>)
    requires Closes(tail)
    ensures Ends(tail)
  {}
}
