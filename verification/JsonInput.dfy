/** The parser as it runs: one cursor moved over the input, and a recursion level. */
module JsonInput {
  import opened Options
  import opened FbLayout
  import opened Conv
  import opened Utf8
  import opened JsonText
  import opened JsonParse

  /** The outcome of a parsing step and where it leaves the cursor; an error is None. */
  ghost predicate Agrees<T>(r: Option<T>, range: seq<Byte>, spec: Parsed<T>) {
    match spec
    case Bad => r.None?
    case Got(v, rest) => r == Some(v) && range == rest
  }

  class Input {
    var range: seq<Byte>
    var level: nat
    const limit: nat

    constructor (s: seq<Byte>, limit: nat)
      ensures range == s && level == 0 && this.limit == limit
    {
      range, level, this.limit := s, 0, limit;
    }

    predicate At(c: Byte)
      reads this`range
    {
      StartsWith(range, c)
    }

    /** operator++ */
    method Advance(n: nat)
      requires n <= |range|
      modifies this`range
      ensures range == old(range)[n..]
    {
      range := range[n..];
    }

    /** Blanks first, then one other white-space character at a time. */
    method SkipWhitespace()
      modifies this`range
      ensures range == Trim(old(range))
    {
      var more := true;
      while more
        invariant Trim(range) == Trim(old(range)) && |range| <= |old(range)|
        invariant !more ==> range == Trim(range)
        decreases |range|, more
      {
        ghost var before := |range|;
        while range != [] && range[0] == 32
          invariant Trim(range) == Trim(old(range)) && |range| <= before
        {
          range := range[1..];
        }
        more := range != [] && IsBlank(range[0]);
        if more {
          range := range[1..];
        }
      }
    }

    method Expect(c: Byte) returns (ok: bool)
      modifies this`range
      ensures ok == StartsWith(old(range), c)
      ensures range == if ok then old(range)[1..] else old(range)
    {
      ok := At(c);
      if ok {
        Advance(1);
      }
    }

    method Consume(str: seq<Byte>) returns (ok: bool)
      modifies this`range
      ensures ok == (str <= old(range))
      ensures range == if ok then old(range)[|str|..] else old(range)
    {
      ok := str <= range;
      if ok {
        Advance(|str|);
      }
    }

    /** Four hex digits, one step of the cursor each. */
    method ReadHexDigits() returns (r: Option<nat>)
      modifies this`range
      ensures Agrees(r, range, ReadHex(old(range)))
    {
      if |range| < 4 {
        return None;
      }
      ghost var s := range;
      var i, v := 0, 0;
      while i < 4
        invariant 0 <= i <= 4 && range == s[i..]
        invariant forall k :: 0 <= k < i ==> HexVal(s[k]).Some?
        invariant v == Nibbles(s, i)
      {
        var h := HexVal(range[0]);
        if h.None? {
          assert HexVal(s[i]).None?;
          return None;
        }
        v := v * 16 + h.value;
        Advance(1);
        i := i + 1;
      }
      FourDigits(s);
      return Some(v);
    }

    ghost function Nibbles(s: seq<Byte>, i: nat): nat
      requires i <= |s| && forall k :: 0 <= k < i ==> HexVal(s[k]).Some?
    {
      if i == 0 then 0 else Nibbles(s, i - 1) * 16 + HexVal(s[i - 1]).value
    }

    lemma FourDigits(s: seq<Byte>)
      requires |s| >= 4 && forall k :: 0 <= k < 4 ==> HexVal(s[k]).Some?
      ensures ReadHex(s) == Got(Nibbles(s, 4), s[4..])
    {
      hide HexVal;
      assert Nibbles(s, 1) == HexVal(s[0]).value;
      assert Nibbles(s, 2) == Nibbles(s, 1) * 16 + HexVal(s[1]).value;
      assert Nibbles(s, 3) == Nibbles(s, 2) * 16 + HexVal(s[2]).value;
      assert Nibbles(s, 4) == Nibbles(s, 3) * 16 + HexVal(s[3]).value;
    }

    method DecodeUnicodeEscape() returns (r: Option<seq<Byte>>)
      modifies this`range
      ensures Agrees(r, range, UnicodeEscape(old(range)))
    {
      hide ReadHex, Encode;
      var first := ReadHexDigits();
      if first.None? {
        return None;
      }
      var codePoint := first.value;
      if 0xD800 <= codePoint <= 0xDBFF {
        var ok := Consume([BACKSLASH, 117]);
        if !ok {
          return None;
        }
        var second := ReadHexDigits();
        if second.None? || !(0xDC00 <= second.value <= 0xDFFF) {
          return None;
        }
        codePoint := 0x1_0000 + codePoint % 1024 * 1024 + second.value % 1024;
      } else if 0xDC00 <= codePoint <= 0xDFFF {
        return None;
      }
      return Some(Encode(codePoint));
    }

    /** The characters up to a quote or a backslash. */
    method SkipPlain(ghost acc: seq<Byte>) returns (chunk: seq<Byte>)
      modifies this`range
      ensures |range| <= |old(range)| && (range == [] || range[0] == QUOTE || range[0] == BACKSLASH)
      ensures StringBody(old(range), acc) == StringBody(range, acc + chunk)
    {
      var skipped := 0;
      assert acc + range[..0] == acc && range[0..] == range;
      while skipped < |range| && range[skipped] != QUOTE && range[skipped] != BACKSLASH
        invariant 0 <= skipped <= |range| && range == old(range)
        invariant StringBody(range, acc) == StringBody(range[skipped..], acc + range[..skipped])
      {
        assert acc + range[..skipped] + [range[skipped]] == acc + range[..skipped + 1];
        assert range[skipped..][1..] == range[skipped + 1..];
        skipped := skipped + 1;
      }
      chunk := range[..skipped];
      Advance(skipped);
    }

    /** An escape sequence, after the backslash. */
    method ParseEscape() returns (r: Option<seq<Byte>>)
      modifies this`range
      ensures Agrees(r, range, Escape(old(range)))
    {
      hide UnicodeEscape;
      if range == [] {
        return None;
      }
      var c := range[0];
      if Unescaped(c).Some? {
        Advance(1);
        return Some([Unescaped(c).value]);
      }
      if c == 117 {
        Advance(1);
        r := DecodeUnicodeEscape();
        return;
      }
      return None;
    }

    method ParseString() returns (r: Option<seq<Byte>>)
      requires At(QUOTE)
      modifies this`range
      ensures Agrees(r, range, StringBody(old(range)[1..], []))
    {
      hide Escape;
      Advance(1);
      ghost var s := range;
      var ret := [];
      while true
        invariant StringBody(s, []) == StringBody(range, ret)
        decreases |range|
      {
        var chunk := SkipPlain(ret);
        ret := ret + chunk;
        if At(QUOTE) {
          Advance(1);
          return Some(ret);
        }
        if At(BACKSLASH) {
          Advance(1);
          var e := ParseEscape();
          if e.None? {
            return None;
          }
          ret := ret + e.value;
        } else {
          return None;
        }
      }
    }

    /** The digits at the cursor, skipped. */
    method SkipDigits()
      modifies this`range
      ensures range == old(range)[LeadingDigits(old(range))..]
    {
      var m := FindFirstNonDigit(range, 0);
      Advance(m);
    }

    method ParseNumber() returns (r: Option<Value>)
      requires range != [] && (range[0] == MINUS || IsDigit(range[0]))
      modifies this`range
      ensures Agrees(r, range, Number(old(range)))
    {
      hide ParseInt, INFINITY, IntegralLength, AfterFraction;
      var s := range;
      if [MINUS] + INFINITY <= s {
        InfinityLength();
        Advance(9);
        return Some(Double([MINUS] + INFINITY));
      }
      var n := SkipMinusAndDigits();
      if s[0] == MINUS && n < 2 {
        return None;
      }
      if !At(46) && !IsE(range) {
        var v := To(s[..n], true);
        SkipWhitespace();
        if v.None? || SkipSpaces(v.value.1) != [] {
          return None;
        }
        return Some(Int(v.value.0));
      }
      SkipFraction();
      return Some(Double(s[..|s| - |range|]));
    }

    method SkipMinusAndDigits() returns (n: nat)
      modifies this`range
      ensures n == IntegralLength(old(range)) && range == old(range)[n..]
    {
      var s := range;
      if At(MINUS) {
        Advance(1);
      }
      SkipDigits();
      n := |s| - |range|;
    }

    lemma InfinityLength()
      ensures |[MINUS] + INFINITY| == 9
    {}

    method SkipFraction()
      requires range != []
      modifies this`range
      ensures range == AfterFraction(old(range))
    {
      if !IsE(range) {
        Advance(1);
        SkipDigits();
      }
      if IsE(range) {
        Advance(1);
        if At(PLUS) || At(MINUS) {
          Advance(1);
        }
        SkipDigits();
      }
    }

    method ParseKeyword() returns (r: Option<Value>)
      modifies this`range
      ensures Agrees(r, range, Keyword(old(range)))
    {
      var ok := Consume(TRUE);
      if ok {
        return Some(Bool(true));
      }
      ok := Consume(FALSE);
      if ok {
        return Some(Bool(false));
      }
      ok := Consume(NULL);
      if ok {
        return Some(Null);
      }
      ok := Consume(INFINITY);
      if ok {
        return Some(Double(INFINITY));
      }
      ok := Consume(NAN);
      if ok {
        return Some(Double(NAN));
      }
      return None;
    }

    method ParseArrayAt() returns (r: Option<Value>)
      requires At(91)
      modifies this`range, this`level
      ensures Agrees(r, range, ParseArray(old(range)[1..], old(level), limit)) && level == old(level)
      decreases |range|, 0
    {
      hide JsonParse.ParseValue;
      Advance(1);
      SkipWhitespace();
      if At(93) {
        Advance(1);
        return Some(Arr([]));
      }
      ghost var s := range;
      var ret := [];
      while true
        invariant ParseItems(s, [], level, limit) == ParseItems(range, ret, level, limit)
        invariant |range| <= |s| && level == old(level)
        decreases |range|
      {
        var v := ParseValueAt();
        if v.None? {
          return None;
        }
        ret := ret + [v.value];
        SkipWhitespace();
        if !At(44) {
          break;
        }
        Advance(1);
        SkipWhitespace();
      }
      var ok := Expect(93);
      return if ok then Some(Arr(ret)) else None;
    }

    method ParseKeyAt() returns (r: Option<seq<Byte>>)
      modifies this`range
      ensures Agrees(r, range, ParseKey(old(range)))
    {
      if !At(QUOTE) {
        return None;
      }
      r := ParseString();
      if r.Some? {
        SkipWhitespace();
        var ok := Expect(58);
        if !ok {
          return None;
        }
        SkipWhitespace();
      }
    }

    method ParseObjectAt() returns (r: Option<Value>)
      requires At(123)
      modifies this`range, this`level
      ensures Agrees(r, range, ParseObject(old(range)[1..], old(level), limit)) && level == old(level)
      decreases |range|, 0
    {
      hide JsonParse.ParseValue, ParseKey;
      Advance(1);
      SkipWhitespace();
      if At(125) {
        Advance(1);
        return Some(Obj(map[]));
      }
      ghost var s := range;
      var ret := map[];
      while true
        invariant ParseMembers(s, map[], level, limit) == ParseMembers(range, ret, level, limit)
        invariant |range| <= |s| && level == old(level)
        decreases |range|
      {
        var key := ParseKeyAt();
        if key.None? {
          return None;
        }
        var v := ParseValueAt();
        if v.None? {
          return None;
        }
        ret := ret[key.value := v.value];
        SkipWhitespace();
        if !At(44) {
          break;
        }
        Advance(1);
        SkipWhitespace();
      }
      var ok := Expect(125);
      return if ok then Some(Obj(ret)) else None;
    }

    /** parseValue: the guard counts the level up and, on every way out, down again. */
    method ParseValueAt() returns (r: Option<Value>)
      modifies this`range, this`level
      ensures Agrees(r, range, ParseValue(old(range), old(level), limit)) && level == old(level)
      decreases |range|, 1
    {
      if level > limit {
        return None;
      }
      hide ParseArray, ParseObject, Number, Keyword, StringBody;
      level := level + 1;
      SkipWhitespace();
      if At(91) {
        r := ParseArrayAt();
      } else if At(123) {
        r := ParseObjectAt();
      } else if At(QUOTE) {
        var s := ParseString();
        r := if s.Some? then Some(Str(s.value)) else None;
      } else if range != [] && (range[0] == MINUS || IsDigit(range[0])) {
        r := ParseNumber();
      } else {
        r := ParseKeyword();
      }
      level := level - 1;
    }
  }

  /** parseJson. */
  method ParseText(s: seq<Byte>, limit: nat) returns (r: Option<Value>)
    ensures r == ParseJson(s, limit)
  {
    var input := new Input(s, limit);
    hide ParseValue;
    r := input.ParseValueAt();
    if r.Some? {
      input.SkipWhitespace();
      if input.range != [] && input.range[0] != 0 {
        r := None;
      }
    }
  }
}
