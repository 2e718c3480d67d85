/** What Base64 text means: letters of the alphabets of RFC 4648 and the numbers they spell. */
module Base64Alphabet {
  import opened FbLayout
  import opened Base64

  const CAPITALS: string := "ABCDEFGHIJKLMNOPQRSTUVWXYZ"
  const SMALLS: string := "abcdefghijklmnopqrstuvwxyz"
  const COMMON: string := CAPITALS + SMALLS + "0123456789+/"
  const URI: string := CAPITALS + SMALLS + "0123456789-_"

  /** c is letter number d. */
  predicate IsLetter(c: Byte, d: nat, uri: bool) {
    d < 64 && c == (if uri then URI[d] else COMMON[d]) as int
  }

  lemma Capitals(d: nat)
    requires d < 26
    ensures COMMON[d] as int == 65 + d && URI[d] as int == 65 + d
  {
    assert COMMON[d] == CAPITALS[d] == URI[d];
  }

  lemma Smalls(d: nat)
    requires 26 <= d < 52
    ensures COMMON[d] as int == 71 + d && URI[d] as int == 71 + d
  {
    assert COMMON[d] == SMALLS[d - 26] == URI[d];
  }

  lemma Figures(d: nat)
    requires 52 <= d < 64
    ensures d < 62 ==> COMMON[d] as int == d - 4 && URI[d] as int == d - 4
    ensures d == 62 ==> COMMON[d] == '+' && URI[d] == '-'
    ensures d == 63 ==> COMMON[d] == '/' && URI[d] == '_'
  {}

  lemma Spelled(d: nat)
    requires d < 64
    ensures COMMON[d] < 128 as char && URI[d] < 128 as char
    ensures EncodeChar(d, false) == COMMON[d] as int && EncodeChar(d, true) == URI[d] as int
    ensures forall uri :: IsLetter(EncodeChar(d, uri), d, uri)
  {
    if d < 26 {
      Capitals(d);
    } else if d < 52 {
      Smalls(d);
    } else {
      Figures(d);
    }
  }

  /** The decoder takes the letters of both alphabets, the pad as zero, and skips everything else. */
  lemma DecodesLetters(c: Byte, d: nat)
    ensures d > 0 ==> (DecodeChar(c) == d <==> IsLetter(c, d, false) || IsLetter(c, d, true))
    ensures DecodeChar(c) == 0 <==> c == 'A' as int || c == '=' as int
    ensures DecodeChar(c) < 0 <==> c != '=' as int && forall i: nat :: !IsLetter(c, i, false) && !IsLetter(c, i, true)
  {
    if d < 64 {
      Spelled(d);
    }
    Spelled(0);
    Capitals(0);
    forall i: nat ensures IsLetter(c, i, false) || IsLetter(c, i, true) ==> DecodeChar(c) == i {
      if i < 64 {
        Spelled(i);
      }
    }
    var n := DecodeChar(c);
    if n >= 0 {
      Spelled(n);
      assert c != '=' as int ==> IsLetter(c, n, false) || IsLetter(c, n, true);
    }
  }

  /** Bytes, and groups of six bits, as one number. */
  function OfBytes(x: int, y: int, z: int): int {
    x * 0x1_0000 + y * 256 + z
  }

  function OfGroups(a: int, b: int, c: int, d: int): int {
    a * 0x4_0000 + b * 4096 + c * 64 + d
  }

  lemma Regrouped(x: int, y: int, z: int)
    requires 0 <= x < 256 && 0 <= y < 256 && 0 <= z < 256
    ensures OfGroups(x / 4, x % 4 * 16 + y / 16, y % 16 * 4 + z / 64, z % 64) == OfBytes(x, y, z)
  {}

  /** Four letters that spell a number of 24 bits, or fewer letters and pads. */
  predicate Spells(q: seq<Byte>, a: nat, b: nat, c: nat, d: nat, letters: nat, uri: bool) {
    && |q| == 4 && IsLetter(q[0], a, uri) && IsLetter(q[1], b, uri)
    && (if letters > 2 then IsLetter(q[2], c, uri) else c == 0 && q[2] == '=' as int)
    && (if letters > 3 then IsLetter(q[3], d, uri) else d == 0 && q[3] == '=' as int)
  }

  lemma {:induction false} EncodeFrom(s: seq<Byte>, uri: bool, k: nat)
    requires 3 * k <= |s|
    ensures 4 * k <= |Encode(s, uri)| && Encode(s, uri)[4 * k..] == Encode(s[3 * k..], uri)
  {
    hide EncodeChar;
    if k == 0 {
      assert s[0..] == s;
    } else {
      var r, t := Encode(s, uri), s[3..];
      EncodeFrom(t, uri, k - 1);
      assert t[3 * (k - 1)..] == s[3 * k..];
      assert r[4..] == Encode(t, uri);
      assert r[4..][4 * (k - 1)..] == r[4 * k..];
    }
  }

  /** Letters for the bytes at the front, those past the end taken as zero. */
  lemma FrontMeans(s: seq<Byte>, uri: bool) returns (a: nat, b: nat, c: nat, d: nat)
    requires s != []
    ensures |Encode(s, uri)| >= 4
    ensures Spells(Encode(s, uri)[..4], a, b, c, d, if |s| < 3 then |s| + 1 else 4, uri)
    ensures OfGroups(a, b, c, d) == OfBytes(s[0], if |s| > 1 then s[1] else 0, if |s| > 2 then s[2] else 0)
  {
    var x: int, y: int, z: int := s[0], if |s| > 1 then s[1] else 0, if |s| > 2 then s[2] else 0;
    a, b, c, d := x / 4, x % 4 * 16 + y / 16, y % 16 * 4 + z / 64, z % 64;
    Regrouped(x, y, z);
    FrontLetters(s, uri, a, b, c, d);
  }

  lemma FrontLetters(s: seq<Byte>, uri: bool, a: nat, b: nat, c: nat, d: nat)
    requires s != [] && a == s[0] / 4 && b == s[0] % 4 * 16 + (if |s| > 1 then s[1] / 16 else 0)
    requires c == (if |s| > 1 then s[1] % 16 * 4 else 0) + (if |s| > 2 then s[2] / 64 else 0)
    requires d == if |s| > 2 then s[2] % 64 else 0
    requires a < 64 && b < 64 && c < 64 && d < 64
    ensures |Encode(s, uri)| >= 4
    ensures Spells(Encode(s, uri)[..4], a, b, c, d, if |s| < 3 then |s| + 1 else 4, uri)
  {
    var q := [EncodeChar(a, uri), EncodeChar(b, uri), if |s| > 1 then EncodeChar(c, uri) else PAD,
              if |s| > 2 then EncodeChar(d, uri) else PAD];
    FrontIs(s, uri, a, b, c, d, q);
    hide EncodeChar, IsLetter, Encode;
    Spelled(a);
    Spelled(b);
    Spelled(c);
    Spelled(d);
  }

  lemma FrontIs(s: seq<Byte>, uri: bool, a: nat, b: nat, c: nat, d: nat, q: seq<Byte>)
    requires s != [] && a == s[0] / 4 && b == s[0] % 4 * 16 + (if |s| > 1 then s[1] / 16 else 0)
    requires c == (if |s| > 1 then s[1] % 16 * 4 else 0) + (if |s| > 2 then s[2] / 64 else 0)
    requires d == if |s| > 2 then s[2] % 64 else 0
    requires a < 64 && b < 64 && c < 64 && d < 64
    requires q == [EncodeChar(a, uri), EncodeChar(b, uri), if |s| > 1 then EncodeChar(c, uri) else PAD,
                   if |s| > 2 then EncodeChar(d, uri) else PAD]
    ensures |Encode(s, uri)| >= 4 && Encode(s, uri)[..4] == q
  {
    hide EncodeChar;
    if |s| >= 3 {
      assert Encode(s, uri) == q + Encode(s[3..], uri);
    } else {
      assert Encode(s, uri) == q;
    }
  }

  /**
   * Characters 4k to 4k + 3 spell bytes 3k to 3k + 2 as one number of 24 bits; where the bytes end, the
   * number goes on with zeros and the letters that would only spell zeros are pads.
   */
  lemma GroupMeans(s: seq<Byte>, uri: bool, k: nat) returns (a: nat, b: nat, c: nat, d: nat)
    requires 3 * k < |s|
    ensures var left := |s| - 3 * k;
            && |Encode(s, uri)| >= 4 * k + 4
            && Spells(Encode(s, uri)[4 * k..4 * k + 4], a, b, c, d, if left < 3 then left + 1 else 4, uri)
            && OfGroups(a, b, c, d)
               == OfBytes(s[3 * k], if left > 1 then s[3 * k + 1] else 0, if left > 2 then s[3 * k + 2] else 0)
  {
    hide Encode, Spells, OfGroups, OfBytes;
    EncodeFrom(s, uri, k);
    var t := s[3 * k..];
    a, b, c, d := FrontMeans(t, uri);
    assert Encode(s, uri)[4 * k..][..4] == Encode(s, uri)[4 * k..4 * k + 4];
  }

  /** The numbers of the letters of a text up to its first pad; everything else is passed over. */
  function Letters(t: seq<Byte>): (ds: seq<nat>)
    ensures forall i :: 0 <= i < |ds| ==> ds[i] < 64
  {
    if t == [] || t[0] == '=' as int then []
    else if DecodeChar(t[0]) < 0 then Letters(t[1..])
    else [DecodeChar(t[0])] + Letters(t[1..])
  }

  /** Six bits for each letter, and the whole bytes they make. */
  ghost predicate Unpacked(ds: seq<nat>, bytes: seq<Byte>) {
    && |bytes| == |ds| * 6 / 8
    && forall k: nat :: 4 * k < |ds| ==> FrontUnpacked(ds[4 * k..], bytes[3 * k..])
  }

  /** The bytes of the first four letters, or of as many as there are. */
  predicate FrontUnpacked(ds: seq<nat>, bytes: seq<Byte>) {
    if |ds| >= 4 then
      |bytes| >= 3 && OfBytes(bytes[0], bytes[1], bytes[2]) == OfGroups(ds[0], ds[1], ds[2], ds[3])
    else if |ds| == 3 then
      |bytes| == 2 && OfBytes(0, bytes[0], bytes[1]) == OfGroups(0, ds[0], ds[1], ds[2]) / 4
    else if |ds| == 2 then
      |bytes| == 1 && OfBytes(0, 0, bytes[0]) == OfGroups(0, 0, ds[0], ds[1]) / 16
    else
      bytes == []
  }

  predicate Bits6(v: nat, bits: nat) {
    (bits == 0 || bits == 2 || bits == 4 || bits == 6) && v < Unit(bits)
  }

  /** The decoder on the letters alone. */
  function FromLetters(ds: seq<nat>, v: nat, bits: nat): seq<Byte>
    requires Bits6(v, bits) && forall i :: 0 <= i < |ds| ==> ds[i] < 64
  {
    if ds == [] then []
    else if bits == 0 then FromLetters(ds[1..], ds[0], 6)
    else [ByteOf(v, bits, ds[0])] + FromLetters(ds[1..], Left(v, bits, ds[0]), bits - 2)
  }

  /** What a letter, or something else, at the front does. */
  lemma LettersNext(t: seq<Byte>)
    requires t != [] && t[0] != PAD
    ensures '=' as int in t <==> '=' as int in t[1..]
    ensures if DecodeChar(t[0]) < 0 then Letters(t) == Letters(t[1..])
            else Letters(t) != [] && Letters(t)[0] == DecodeChar(t[0]) && Letters(t)[1..] == Letters(t[1..])
  {
    hide DecodeChar;
  }

  lemma {:induction false} DecodeLetters(t: seq<Byte>, v: nat, bits: nat)
    requires Bits6(v, bits)
    ensures Decode(t, v, bits).bytes == FromLetters(Letters(t), v, bits)
    decreases |t|
  {
    if t != [] && t[0] != PAD {
      LettersNext(t);
      var c := DecodeChar(t[0]);
      if c < 0 {
        DecodeLetters(t[1..], v, bits);
      } else {
        assert t[0] <= 0x7F;
        hide DecodeChar, Letters, ByteOf, Left;
        if bits == 0 {
          DecodeLetters(t[1..], c, 6);
        } else {
          DecodeLetters(t[1..], Left(v, bits, c), bits - 2);
        }
      }
    }
  }

  lemma {:induction false} DecodeWhole(t: seq<Byte>, v: nat, bits: nat)
    requires Bits6(v, bits)
    ensures Decode(t, v, bits).whole <==> '=' as int in t || (bits + 6 * |Letters(t)|) % 8 == 0
    decreases |t|
  {
    if t != [] && t[0] != PAD {
      LettersNext(t);
      var c := DecodeChar(t[0]);
      if c < 0 {
        DecodeWhole(t[1..], v, bits);
      } else {
        assert t[0] <= 0x7F;
        hide DecodeChar, Letters, ByteOf, Left;
        EightBits(bits, |Letters(t)| - 1);
        if bits == 0 {
          DecodeWhole(t[1..], c, 6);
        } else {
          DecodeWhole(t[1..], Left(v, bits, c), bits - 2);
        }
      }
    }
  }

  /** Another six bits. */
  lemma EightBits(bits: nat, n: nat)
    ensures (bits + 6 * (n + 1)) % 8 == (bits + 6 + 6 * n) % 8
    ensures bits >= 2 ==> (bits + 6 + 6 * n) % 8 == (bits - 2 + 6 * n) % 8
  {}

  lemma WholeBytes(n: nat)
    ensures 6 * n % 8 == 0 <==> n % 4 == 0
  {
    var q, r := n / 4, n % 4;
    assert 6 * n == 8 * (3 * q) + 6 * r;
  }

  lemma FourLetters(a: nat, b: nat, c: nat, d: nat)
    requires a < 64 && b < 64 && c < 64 && d < 64
    ensures var v := Left(a, 6, b); var w := Left(v, 4, c);
            && OfBytes(ByteOf(a, 6, b), ByteOf(v, 4, c), ByteOf(w, 2, d)) == OfGroups(a, b, c, d)
            && Left(w, 2, d) == 0
            && OfBytes(0, ByteOf(a, 6, b), ByteOf(v, 4, c)) == OfGroups(0, a, b, c) / 4
            && OfBytes(0, 0, ByteOf(a, 6, b)) == OfGroups(0, 0, a, b) / 16
  {}

  /** One group and what follows it. */
  lemma LettersFront(ds: seq<nat>)
    requires ds != [] && forall i :: 0 <= i < |ds| ==> ds[i] < 64
    ensures FrontUnpacked(ds, FromLetters(ds, 0, 0))
    ensures |ds| >= 4 ==> FromLetters(ds, 0, 0)[3..] == FromLetters(ds[4..], 0, 0)
    ensures |ds| < 4 ==> |FromLetters(ds, 0, 0)| == |ds| * 6 / 8
  {
    var a := ds[0];
    var b, c, d := if |ds| > 1 then ds[1] else 0, if |ds| > 2 then ds[2] else 0, if |ds| > 3 then ds[3] else 0;
    FourLetters(a, b, c, d);
    hide ByteOf, Left, OfBytes, OfGroups;
    var v := Left(a, 6, b);
    var w := Left(v, 4, c);
    assert FromLetters(ds, 0, 0) == FromLetters(ds[1..], a, 6);
    if |ds| > 1 {
      assert ds[1..][0] == b && ds[1..][1..] == ds[2..];
      assert FromLetters(ds[1..], a, 6) == [ByteOf(a, 6, b)] + FromLetters(ds[2..], v, 4);
    }
    if |ds| > 2 {
      assert ds[2..][0] == c && ds[2..][1..] == ds[3..];
      assert FromLetters(ds[2..], v, 4) == [ByteOf(v, 4, c)] + FromLetters(ds[3..], w, 2);
    }
    if |ds| > 3 {
      assert ds[3..][0] == d && ds[3..][1..] == ds[4..];
      assert FromLetters(ds[3..], w, 2) == [ByteOf(w, 2, d)] + FromLetters(ds[4..], 0, 0);
    }
  }

  lemma {:induction false} LettersUnpacked(ds: seq<nat>)
    requires forall i :: 0 <= i < |ds| ==> ds[i] < 64
    ensures Unpacked(ds, FromLetters(ds, 0, 0))
    decreases |ds|
  {
    var bytes := FromLetters(ds, 0, 0);
    if ds != [] {
      LettersFront(ds);
      hide FrontUnpacked, FromLetters;
      if |ds| >= 4 {
        LettersUnpacked(ds[4..]);
        assert |bytes| >= 3;
        forall k: nat | 4 * k < |ds| ensures FrontUnpacked(ds[4 * k..], bytes[3 * k..]) {
          if k == 0 {
            assert ds[0..] == ds && bytes[0..] == bytes;
          } else {
            assert ds[4..][4 * (k - 1)..] == ds[4 * k..] && bytes[3..][3 * (k - 1)..] == bytes[3 * k..];
          }
        }
      } else {
        assert ds[0..] == ds && bytes[0..] == bytes;
      }
    }
  }

  /** What the decoder gives for any text whatever: the bytes its letters spell, and whether no bit is left over. */
  lemma DecodeMeans(t: seq<Byte>)
    ensures Unpacked(Letters(t), Decode(t, 0, 0).bytes)
    ensures Decode(t, 0, 0).whole <==> '=' as int in t || |Letters(t)| % 4 == 0
  {
    hide Letters, Decode, FromLetters, Unpacked;
    DecodeLetters(t, 0, 0);
    DecodeWhole(t, 0, 0);
    WholeBytes(|Letters(t)|);
    LettersUnpacked(Letters(t));
  }
}
