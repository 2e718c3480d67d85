/** The 24-byte union of fbstring_core: three storage categories told apart by the last byte. */
module FbLayout {
  import opened Powers

  type Byte = x: int | 0 <= x < 256

  const MAX_SMALL := 23
  const MAX_MEDIUM := 254
  const MEDIUM := 0x80
  const LARGE := 0x40

  /** Capacities share a word with the two category bits. */
  const CAPACITY_LIMIT: nat := 0x4000_0000_0000_0000
  const WORD: nat := 0x1_0000_0000_0000_0000
  const TOP_BYTE: nat := 0x100_0000_0000_0000

  /** A word from its bytes, least significant first. */
  function Word(s: seq<Byte>): nat {
    if s == [] then 0 else s[0] + 256 * Word(s[1..])
  }

  function Bytes(x: nat, n: nat): (s: seq<Byte>)
    ensures |s| == n
  {
    if n == 0 then [] else [x % 256] + Bytes(x / 256, n - 1)
  }

  lemma {:induction false} WordBytes(x: nat, n: nat)
    requires x < Pow(256, n)
    ensures Word(Bytes(x, n)) == x
  {
    if n > 0 {
      WordBytes(x / 256, n - 1);
      assert Bytes(x, n)[1..] == Bytes(x / 256, n - 1);
    }
  }

  lemma {:induction false} LastByte(x: nat, n: nat)
    requires n > 0
    ensures Bytes(x, n)[n - 1] == x / Pow(256, n - 1) % 256
  {
    if n == 1 {
      assert Bytes(x, 1)[0] == x % 256;
      assert Pow(256, 0) == 1;
    } else {
      LastByte(x / 256, n - 1);
      DivideTwice(x, Pow(256, n - 2));
    }
  }

  lemma DivideTwice(x: nat, p: nat)
    requires p > 0
    ensures (x / 256) / p == x / (256 * p)
  {
    var q, r := x / 256, x % 256;
    var a, b := q / p, q % p;
    Division(q, p, a, b);
    assert a * (256 * p) == 256 * (a * p);
    Quotient(x, 256 * p, a, 256 * b + r);
  }

  lemma WordSize()
    ensures Pow(256, 7) == TOP_BYTE && Pow(256, 8) == WORD
  {
    assert Pow(256, 2) == 0x1_0000;
    hide Pow;
    PowAdd(256, 2, 2);
    PowAdd(256, 4, 2);
    PowAdd(256, 4, 4);
    PowAdd(256, 6, 1);
    OneByte();
  }

  lemma OneByte()
    ensures Pow(256, 1) == 256
  {}

  type Core = s: seq<Byte> | |s| == 24 witness seq(24, i => 0)

  /** The bits of the last byte that hold the category. */
  function Category(c: Core): nat {
    c[MAX_SMALL] / 64 * 64
  }

  predicate IsSmall(c: Core) {
    Category(c) == 0
  }

  function Data(c: Core): nat {
    Word(c[0..8])
  }

  function SizeWord(c: Core): nat {
    Word(c[8..16])
  }

  /** The capacity without the category bits. */
  function Capacity(c: Core): nat {
    Word(c[16..24]) % CAPACITY_LIMIT
  }

  /** The size as the source reads it: small exactly when the last byte is at most 23. */
  function Size(c: Core): nat {
    if c[MAX_SMALL] <= MAX_SMALL then MAX_SMALL - c[MAX_SMALL] else SizeWord(c)
  }

  /** The union written as pointer, size and tagged capacity. */
  function Pack(data: nat, size: nat, capacity: nat, category: nat): Core {
    Bytes(data, 8) + Bytes(size, 8) + Bytes(capacity + category * TOP_BYTE, 8)
  }

  /** The tag never disturbs the words it shares the union with, and is never lost in them. */
  lemma PackFields(data: nat, size: nat, capacity: nat, category: nat)
    requires data < WORD && size < WORD && capacity < CAPACITY_LIMIT && (category == MEDIUM || category == LARGE)
    ensures var c := Pack(data, size, capacity, category);
            && Category(c) == category && Data(c) == data && SizeWord(c) == size && Size(c) == size
            && Capacity(c) == capacity
  {
    var c, w := Pack(data, size, capacity, category), capacity + category * TOP_BYTE;
    assert c[0..8] == Bytes(data, 8) && c[8..16] == Bytes(size, 8) && c[16..24] == Bytes(w, 8);
    hide Bytes, Word, Pow;
    WordSize();
    WordBytes(data, 8);
    WordBytes(size, 8);
    WordBytes(w, 8);
    LastByte(w, 8);
    assert c[23] == c[16..24][7];
    TopByte(capacity, category, w);
  }

  lemma TopByte(capacity: nat, category: nat, w: nat)
    requires capacity < CAPACITY_LIMIT && (category == MEDIUM || category == LARGE)
    requires w == capacity + category * TOP_BYTE
    ensures w / TOP_BYTE % 256 / 64 * 64 == category && w % CAPACITY_LIMIT == capacity && w < WORD
  {
    assert w / TOP_BYTE == capacity / TOP_BYTE + category;
  }

  /** Writing the size word alone. */
  function SetSize(c: Core, size: nat): Core {
    c[0..8] + Bytes(size, 8) + c[16..24]
  }

  lemma SetSizeFields(c: Core, size: nat)
    requires size < WORD && !IsSmall(c)
    ensures var d := SetSize(c, size);
            Category(d) == Category(c) && Data(d) == Data(c) && Size(d) == size && Capacity(d) == Capacity(c)
  {
    var d := SetSize(c, size);
    assert d[0..8] == c[0..8] && d[8..16] == Bytes(size, 8) && d[16..24] == c[16..24];
    assert d[23] == c[23];
    hide Bytes, Word, Pow;
    WordSize();
    WordBytes(size, 8);
  }

  lemma {:induction false} BytesWord(s: seq<Byte>)
    ensures Bytes(Word(s), |s|) == s
  {
    if s != [] {
      BytesWord(s[1..]);
    }
  }

  /** Writing back the size that is there changes nothing. */
  lemma SameSize(c: Core)
    requires !IsSmall(c)
    ensures SetSize(c, Size(c)) == c
  {
    hide Bytes, Word;
    BytesWord(c[8..16]);
    assert c == c[0..8] + c[8..16] + c[16..24];
  }

  /** The last byte of a small string counts the room left; it doubles as the terminator of a full one. */
  function SetSmallSize(c: Core, s: nat): Core
    requires s <= MAX_SMALL
  {
    c[MAX_SMALL := MAX_SMALL - s][s := 0]
  }

  lemma SmallFields(c: Core, s: nat)
    requires s <= MAX_SMALL
    ensures var d := SetSmallSize(c, s);
            IsSmall(d) && Size(d) == s && d[s] == 0 && d[..s] == c[..s]
  {}
}
