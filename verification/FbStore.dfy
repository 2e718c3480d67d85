/** The operations of fbstring_core and basic_fbstring on any number of strings in one memory. */
module FbStore {
  import opened FbLayout
  import opened FbState

  /** Where characters live: inside a string object or in a block. */
  datatype Region = Inline(id: nat) | Heap(p: nat)

  /** Where the characters of an append or an assignment come from: elsewhere, or a stretch of a live string. */
  datatype Source = Text(s: seq<Byte>) | Of(id: nat, pos: nat, n: nat)

  function Length(src: Source): nat {
    match src
    case Text(s) => |s|
    case Of(_, _, n) => n
  }

  /** The characters meant, as the strings stand. */
  function Given(strings: map<nat, seq<Byte>>, src: Source): (s: seq<Byte>)
    requires src.Of? ==> src.id in strings && src.pos + src.n <= |strings[src.id]|
    ensures |s| == Length(src)
    ensures src.Of? ==> forall i :: 0 <= i < |s| ==> s[i] == strings[src.id][src.pos + i]
  {
    match src
    case Text(s) => s
    case Of(id, pos, n) => strings[id][pos..pos + n]
  }

  /**
   * How an operation ended: memory can run out, and an assignment can then have emptied its string.
   * One that may not be called at all is left out of a run.
   */
  datatype Outcome = Done | Failed | Truncated | Illegal

  function Max(a: nat, b: nat): nat {
    if a < b then b else a
  }

  /** s written over chars from place at on. */
  function Overwritten(chars: seq<Byte>, at: nat, s: seq<Byte>): (r: seq<Byte>)
    requires at + |s| <= |chars|
    ensures |r| == |chars|
    ensures forall i :: 0 <= i < |r| ==> r[i] == if at <= i < at + |s| then s[i - at] else chars[i]
  {
    chars[..at] + s + chars[at + |s|..]
  }

  /** Memory whose content nobody may rely on. */
  method Junk(n: nat) returns (s: seq<Byte>)
    ensures |s| == n
  {
    s := seq(n, i => 0);
  }

  function PlaceOf(c: Core, id: nat): Region {
    if IsSmall(c) then Inline(id) else Heap(Data(c))
  }

  /** A source that does not lie in this string, and where it lies. */
  ghost predicate Elsewhere(cores: map<nat, Core>, strings: map<nat, seq<Byte>>, id: nat, src: Source, place: Region): (r: bool)
    ensures r && src.Of? ==> src.id in strings && src.pos + src.n <= |strings[src.id]|
  {
    src.Of? ==>
      && src.id != id && src.id in cores && place == PlaceOf(cores[src.id], src.id)
      && src.id in strings && src.pos + src.n <= |strings[src.id]|
  }

  /** It stays there with its characters while only this string changes. */
  lemma StaysElsewhere(cores: map<nat, Core>, strings: map<nat, seq<Byte>>, cores': map<nat, Core>,
                       strings': map<nat, seq<Byte>>, id: nat, src: Source, place: Region)
    requires Elsewhere(cores, strings, id, src, place) && OnlyChanged(cores, cores', id)
    requires id in strings' && strings' == strings[id := strings'[id]]
    ensures Elsewhere(cores', strings', id, src, place) && Given(strings', src) == Given(strings, src)
  {
    hide PlaceOf;
  }

  /** No object but this one was written. */
  ghost predicate OnlyChanged(before: map<nat, Core>, after: map<nat, Core>, id: nat): (r: bool)
    ensures r ==> id in after
  {
    id in after && after == before[id := after[id]]
  }

  /** The same number of characters, and not back inside the object. */
  predicate SameSized(before: Core, after: Core) {
    Size(after) == Size(before) && (IsSmall(after) ==> IsSmall(before))
  }

  lemma ChangedTwice(a: map<nat, Core>, b: map<nat, Core>, c: map<nat, Core>, id: nat)
    requires OnlyChanged(a, b, id) && OnlyChanged(b, c, id)
    ensures OnlyChanged(a, c, id)
  {
    assert a[id := b[id]][id := c[id]] == a[id := c[id]];
  }

  lemma NotChanged(a: map<nat, Core>, id: nat)
    requires id in a
    ensures OnlyChanged(a, a, id)
  {
    assert a[id := a[id]] == a;
  }

  /** The characters of one string stay; delta more follow, whatever they may be. */
  ghost predicate Extended(before: map<nat, seq<Byte>>, after: map<nat, seq<Byte>>, id: nat, delta: nat) {
    && id in before && id in after && after == before[id := after[id]]
    && |after[id]| == |before[id]| + delta && before[id] <= after[id]
  }

  lemma NotExtended(a: map<nat, seq<Byte>>, id: nat)
    requires id in a
    ensures Extended(a, a, id, 0)
  {
    assert a[id := a[id]] == a;
  }

  lemma LongerPrefix(m: map<nat, seq<Byte>>, id: nat, t: seq<Byte>, k: nat, n: nat)
    requires id in m && k <= n <= |t| && m[id] == t[..k]
    ensures Extended(m, m[id := t[..n]], id, n - k)
  {}

  /** A copy with its terminator at the front of fresh memory. */
  lemma Copied(junk: seq<Byte>, s: seq<Byte>)
    requires 0 < |s| <= |junk|
    ensures Overwritten(junk, 0, s)[..|s| - 1] == s[..|s| - 1] && Overwritten(junk, 0, s)[|s| - 1] == s[|s| - 1]
  {}

  lemma OverwrittenPart(chars: seq<Byte>, at: nat, s: seq<Byte>, size: nat)
    requires at + |s| <= size < |chars|
    ensures Overwritten(chars, at, s)[size] == chars[size]
    ensures Overwritten(chars, at, s)[..size] == Overwritten(chars[..size], at, s)
  {}

  lemma OverwriteOk(cores: map<nat, Core>, blocks: map<nat, Block>, id: nat, at: nat, s: seq<Byte>)
    requires FbState.Valid(cores, blocks) && id in cores && !IsSmall(cores[id]) && CoreOk(cores[id], blocks)
    requires Exclusive(cores[id], blocks) && at + |s| <= Size(cores[id])
    ensures var p, text := Data(cores[id]), View(cores[id], blocks);
            var after := blocks[p := blocks[p].(chars := Overwritten(blocks[p].chars, at, s))];
            && FbState.Valid(cores, after) && CoreOk(cores[id], after) && Exclusive(cores[id], after)
            && Contents(cores, after) == Contents(cores, blocks)[id := Overwritten(text, at, s)]
  {
    hide FbState.Valid, Contents, Overwritten, Data, Size, Capacity, Category, IsSmall;
    var c := cores[id];
    var b := blocks[Data(c)];
    OverwrittenPart(b.chars, at, s, Size(c));
    Rewrite(cores, blocks, id, c, b.(chars := Overwritten(b.chars, at, s)));
    assert cores[id := c] == cores;
  }

  lemma SizeOk(cores: map<nat, Core>, blocks: map<nat, Block>, id: nat, size: nat)
    requires FbState.Valid(cores, blocks) && id in cores && !IsSmall(cores[id]) && CoreOk(cores[id], blocks)
    requires Exclusive(cores[id], blocks) && size <= Capacity(cores[id]) < WORD
    ensures var c, p := SetSize(cores[id], size), Data(cores[id]);
            var after := blocks[p := blocks[p].(chars := blocks[p].chars[size := 0])];
            && FbState.Valid(cores[id := c], after) && CoreOk(c, after) && Exclusive(c, after)
            && Contents(cores[id := c], after) == Contents(cores, blocks)[id := blocks[p].chars[..size]]
  {
    SetSizeFields(cores[id], size);
    hide FbState.Valid, Contents, Data, Size, Capacity, Category, SetSize;
    var c, b := SetSize(cores[id], size), blocks[Data(cores[id])];
    Rewrite(cores, blocks, id, c, b.(chars := b.chars[size := 0]));
    assert b.chars[size := 0][..size] == b.chars[..size];
  }

  lemma TakeTwice(s: seq<Byte>, k: nat, j: nat)
    requires j <= k <= |s|
    ensures s[..k][..j] == s[..j]
  {}

  lemma PrefixSlice(s: seq<Byte>, t: seq<Byte>, a: nat, b: nat)
    requires s <= t && a <= b <= |s|
    ensures t[a..b] == s[a..b]
  {}

  lemma SameEntry(m: map<nat, seq<Byte>>, id: nat)
    requires id in m
    ensures m[id := m[id]] == m
  {}

  /** One refused allocation for every operation that does not come off. */
  function Missed(ok: bool): nat {
    if ok then 0 else 1
  }

  class Store {
    var cores: map<nat, Core>
    var blocks: map<nat, Block>
    /** goodMallocSize: whatever the allocator rounds a request up to. */
    const good: nat -> nat
    /** How many allocations have been refused. */
    ghost var denials: nat

    ghost predicate Valid()
      reads this`cores, this`blocks
    {
      (forall n {:trigger good(n)} :: good(n) >= n) && FbState.Valid(cores, blocks)
    }

    /** What each live string holds. */
    ghost function Strings(): map<nat, seq<Byte>>
      reads this`cores, this`blocks
      requires Valid()
    {
      Contents(cores, blocks)
    }

    constructor (good: nat -> nat)
      requires forall n {:trigger good(n)} :: good(n) >= n
      ensures Valid() && Strings() == map[]
    {
      this.good, cores, blocks, denials := good, map[], map[], 0;
    }

    /** A block of n bytes somewhere outside all live blocks, or no block at all. */
    method Malloc(n: nat) returns (ok: bool, q: nat, junk: seq<Byte>)
      modifies this`denials
      ensures denials == old(denials) + Missed(ok)
      ensures ok ==> q !in blocks && q < WORD && |junk| == n <= CAPACITY_LIMIT
    {
      q := *;
      junk := Junk(n);
      ok := q !in blocks && q < WORD && n <= CAPACITY_LIMIT;
      denials := denials + Missed(ok);
    }

    /** The object takes up a new block in place of what it held. */
    method Install(id: nat, q: nat, size: nat, b: Block)
      requires Valid() && q !in blocks && q < WORD && size < |b.chars| <= CAPACITY_LIMIT && b.chars[size] == 0
      requires b.Plain? || b.refs == 1
      modifies this`cores, this`blocks
      ensures Valid() && Strings() == old(Strings())[id := b.chars[..size]]
      ensures OnlyChanged(old(cores), cores, id) && q in blocks && blocks[q] == b
      ensures !IsSmall(cores[id]) && Data(cores[id]) == q && Size(cores[id]) == size
      ensures Capacity(cores[id]) == |b.chars| - 1 && CoreOk(cores[id], blocks)
      ensures Category(cores[id]) == if b.Plain? then MEDIUM else LARGE
    {
      var c := Pack(q, size, |b.chars| - 1, if b.Plain? then MEDIUM else LARGE);
      PackFields(q, size, |b.chars| - 1, if b.Plain? then MEDIUM else LARGE);
      InstallOk(cores, blocks, id, c, q, b);
      hide Pack, Size, Data, Capacity, Category, BlockOk, Handles, View;
      blocks := Vacated(cores, blocks, id)[q := b];
      cores := cores[id := c];
    }

    method InitSmall(id: nat, s: seq<Byte>)
      requires Valid() && |s| <= MAX_SMALL
      modifies this`cores, this`blocks
      ensures Valid() && Strings() == old(Strings())[id := s] && OnlyChanged(old(cores), cores, id)
      ensures IsSmall(cores[id])
    {
      var junk := Junk(24 - |s|);
      var c := SetSmallSize(s + junk, |s|);
      SmallFields(s + junk, |s|);
      assert (s + junk)[..|s|] == s;
      InstallSmallOk(cores, blocks, id, c);
      hide SetSmallSize, Size, Data, Capacity, Category, BlockOk, Handles;
      blocks := Vacated(cores, blocks, id);
      cores := cores[id := c];
    }

    method InitMedium(id: nat, s: seq<Byte>) returns (ok: bool)
      requires Valid()
      modifies this`cores, this`blocks, this`denials
      ensures Valid() && Strings() == if ok then old(Strings())[id := s] else old(Strings())
      ensures if ok then OnlyChanged(old(cores), cores, id) else cores == old(cores) && blocks == old(blocks)
      ensures ok ==> Category(cores[id]) == 0x80
      ensures denials == old(denials) + Missed(ok)
    {
      var q, junk;
      ok, q, junk := Malloc(good(1 + |s|));
      if ok {
        var chars := Overwritten(junk, 0, s + [0]);
        Install(id, q, |s|, Plain(chars));
        assert chars[..|s|] == s;
      }
    }

    method InitLarge(id: nat, s: seq<Byte>) returns (ok: bool)
      requires Valid()
      modifies this`cores, this`blocks, this`denials
      ensures Valid() && Strings() == if ok then old(Strings())[id := s] else old(Strings())
      ensures if ok then OnlyChanged(old(cores), cores, id) else cores == old(cores) && blocks == old(blocks)
      ensures ok ==> Category(cores[id]) == 0x40
      ensures denials == old(denials) + Missed(ok)
    {
      var q, chars;
      ok, q, chars := Create(|s|);
      if ok {
        chars := Overwritten(chars, 0, s + [0]);
        Install(id, q, |s|, Counted(1, chars));
        assert chars[..|s|] == s;
      }
    }

    /** RefCounted::create: eight bytes of the block hold the count. */
    method Create(size: nat) returns (ok: bool, q: nat, chars: seq<Byte>)
      requires Valid()
      modifies this`denials
      ensures denials == old(denials) + Missed(ok)
      ensures ok ==> q !in blocks && q < WORD && size < |chars| <= CAPACITY_LIMIT
    {
      var allocSize, junk := good(8 + (size + 1)), [];
      ok, q, junk := Malloc(allocSize);
      chars := if ok then junk[8..] else [];
    }

    /** A string from characters; an object that already had the name gives up what it held. */
    method Construct(id: nat, s: seq<Byte>) returns (ok: bool)
      requires Valid()
      modifies this`cores, this`blocks, this`denials
      ensures Valid() && Strings() == if ok then old(Strings())[id := s] else old(Strings())
      ensures if ok then OnlyChanged(old(cores), cores, id) else cores == old(cores) && blocks == old(blocks)
      ensures |s| <= 23 ==> ok && IsSmall(cores[id])
      ensures 23 < |s| && ok ==> Category(cores[id]) == if |s| <= 254 then 0x80 else 0x40
      ensures denials == old(denials) + Missed(ok)
    {
      if |s| <= MAX_SMALL {
        InitSmall(id, s);
        ok := true;
      } else if |s| <= MAX_MEDIUM {
        ok := InitMedium(id, s);
      } else {
        ok := InitLarge(id, s);
      }
    }

    /** Characters of a string as the object reaches them. */
    function RegionOf(id: nat): Region
      reads this`cores
      requires id in cores
    {
      PlaceOf(cores[id], id)
    }

    predicate Live(r: Region)
      reads this`cores, this`blocks
    {
      match r
      case Inline(id) => id in cores
      case Heap(p) => p in blocks
    }

    function Memory(r: Region): seq<Byte>
      reads this`cores, this`blocks
      requires Live(r)
    {
      match r
      case Inline(id) => cores[id]
      case Heap(p) => blocks[p].chars
    }

    /** What the methods below need of one live string. */
    lemma Known(id: nat)
      requires Valid() && id in cores
      ensures CoreOk(cores[id], blocks) && Live(RegionOf(id)) && Size(cores[id]) < |Memory(RegionOf(id))|
      ensures id in Strings() && Strings()[id] == Memory(RegionOf(id))[..Size(cores[id])]
      ensures Memory(RegionOf(id))[Size(cores[id])] == 0
      ensures Capacity(cores[id]) < CAPACITY_LIMIT
      ensures IsSmall(cores[id]) ==> Size(cores[id]) <= MAX_SMALL
      ensures !IsSmall(cores[id]) ==> Size(cores[id]) <= Capacity(cores[id])
                                      && |Memory(RegionOf(id))| == Capacity(cores[id]) + 1
    {
      hide BlockOk, Handles, Data, Category;
    }

    /** The string moved, terminator included, to the front of fresh memory. */
    method MoveText(id: nat, q: nat, junk: seq<Byte>, counted: bool, ghost min: nat)
      requires Valid() && id in cores && Size(cores[id]) <= min < |junk| <= CAPACITY_LIMIT && q !in blocks && q < WORD
      modifies this`cores, this`blocks
      ensures Valid() && Strings() == old(Strings())
      ensures OnlyChanged(old(cores), cores, id) && Roomy(id, min) && SameSized(old(cores[id]), cores[id])
    {
      Known(id);
      hide FbState.Valid, Contents, CoreOk, OnlyChanged, Overwritten;
      var size := Size(cores[id]);
      var text := Memory(RegionOf(id))[..size + 1];
      Copied(junk, text);
      var chars := Overwritten(junk, 0, text);
      assert text[..size] == Strings()[id];
      SameEntry(Strings(), id);
      Install(id, q, size, if counted then Counted(1, chars) else Plain(chars));
    }

    /** A plain block with room for min characters. */
    method ToPlain(id: nat, min: nat) returns (ok: bool)
      requires Valid() && id in cores && Size(cores[id]) <= min
      modifies this`cores, this`blocks, this`denials
      ensures Valid() && Strings() == old(Strings())
      ensures if ok then OnlyChanged(old(cores), cores, id) && Roomy(id, min) && SameSized(old(cores[id]), cores[id])
              else cores == old(cores) && blocks == old(blocks)
      ensures denials == old(denials) + Missed(ok)
    {
      var q, junk;
      ok, q, junk := Malloc(good(1 + min));
      if ok {
        MoveText(id, q, junk, false, min);
      }
    }

    /** A counted block with room for min characters. */
    method ToCounted(id: nat, min: nat) returns (ok: bool)
      requires Valid() && id in cores && Size(cores[id]) <= min
      modifies this`cores, this`blocks, this`denials
      ensures Valid() && Strings() == old(Strings())
      ensures if ok then OnlyChanged(old(cores), cores, id) && Roomy(id, min) && SameSized(old(cores[id]), cores[id])
              else cores == old(cores) && blocks == old(blocks)
      ensures denials == old(denials) + Missed(ok)
    {
      var q, junk;
      ok, q, junk := Create(min);
      if ok {
        MoveText(id, q, junk, true, min);
      }
    }

    /** The string has its storage to itself and room for min characters. */
    ghost predicate Roomy(id: nat, min: nat)
      reads this`cores, this`blocks
    {
      && id in cores && CoreOk(cores[id], blocks) && Exclusive(cores[id], blocks)
      && min <= if IsSmall(cores[id]) then MAX_SMALL else Capacity(cores[id])
    }

    predicate Shared(id: nat)
      reads this`cores, this`blocks
      requires id in cores && CoreOk(cores[id], blocks)
    {
      !IsSmall(cores[id]) && blocks[Data(cores[id])].Counted? && blocks[Data(cores[id])].refs > 1
    }

    /** A large string moved to a block of its own at its present capacity or more. */
    method Unshare(id: nat, min: nat) returns (ok: bool)
      requires Valid() && id in cores && !IsSmall(cores[id])
      modifies this`cores, this`blocks, this`denials
      ensures Valid() && Strings() == old(Strings())
      ensures if ok then OnlyChanged(old(cores), cores, id) && Roomy(id, min) && SameSized(old(cores[id]), cores[id])
              else cores == old(cores) && blocks == old(blocks)
      ensures denials == old(denials) + Missed(ok)
    {
      Known(id);
      ok := ToCounted(id, Max(min, Capacity(cores[id])));
    }

    method ReserveSmall(id: nat, min: nat) returns (ok: bool)
      requires Valid() && id in cores && IsSmall(cores[id])
      modifies this`cores, this`blocks, this`denials
      ensures Valid() && Strings() == old(Strings())
      ensures if ok then OnlyChanged(old(cores), cores, id) && Roomy(id, min) && SameSized(old(cores[id]), cores[id])
              else cores == old(cores) && blocks == old(blocks)
      ensures denials == old(denials) + Missed(ok)
    {
      Known(id);
      if min <= MAX_SMALL {
        ok := true;
      } else if min <= MAX_MEDIUM {
        ok := ToPlain(id, min);
      } else {
        ok := ToCounted(id, min);
      }
    }

    method ReserveMedium(id: nat, min: nat) returns (ok: bool)
      requires Valid() && id in cores && Category(cores[id]) == MEDIUM
      modifies this`cores, this`blocks, this`denials
      ensures Valid() && Strings() == old(Strings())
      ensures if ok then OnlyChanged(old(cores), cores, id) && Roomy(id, min) && SameSized(old(cores[id]), cores[id])
              else cores == old(cores) && blocks == old(blocks)
      ensures denials == old(denials) + Missed(ok)
    {
      Known(id);
      LargeBlock(cores[id], blocks);
      if min <= Capacity(cores[id]) {
        ok := true;
      } else if min <= MAX_MEDIUM {
        ok := ToPlain(id, min);
      } else {
        ok := ToCounted(id, min);
      }
    }

    method ReserveLarge(id: nat, min: nat) returns (ok: bool)
      requires Valid() && id in cores && Category(cores[id]) == LARGE
      modifies this`cores, this`blocks, this`denials
      ensures Valid() && Strings() == old(Strings())
      ensures if ok then OnlyChanged(old(cores), cores, id) && Roomy(id, min) && SameSized(old(cores[id]), cores[id])
              else cores == old(cores) && blocks == old(blocks)
      ensures denials == old(denials) + Missed(ok)
    {
      Known(id);
      LargeBlock(cores[id], blocks);
      if Shared(id) {
        ok := Unshare(id, min);
      } else if min > Capacity(cores[id]) {
        ok := ToCounted(id, min);
      } else {
        NotOverCounted(id);
        ok := true;
      }
    }

    /** A count is never zero while the string is alive. */
    lemma NotOverCounted(id: nat)
      requires Valid() && id in cores && CoreOk(cores[id], blocks) && !Shared(id)
      ensures Exclusive(cores[id], blocks)
    {
      hide Handles, Data, Category, Size, Capacity, IsSmall;
      if !IsSmall(cores[id]) {
        assert BlockOk(Data(cores[id]), blocks[Data(cores[id])], cores);
      }
    }

    method Reserve(id: nat, min: nat) returns (ok: bool)
      requires Valid() && id in cores
      modifies this`cores, this`blocks, this`denials
      ensures Valid() && Strings() == old(Strings())
      ensures if ok then OnlyChanged(old(cores), cores, id) && Roomy(id, min) && SameSized(old(cores[id]), cores[id])
              else cores == old(cores) && blocks == old(blocks)
      ensures denials == old(denials) + Missed(ok)
    {
      Known(id);
      if IsSmall(cores[id]) {
        ok := ReserveSmall(id, min);
      } else {
        LargeBlock(cores[id], blocks);
        if Category(cores[id]) == MEDIUM {
          ok := ReserveMedium(id, min);
        } else {
          ok := ReserveLarge(id, min);
        }
      }
    }

    /** Writing size and terminator of a string with room for them. */
    method SetHeapSize(id: nat, size: nat)
      requires Valid() && id in cores && !IsSmall(cores[id]) && Roomy(id, size)
      modifies this`cores, this`blocks
      ensures Valid() && OnlyChanged(old(cores), cores, id) && Roomy(id, size) && !IsSmall(cores[id])
      ensures Size(cores[id]) == size && RegionOf(id) == old(RegionOf(id))
      ensures size <= |old(Memory(RegionOf(id)))|
      ensures Strings() == old(Strings())[id := old(Memory(RegionOf(id)))[..size]]
    {
      Known(id);
      var c, p := cores[id], Data(cores[id]);
      var b := blocks[p];
      SetSizeFields(c, size);
      SizeOk(cores, blocks, id, size);
      hide FbState.Valid, Contents, SetSize, Size, Data, Capacity, Category;
      blocks := blocks[p := b.(chars := b.chars[size := 0])];
      cores := cores[id := SetSize(c, size)];
    }

    method SetSmall(id: nat, size: nat)
      requires Valid() && id in cores && IsSmall(cores[id]) && size <= MAX_SMALL
      modifies this`cores
      ensures Valid() && OnlyChanged(old(cores), cores, id) && Roomy(id, size) && IsSmall(cores[id])
      ensures Size(cores[id]) == size
      ensures Strings() == old(Strings())[id := old(cores[id])[..size]]
    {
      Known(id);
      var c := cores[id];
      SmallFields(c, size);
      InstallSmallOk(cores, blocks, id, SetSmallSize(c, size));
      hide SetSmallSize;
      cores := cores[id := SetSmallSize(c, size)];
    }

    /** The capacity as capacity() reports it: a shared block has none to spare. */
    function Available(id: nat): nat
      reads this`cores, this`blocks
      requires id in cores && CoreOk(cores[id], blocks)
    {
      if IsSmall(cores[id]) then MAX_SMALL
      else if Shared(id) then Size(cores[id])
      else Capacity(cores[id])
    }

    method ExpandNoinit(id: nat, delta: nat, expGrowth: bool) returns (ok: bool)
      requires Valid() && id in cores && CoreOk(cores[id], blocks)
      modifies this`cores, this`blocks, this`denials
      ensures Valid()
      ensures if ok then OnlyChanged(old(cores), cores, id) && Extended(old(Strings()), Strings(), id, delta)
              else cores == old(cores) && blocks == old(blocks)
      ensures ok ==> CoreOk(cores[id], blocks) && (delta > 0 ==> Exclusive(cores[id], blocks))
      ensures denials == old(denials) + Missed(ok)
    {
      hide FbState.Valid, Contents, Handles, Data, Category, Capacity, IsSmall, OnlyChanged, Size;
      if IsSmall(cores[id]) {
        ok := ExpandSmall(id, delta, expGrowth);
      } else {
        ok := ExpandHeap(id, delta, expGrowth);
      }
    }

    method ExpandSmall(id: nat, delta: nat, expGrowth: bool) returns (ok: bool)
      requires Valid() && id in cores && IsSmall(cores[id])
      modifies this`cores, this`blocks, this`denials
      ensures Valid()
      ensures if ok then OnlyChanged(old(cores), cores, id) && Extended(old(Strings()), Strings(), id, delta)
              else cores == old(cores) && blocks == old(blocks)
      ensures ok ==> CoreOk(cores[id], blocks) && Exclusive(cores[id], blocks)
      ensures denials == old(denials) + Missed(ok)
    {
      hide FbState.Valid, Contents, CoreOk, OnlyChanged, Extended, Size, IsSmall, Data;
      Known(id);
      var newSz := Size(cores[id]) + delta;
      if newSz <= MAX_SMALL {
        LongerPrefix(Strings(), id, Memory(RegionOf(id)), Size(cores[id]), newSz);
        SetSmall(id, newSz);
        ok := true;
      } else {
        ok := ReserveSmall(id, if expGrowth then Max(newSz, 2 * MAX_SMALL) else newSz);
        if ok {
          ghost var between := cores;
          GrowInPlace(id, newSz);
          ChangedTwice(old(cores), between, cores, id);
        }
      }
    }

    method ExpandHeap(id: nat, delta: nat, expGrowth: bool) returns (ok: bool)
      requires Valid() && id in cores && !IsSmall(cores[id]) && CoreOk(cores[id], blocks)
      modifies this`cores, this`blocks, this`denials
      ensures Valid()
      ensures if ok then OnlyChanged(old(cores), cores, id) && Extended(old(Strings()), Strings(), id, delta)
              else cores == old(cores) && blocks == old(blocks)
      ensures ok ==> CoreOk(cores[id], blocks) && (delta > 0 ==> Exclusive(cores[id], blocks))
      ensures denials == old(denials) + Missed(ok)
    {
      Known(id);
      hide FbState.Valid, Contents, CoreOk, OnlyChanged, Extended, Size, IsSmall, Data;
      var newSz := Size(cores[id]) + delta;
      if newSz > Available(id) {
        ok := GrowTo(id, newSz, if expGrowth then Max(newSz, 1 + Available(id) * 3 / 2) else newSz);
      } else if Shared(id) {
        WriteSizeAgain(id);
        NotExtended(Strings(), id);
        NotChanged(cores, id);
        ok := true;
      } else {
        NotOverCounted(id);
        GrowInPlace(id, newSz);
        ok := true;
      }
    }

    /** Nothing added to a shared string: size and terminator are written over themselves. */
    method WriteSizeAgain(id: nat)
      requires Valid() && id in cores && !IsSmall(cores[id])
      modifies this`cores, this`blocks
      ensures cores == old(cores) && blocks == old(blocks)
    {
      Known(id);
      var c, p := cores[id], Data(cores[id]);
      SameSize(c);
      hide SetSize, Size, Data, FbState.Valid;
      cores := cores[id := SetSize(c, Size(c))];
      var b := blocks[p];
      assert b.chars[Size(c) := 0] == b.chars;
      blocks := blocks[p := b.(chars := b.chars[Size(c) := 0])];
    }

    method GrowTo(id: nat, newSz: nat, min: nat) returns (ok: bool)
      requires Valid() && id in cores && !IsSmall(cores[id]) && Size(cores[id]) <= newSz <= min
      modifies this`cores, this`blocks, this`denials
      ensures Valid()
      ensures if ok then OnlyChanged(old(cores), cores, id)
                         && Extended(old(Strings()), Strings(), id, newSz - old(Size(cores[id])))
              else cores == old(cores) && blocks == old(blocks)
      ensures ok ==> Roomy(id, newSz)
      ensures denials == old(denials) + Missed(ok)
    {
      hide FbState.Valid, Contents, CoreOk, OnlyChanged, Extended, Size, IsSmall, Data;
      ok := Reserve(id, min);
      if ok {
        ghost var between := cores;
        GrowInPlace(id, newSz);
        ChangedTwice(old(cores), between, cores, id);
      }
    }

    method GrowInPlace(id: nat, newSz: nat)
      requires Valid() && id in cores && !IsSmall(cores[id]) && Roomy(id, newSz) && Size(cores[id]) <= newSz
      modifies this`cores, this`blocks
      ensures Valid() && OnlyChanged(old(cores), cores, id) && Roomy(id, newSz)
      ensures Extended(old(Strings()), Strings(), id, newSz - old(Size(cores[id])))
    {
      Known(id);
      SetHeapSize(id, newSz);
    }

    method Destroy(id: nat)
      requires Valid() && id in cores
      modifies this`cores, this`blocks
      ensures Valid() && Strings() == old(Strings()) - {id} && cores == old(cores) - {id}
    {
      Known(id);
      ReleaseOk(cores, blocks, id);
      hide BlockOk, Released;
      blocks := Released(blocks, cores[id]);
      cores := cores - {id};
    }

    /** Writing over characters of a string that has its storage to itself. */
    method Overwrite(id: nat, at: nat, s: seq<Byte>)
      requires Valid() && id in cores && CoreOk(cores[id], blocks) && Exclusive(cores[id], blocks)
      requires at + |s| <= Size(cores[id])
      modifies this`cores, this`blocks
      ensures Valid() && id in old(Strings()) && at + |s| <= |old(Strings())[id]|
      ensures Strings() == old(Strings())[id := Overwritten(old(Strings())[id], at, s)]
      ensures OnlyChanged(old(cores), cores, id) && CoreOk(cores[id], blocks) && Exclusive(cores[id], blocks)
    {
      Known(id);
      if IsSmall(cores[id]) {
        OverwriteSmall(id, at, s);
      } else {
        OverwriteHeap(id, at, s);
      }
    }

    method OverwriteSmall(id: nat, at: nat, s: seq<Byte>)
      requires Valid() && id in cores && IsSmall(cores[id]) && CoreOk(cores[id], blocks) && at + |s| <= Size(cores[id])
      modifies this`cores
      ensures Valid() && id in old(Strings()) && at + |s| <= |old(Strings())[id]|
      ensures Strings() == old(Strings())[id := Overwritten(old(Strings())[id], at, s)]
      ensures OnlyChanged(old(cores), cores, id) && IsSmall(cores[id]) && CoreOk(cores[id], blocks)
    {
      Known(id);
      var c := cores[id];
      var d: Core := Overwritten(c, at, s);
      assert d[MAX_SMALL] == c[MAX_SMALL] && d[Size(c)] == c[Size(c)];
      assert d[..Size(c)] == Overwritten(c[..Size(c)], at, s);
      InstallSmallOk(cores, blocks, id, d);
      hide Overwritten, BlockOk;
      cores := cores[id := d];
    }

    method OverwriteHeap(id: nat, at: nat, s: seq<Byte>)
      requires Valid() && id in cores && !IsSmall(cores[id]) && CoreOk(cores[id], blocks)
      requires Exclusive(cores[id], blocks) && at + |s| <= Size(cores[id])
      modifies this`blocks
      ensures Valid() && id in old(Strings()) && at + |s| <= |old(Strings())[id]|
      ensures Strings() == old(Strings())[id := Overwritten(old(Strings())[id], at, s)]
      ensures OnlyChanged(old(cores), cores, id) && CoreOk(cores[id], blocks) && Exclusive(cores[id], blocks)
    {
      hide FbState.Valid, Contents, Overwritten, OnlyChanged, Data, Size, Capacity, Category, IsSmall;
      Known(id);
      var p := Data(cores[id]);
      var b := blocks[p];
      OverwriteOk(cores, blocks, id, at, s);
      NotChanged(cores, id);
      blocks := blocks[p := b.(chars := Overwritten(b.chars, at, s))];
    }

    /** mutableData: the string has its storage to itself, and its old characters can still be read. */
    method MutableData(id: nat) returns (ok: bool)
      requires Valid() && id in cores
      modifies this`cores, this`blocks, this`denials
      ensures Valid() && Strings() == old(Strings())
      ensures if ok then OnlyChanged(old(cores), cores, id) && Roomy(id, 0) && SameSized(old(cores[id]), cores[id])
              else cores == old(cores) && blocks == old(blocks)
      ensures ok ==> id in old(Strings()) && Live(old(RegionOf(id)))
      ensures ok ==> old(Strings())[id] <= Memory(old(RegionOf(id)))
      ensures denials == old(denials) + Missed(ok)
    {
      Known(id);
      if Shared(id) {
        var other := OtherHolder(id);
        Known(other);
        assert RegionOf(other) == RegionOf(id);
        hide Contents, FbState.Valid, CoreOk;
        ok := Unshare(id, 0);
        if ok {
          Untouched(old(cores), cores, id, other);
          Known(other);
        }
      } else {
        NotOverCounted(id);
        NotChanged(cores, id);
        ok := true;
      }
    }

    /** The last delta characters dropped; only a shared large string needs memory for that. */
    method Shrink(id: nat, delta: nat) returns (ok: bool)
      requires Valid() && id in cores && CoreOk(cores[id], blocks) && delta <= Size(cores[id])
      modifies this`cores, this`blocks, this`denials
      ensures Valid() && id in old(Strings()) && delta <= |old(Strings())[id]|
      ensures ok ==> Strings() == old(Strings())[id := old(Strings())[id][..|old(Strings())[id]| - delta]]
      ensures if ok then OnlyChanged(old(cores), cores, id) else cores == old(cores) && blocks == old(blocks)
      ensures old(Exclusive(cores[id], blocks)) || delta == old(Size(cores[id])) ==> ok
      ensures denials == old(denials) + Missed(ok)
    {
      hide FbState.Valid, Contents, CoreOk, OnlyChanged, Size, Data;
      Known(id);
      var size := Size(cores[id]) - delta;
      TakeTwice(Memory(RegionOf(id)), Size(cores[id]), size);
      if IsSmall(cores[id]) {
        SetSmall(id, size);
        ok := true;
      } else if !Shared(id) {
        NotOverCounted(id);
        SetHeapSize(id, size);
        ok := true;
      } else {
        ok := ShrinkLarge(id, delta);
      }
    }

    method ShrinkLarge(id: nat, delta: nat) returns (ok: bool)
      requires Valid() && id in cores && CoreOk(cores[id], blocks) && Shared(id) && delta <= Size(cores[id])
      modifies this`cores, this`blocks, this`denials
      ensures Valid() && id in old(Strings()) && delta <= |old(Strings())[id]|
      ensures ok ==> Strings() == old(Strings())[id := old(Strings())[id][..|old(Strings())[id]| - delta]]
      ensures if ok then OnlyChanged(old(cores), cores, id) else cores == old(cores) && blocks == old(blocks)
      ensures delta == old(Size(cores[id])) ==> ok
      ensures denials == old(denials) + Missed(ok)
    {
      hide FbState.Valid, Contents, CoreOk, OnlyChanged, Size, IsSmall, Data, PlaceOf;
      Known(id);
      var size := Size(cores[id]) - delta;
      TakeTwice(Memory(RegionOf(id)), Size(cores[id]), size);
      if delta > 0 {
        ok := Construct(id, Memory(RegionOf(id))[..size]);
      } else {
        SameEntry(Strings(), id);
        NotChanged(cores, id);
        ok := true;
      }
    }

    /** Strings in the same place are the same. */
    lemma SamePlace(i: nat, j: nat)
      requires Valid() && i in cores && j in cores && RegionOf(i) == RegionOf(j)
      ensures cores[i] == cores[j]
    {
      hide Data, Category, Size, Capacity, IsSmall;
      if !IsSmall(cores[i]) {
        var p := Data(cores[i]);
        assert CoreOk(cores[i], blocks) && BlockOk(p, blocks[p], cores);
        assert i in Handles(cores, p) && j in Handles(cores, p);
      }
    }

    predicate Readable(src: Source)
      reads this`cores
    {
      src.Of? ==> src.id in cores && src.pos + src.n <= Size(cores[src.id])
    }

    lemma Meant(src: Source)
      requires Valid() && Readable(src)
      ensures src.Of? ==> src.id in Strings() && |Strings()[src.id]| == Size(cores[src.id])
    {
      if src.Of? {
        Known(src.id);
      }
    }

    /** Whether a source may be read where it was found: in its own string, or in the moved one. */
    ghost predicate Found(id: nat, src: Source, place: Region, alias: bool, strings: map<nat, seq<Byte>>)
      reads this`cores
    {
      && id in strings
      && (src.Of? ==> src.id in strings && src.pos + src.n <= |strings[src.id]|)
      && (src.Of? && alias ==> strings[src.id] == strings[id])
      && (src.Of? && !alias ==> src.id != id && src.id in cores && place == RegionOf(src.id))
    }

    /** The aliasing check of append: the source starts inside the characters of this string. */
    method Locate(id: nat, src: Source) returns (place: Region, alias: bool)
      requires Valid() && id in cores && Readable(src) && Length(src) > 0
      ensures Found(id, src, place, alias, Strings())
    {
      Known(id);
      Meant(src);
      var oldData := RegionOf(id);
      place := if src.Of? then RegionOf(src.id) else oldData;
      alias := src.Of? && place == oldData && src.pos < Size(cores[id]);
      if src.Of? && place == oldData {
        SamePlace(id, src.id);
        Known(src.id);
      }
    }

    /** Reading the source after the string itself may have moved. */
    method Fetch(id: nat, src: Source, place: Region, alias: bool, ghost before: map<nat, seq<Byte>>)
      returns (text: seq<Byte>)
      requires Valid() && id in cores && Found(id, src, place, alias, before)
      requires Extended(before, Strings(), id, Length(src))
      ensures text == Given(before, src)
    {
      hide FbState.Valid, Contents, CoreOk;
      Known(id);
      if src.Text? {
        text := src.s;
      } else if alias {
        PrefixSlice(before[id], Strings()[id], src.pos, src.pos + src.n);
        PrefixSlice(Strings()[id], Memory(RegionOf(id)), src.pos, src.pos + src.n);
        text := Memory(RegionOf(id))[src.pos..src.pos + src.n];
      } else {
        Known(src.id);
        PrefixSlice(Strings()[src.id], Memory(place), src.pos, src.pos + src.n);
        text := Memory(place)[src.pos..src.pos + src.n];
      }
    }

    /** append: the source may be the string itself, or another that shares its block. */
    method Append(id: nat, src: Source) returns (ok: bool)
      requires Valid() && id in cores && Readable(src)
      modifies this`cores, this`blocks, this`denials
      ensures Valid() && id in old(Strings())
      ensures src.Of? ==> src.id in old(Strings()) && src.pos + src.n <= |old(Strings())[src.id]|
      ensures Strings() == if ok then old(Strings())[id := old(Strings())[id] + Given(old(Strings()), src)]
                           else old(Strings())
      ensures denials == old(denials) + Missed(ok)
    {
      Known(id);
      Meant(src);
      if Length(src) == 0 {
        assert Strings()[id] + Given(Strings(), src) == Strings()[id];
        SameEntry(Strings(), id);
        return true;
      }
      ok := AppendSome(id, src);
    }

    method AppendSome(id: nat, src: Source) returns (ok: bool)
      requires Valid() && id in cores && Readable(src) && Length(src) > 0
      modifies this`cores, this`blocks, this`denials
      ensures Valid() && id in old(Strings())
      ensures src.Of? ==> src.id in old(Strings()) && src.pos + src.n <= |old(Strings())[src.id]|
      ensures Strings() == if ok then old(Strings())[id := old(Strings())[id] + Given(old(Strings()), src)]
                           else old(Strings())
      ensures denials == old(denials) + Missed(ok)
    {
      hide FbState.Valid, Contents, CoreOk, Exclusive, Size, IsSmall, Data, Overwritten, Given, PlaceOf, Length;
      Known(id);
      var oldSize := Size(cores[id]);
      var place, alias := Locate(id, src);
      ok := ExpandNoinit(id, Length(src), true);
      if ok {
        if src.Of? && !alias {
          Untouched(old(cores), cores, id, src.id);
        }
        var text := Fetch(id, src, place, alias, old(Strings()));
        Known(id);
        AppendedText(old(Strings())[id], Strings()[id], text);
        Overwrite(id, oldSize, text);
      }
    }

    /** assign: when the text fits, over the old characters; else the string is emptied first. */
    method Assign(id: nat, src: Source) returns (outcome: Outcome)
      requires Valid() && id in cores && Readable(src)
      modifies this`cores, this`blocks, this`denials
      ensures Valid() && id in old(Strings())
      ensures src.Of? ==> src.id in old(Strings()) && src.pos + src.n <= |old(Strings())[src.id]|
      ensures Strings() == match outcome
                           case Done => old(Strings())[id := Given(old(Strings()), src)]
                           case Failed | Illegal => old(Strings())
                           case Truncated => old(Strings())[id := []]
      ensures outcome != Illegal && denials == old(denials) + Missed(outcome == Done)
    {
      Known(id);
      Meant(src);
      if Length(src) == 0 {
        assert Given(Strings(), src) == [];
        var ok := Shrink(id, Size(cores[id]));
        outcome := Done;
      } else if Size(cores[id]) >= Length(src) {
        outcome := AssignOver(id, src);
      } else {
        outcome := AssignAfresh(id, src);
      }
    }

    method AssignOver(id: nat, src: Source) returns (outcome: Outcome)
      requires Valid() && id in cores && Readable(src) && 0 < Length(src) <= Size(cores[id])
      modifies this`cores, this`blocks, this`denials
      ensures Valid() && id in old(Strings())
      ensures src.Of? ==> src.id in old(Strings()) && src.pos + src.n <= |old(Strings())[src.id]|
      ensures outcome == Done || outcome == Failed
      ensures Strings() == if outcome == Done then old(Strings())[id := Given(old(Strings()), src)] else old(Strings())
      ensures denials == old(denials) + Missed(outcome == Done)
    {
      Known(id);
      Meant(src);
      var place := if src.Of? then RegionOf(src.id) else RegionOf(id);
      hide FbState.Valid, Contents, CoreOk, Exclusive, IsSmall, Data, Overwritten;
      var ok := MutableData(id);
      if !ok {
        return Failed;
      }
      if src.Of? && src.id != id {
        Untouched(old(cores), cores, id, src.id);
      }
      var text := ReadBack(id, src, place);
      WriteFront(id, text);
      outcome := Done;
    }

    /** The characters written over the first ones and the rest dropped. */
    method WriteFront(id: nat, text: seq<Byte>)
      requires Valid() && id in cores && CoreOk(cores[id], blocks) && Exclusive(cores[id], blocks)
      requires |text| <= Size(cores[id])
      modifies this`cores, this`blocks, this`denials
      ensures Valid() && denials == old(denials) && Strings() == old(Strings())[id := text]
    {
      Known(id);
      var size := Size(cores[id]);
      hide FbState.Valid, Contents, CoreOk, Exclusive, IsSmall, Data, Overwritten;
      Overwrite(id, 0, text);
      Known(id);
      OverwrittenFront(old(Strings())[id], text);
      UpdatedTwice(old(Strings()), id, Strings()[id], text);
      var ok := Shrink(id, size - |text|);
    }

    /** The source of an assignment, read where it was before the string was made unique. */
    method ReadBack(id: nat, src: Source, place: Region) returns (text: seq<Byte>)
      requires Valid() && id in cores && id in Strings() && Live(place)
      requires src.Of? ==> src.id in Strings() && src.pos + src.n <= |Strings()[src.id]|
      requires src.Of? && src.id == id ==> Strings()[id] <= Memory(place)
      requires src.Of? && src.id != id ==> src.id in cores && place == RegionOf(src.id)
      ensures text == Given(Strings(), src)
    {
      hide FbState.Valid, Contents, CoreOk, Size, Data;
      if src.Text? {
        text := src.s;
      } else {
        Known(src.id);
        PrefixSlice(Strings()[src.id], Memory(place), src.pos, src.pos + src.n);
        text := Memory(place)[src.pos..src.pos + src.n];
      }
    }

    method AssignAfresh(id: nat, src: Source) returns (outcome: Outcome)
      requires Valid() && id in cores && Readable(src) && Size(cores[id]) < Length(src)
      modifies this`cores, this`blocks, this`denials
      ensures Valid() && id in old(Strings())
      ensures src.Of? ==> src.id in old(Strings()) && src.pos + src.n <= |old(Strings())[src.id]|
      ensures outcome == Done || outcome == Truncated
      ensures Strings() == old(Strings())[id := if outcome == Done then Given(old(Strings()), src) else []]
      ensures denials == old(denials) + Missed(outcome == Done)
    {
      Known(id);
      Meant(src);
      var place := if src.Of? then RegionOf(src.id) else RegionOf(id);
      assert Elsewhere(cores, Strings(), id, src, place);
      assert Strings()[id][..0] == [];
      hide FbState.Valid, Contents, CoreOk, Exclusive, Elsewhere, Given, OnlyChanged, Size, PlaceOf;
      var ok := Shrink(id, Size(cores[id]));
      StaysElsewhere(old(cores), old(Strings()), cores, Strings(), id, src, place);
      UpdatedTwice(old(Strings()), id, [], Given(Strings(), src));
      ok := FillEmpty(id, src, place);
      outcome := if ok then Done else Truncated;
    }

    /** The characters of a source elsewhere put into an empty string. */
    method FillEmpty(id: nat, src: Source, place: Region) returns (ok: bool)
      requires Valid() && id in cores && id in Strings() && Strings()[id] == [] && Length(src) > 0
      requires Elsewhere(cores, Strings(), id, src, place)
      modifies this`cores, this`blocks, this`denials
      ensures Valid()
      ensures Strings() == if ok then old(Strings())[id := Given(old(Strings()), src)] else old(Strings())
      ensures denials == old(denials) + Missed(ok)
    {
      Known(id);
      hide FbState.Valid, Contents, CoreOk, Exclusive, Elsewhere, Given, OnlyChanged, Size, PlaceOf, Overwritten, Length;
      ok := ExpandNoinit(id, Length(src), false);
      if ok {
        StaysElsewhere(old(cores), old(Strings()), cores, Strings(), id, src, place);
        Known(id);
        var text := ReadElsewhere(id, src, place);
        Rewritten(old(Strings()), Strings(), id, text);
        Overwrite(id, 0, text);
      }
    }

    method ReadElsewhere(ghost id: nat, src: Source, place: Region) returns (text: seq<Byte>)
      requires Valid() && Elsewhere(cores, Strings(), id, src, place)
      ensures text == Given(Strings(), src)
    {
      hide FbState.Valid, Contents, CoreOk, Size, Data;
      if src.Text? {
        text := src.s;
      } else {
        Known(src.id);
        PrefixSlice(Strings()[src.id], Memory(place), src.pos, src.pos + src.n);
        text := Memory(place)[src.pos..src.pos + src.n];
      }
    }

    /** Characters from elsewhere put behind those of the string. */
    method Extend(id: nat, text: seq<Byte>, expGrowth: bool) returns (ok: bool)
      requires Valid() && id in cores && text != []
      modifies this`cores, this`blocks, this`denials
      ensures Valid() && id in old(Strings())
      ensures Strings() == if ok then old(Strings())[id := old(Strings())[id] + text] else old(Strings())
      ensures denials == old(denials) + Missed(ok)
    {
      Known(id);
      var size := Size(cores[id]);
      hide FbState.Valid, Contents, CoreOk, Exclusive, OnlyChanged, Overwritten, Size;
      ok := ExpandNoinit(id, |text|, expGrowth);
      if ok {
        Known(id);
        AppendedText(old(Strings())[id], Strings()[id], text);
        UpdatedTwice(old(Strings()), id, Strings()[id], old(Strings())[id] + text);
        Overwrite(id, size, text);
      }
    }

    method Resize(id: nat, n: nat, c: Byte) returns (ok: bool)
      requires Valid() && id in cores
      modifies this`cores, this`blocks, this`denials
      ensures Valid() && id in old(Strings())
      ensures Strings() == if ok then old(Strings())[id := Resized(old(Strings())[id], n, c)] else old(Strings())
      ensures ok ==> id in Strings() && IsResized(old(Strings())[id], n, c, Strings()[id])
      ensures denials == old(denials) + Missed(ok)
    {
      hide FbState.Valid, Contents, CoreOk, Exclusive, OnlyChanged, Size, Filled, PlaceOf, IsSmall, Data;
      Known(id);
      var size := Size(cores[id]);
      if n <= size {
        ok := Shrink(id, size - n);
      } else {
        var text := Filled(n - size, c);
        ok := Extend(id, text, false);
      }
    }

    method PushBack(id: nat, c: Byte) returns (ok: bool)
      requires Valid() && id in cores
      modifies this`cores, this`blocks, this`denials
      ensures Valid() && id in old(Strings())
      ensures Strings() == if ok then old(Strings())[id := old(Strings())[id] + [c]] else old(Strings())
      ensures denials == old(denials) + Missed(ok)
    {
      ok := Extend(id, [c], true);
    }

    /** One character written through mutableData. */
    method SetAt(id: nat, i: nat, c: Byte) returns (ok: bool)
      requires Valid() && id in cores && i < Size(cores[id])
      modifies this`cores, this`blocks, this`denials
      ensures Valid() && id in old(Strings()) && i < |old(Strings())[id]|
      ensures Strings() == if ok then old(Strings())[id := Overwritten(old(Strings())[id], i, [c])] else old(Strings())
      ensures denials == old(denials) + Missed(ok)
    {
      Known(id);
      hide FbState.Valid, Contents, CoreOk, Exclusive, Overwritten;
      ok := MutableData(id);
      if ok {
        Overwrite(id, i, [c]);
      }
    }

    /** Copying: small ones bit by bit, medium ones eagerly, large ones by counting. */
    method CopyConstruct(id: nat, from: nat) returns (ok: bool)
      requires Valid() && id !in cores && from in cores
      modifies this`cores, this`blocks, this`denials
      ensures Valid() && from in old(Strings())
      ensures Strings() == if ok then old(Strings())[id := old(Strings())[from]] else old(Strings())
      ensures denials == old(denials) + Missed(ok)
      ensures Category(old(cores)[from]) == LARGE ==>
                ok && cores == old(cores)[id := old(cores)[from]] && blocks.Keys == old(blocks).Keys
    {
      Known(from);
      if IsSmall(cores[from]) {
        AddSmall(cores, blocks, id, cores[from]);
        cores := cores[id := cores[from]];
        ok := true;
      } else {
        LargeBlock(cores[from], blocks);
        if Category(cores[from]) == MEDIUM {
          ok := CopyMedium(id, from);
        } else {
          AddShared(cores, blocks, id, from);
          hide BlockOk;
          var p := Data(cores[from]);
          var b := blocks[p];
          blocks := blocks[p := Counted(b.refs + 1, b.chars)];
          cores := cores[id := cores[from]];
          ok := true;
        }
      }
    }

    method CopyMedium(id: nat, from: nat) returns (ok: bool)
      requires Valid() && id !in cores && from in cores && !IsSmall(cores[from])
      modifies this`cores, this`blocks, this`denials
      ensures Valid() && from in old(Strings())
      ensures Strings() == if ok then old(Strings())[id := old(Strings())[from]] else old(Strings())
      ensures denials == old(denials) + Missed(ok)
    {
      hide FbState.Valid, Contents, CoreOk, Overwritten, OnlyChanged, Size, Data, Capacity, IsSmall;
      Known(from);
      var size, q, junk := Size(cores[from]), 0, [];
      ok, q, junk := Malloc(good(1 + size));
      if ok {
        var text := Memory(RegionOf(from))[..size + 1];
        Copied(junk, text);
        assert text[..size] == Strings()[from];
        Install(id, q, size, Plain(Overwritten(junk, 0, text)));
      }
    }

    /** Taking over what another string held, which is left empty. */
    method MoveConstruct(id: nat, from: nat)
      requires Valid() && id !in cores && from in cores
      modifies this`cores
      ensures Valid() && from in old(Strings())
      ensures Strings() == old(Strings())[id := old(Strings())[from]][from := []]
    {
      Known(from);
      SmallFields(cores[from], 0);
      MoveOk(cores, blocks, id, from, SetSmallSize(cores[from], 0));
      hide BlockOk, SetSmallSize;
      cores := cores[id := cores[from]][from := SetSmallSize(cores[from], 0)];
    }

    method MoveAssign(id: nat, from: nat)
      requires Valid() && id in cores && from in cores
      modifies this`cores, this`blocks
      ensures Valid() && from in old(Strings())
      ensures Strings() == if id == from then old(Strings())
                           else old(Strings())[id := old(Strings())[from]][from := []]
    {
      Known(from);
      if id != from {
        hide FbState.Valid, Contents, CoreOk;
        Destroy(id);
        MoveConstruct(id, from);
      }
    }

    /** Legal, as the program can check it on the objects. */
    predicate Allowed(op: Op)
      reads this`cores
    {
      match op
      case New(id, _) => id !in cores
      case CopyFrom(id, from) => id !in cores && from in cores
      case MoveFrom(id, from) => id !in cores && from in cores
      case MoveTo(id, from) => id in cores && from in cores
      case AppendTo(id, src) => id in cores && Readable(src)
      case AssignTo(id, src) => id in cores && Readable(src)
      case Write(id, i, _) => id in cores && i < Size(cores[id])
      case _ => op.id in cores
    }

    lemma OtherHolder(id: nat) returns (other: nat)
      requires Valid() && id in cores && CoreOk(cores[id], blocks) && Shared(id)
      ensures other in cores && other != id && cores[other] == cores[id]
    {
      hide Data, Category, Size, Capacity, IsSmall;
      var p := Data(cores[id]);
      assert BlockOk(p, blocks[p], cores);
      var s := Handles(cores, p);
      assert id in s && |s| > 1;
      assert |s - {id}| > 0;
      other :| other in s - {id};
    }
  }

  /** Writing the new characters over the uninitialised end. */
  lemma AppendedText(before: seq<Byte>, after: seq<Byte>, text: seq<Byte>)
    requires |after| == |before| + |text| && before <= after
    ensures Overwritten(after, |before|, text) == before + text
  {}

  /** n characters, the old ones as far as they reach and c behind them. */
  predicate IsResized(s: seq<Byte>, n: nat, c: Byte, r: seq<Byte>) {
    && |r| == n
    && (forall i :: 0 <= i < n && i < |s| ==> r[i] == s[i])
    && (forall i :: |s| <= i < n ==> r[i] == c)
  }

  /** s cut or filled up with c to n characters. */
  function Resized(s: seq<Byte>, n: nat, c: Byte): (r: seq<Byte>)
    ensures |r| == n && forall i :: 0 <= i < n ==> r[i] == if i < |s| then s[i] else c
  {
    if n <= |s| then s[..n] else s + Filled(n - |s|, c)
  }

  function Filled(n: nat, c: Byte): (s: seq<Byte>)
    ensures |s| == n && forall i :: 0 <= i < n ==> s[i] == c
  {
    seq(n, i => c)
  }

  lemma UpdatedTwice(m: map<nat, seq<Byte>>, id: nat, s: seq<Byte>, t: seq<Byte>)
    ensures m[id := s][id := t] == m[id := t]
  {}

  lemma Rewritten(m: map<nat, seq<Byte>>, n: map<nat, seq<Byte>>, id: nat, text: seq<Byte>)
    requires id in m && m[id] == [] && Extended(m, n, id, |text|)
    ensures n[id := Overwritten(n[id], 0, text)] == m[id := text]
  {
    AppendedText([], n[id], text);
    assert [] + text == text;
    UpdatedTwice(m, id, n[id], text);
  }

  lemma OverwrittenFront(s: seq<Byte>, text: seq<Byte>)
    requires |text| <= |s|
    ensures Overwritten(s, 0, text)[..|text|] == text
  {}

  lemma Untouched(before: map<nat, Core>, after: map<nat, Core>, id: nat, other: nat)
    requires OnlyChanged(before, after, id) && other in before && other != id
    ensures other in after && after[other] == before[other]
  {}

  /** What a program can do with its strings. */
  datatype Op =
    | New(id: nat, s: seq<Byte>)
    | CopyFrom(id: nat, from: nat)
    | MoveFrom(id: nat, from: nat)
    | MoveTo(id: nat, from: nat)
    | AppendTo(id: nat, src: Source)
    | AssignTo(id: nat, src: Source)
    | ReserveFor(id: nat, n: nat)
    | ResizeTo(id: nat, n: nat, c: Byte)
    | Push(id: nat, c: Byte)
    | Write(id: nat, i: nat, c: Byte)
    | Delete(id: nat)

  predicate SourceExists(m: map<nat, seq<Byte>>, src: Source) {
    src.Of? ==> src.id in m && src.pos + src.n <= |m[src.id]|
  }

  /** The objects named exist or do not, as the operation needs, and places lie inside them. */
  predicate Legal(m: map<nat, seq<Byte>>, op: Op) {
    match op
    case New(id, _) => id !in m
    case CopyFrom(id, from) => id !in m && from in m
    case MoveFrom(id, from) => id !in m && from in m
    case MoveTo(id, from) => id in m && from in m
    case AppendTo(id, src) => id in m && SourceExists(m, src)
    case AssignTo(id, src) => id in m && SourceExists(m, src)
    case Write(id, i, _) => id in m && i < |m[id]|
    case _ => op.id in m
  }

  /** The same on plain, independent sequences. */
  function Apply(m: map<nat, seq<Byte>>, op: Op): map<nat, seq<Byte>>
    requires Legal(m, op)
  {
    match op
    case New(id, s) => m[id := s]
    case CopyFrom(id, from) => m[id := m[from]]
    case MoveFrom(id, from) => m[id := m[from]][from := []]
    case MoveTo(id, from) => if id == from then m else m[id := m[from]][from := []]
    case AppendTo(id, src) => m[id := m[id] + Given(m, src)]
    case AssignTo(id, src) => m[id := Given(m, src)]
    case ReserveFor(id, _) => m
    case ResizeTo(id, n, c) => m[id := Resized(m[id], n, c)]
    case Push(id, c) => m[id := m[id] + [c]]
    case Write(id, i, c) => m[id := Overwritten(m[id], i, [c])]
    case Delete(id) => m - {id}
  }

  function After(m: map<nat, seq<Byte>>, op: Op, outcome: Outcome): map<nat, seq<Byte>> {
    if !Legal(m, op) then m
    else match outcome
      case Done => Apply(m, op)
      case Failed | Illegal => m
      case Truncated => m[op.id := []]
  }

  /** A whole program on plain sequences, given which of its allocations failed. */
  function Replay(m: map<nat, seq<Byte>>, ops: seq<Op>, outcomes: seq<Outcome>): map<nat, seq<Byte>>
    requires |ops| == |outcomes|
  {
    if ops == [] then m
    else
      var n := |ops| - 1;
      After(Replay(m, ops[..n], outcomes[..n]), ops[n], outcomes[n])
  }

  /** An operation counts as illegal exactly when the strings it finds make it so. */
  ghost predicate Recorded(m: map<nat, seq<Byte>>, ops: seq<Op>, outcomes: seq<Outcome>)
    requires |ops| == |outcomes|
  {
    ops == [] ||
    var n := |ops| - 1;
    && Recorded(m, ops[..n], outcomes[..n])
    && (outcomes[n] == Illegal <==> !Legal(Replay(m, ops[..n], outcomes[..n]), ops[n]))
  }

  function Result(ok: bool): Outcome {
    if ok then Done else Failed
  }

  lemma LegalIs(store: Store, op: Op)
    requires store.Valid()
    ensures store.Allowed(op) <==> Legal(store.Strings(), op)
  {
    hide FbState.Valid, Contents;
    KeysAreLive(store);
    if op.id in store.cores {
      store.Known(op.id);
    }
    if (op.AppendTo? || op.AssignTo?) && op.src.Of? && op.src.id in store.cores {
      store.Known(op.src.id);
    }
  }

  lemma KeysAreLive(store: Store)
    requires store.Valid()
    ensures store.Strings().Keys == store.cores.Keys
  {}

  method Step(store: Store, op: Op) returns (outcome: Outcome)
    requires store.Valid() && Legal(store.Strings(), op)
    modifies store`cores, store`blocks, store`denials
    ensures store.Valid() && store.Strings() == After(old(store.Strings()), op, outcome)
    ensures op.ResizeTo? && outcome == Done ==>
              op.id in store.Strings() && IsResized(old(store.Strings())[op.id], op.n, op.c, store.Strings()[op.id])
    ensures outcome != Illegal && store.denials == old(store.denials) + Missed(outcome == Done)
  {
    LegalIs(store, op);
    hide FbState.Valid, Contents, Given, Overwritten, Resized, IsResized, Size;
    var ok := true;
    match op {
      case New(id, s) => ok := store.Construct(id, s);
      case CopyFrom(id, from) => ok := store.CopyConstruct(id, from);
      case MoveFrom(id, from) => store.MoveConstruct(id, from);
      case MoveTo(id, from) => store.MoveAssign(id, from);
      case AppendTo(id, src) => ok := store.Append(id, src);
      case AssignTo(id, src) =>
        outcome := store.Assign(id, src);
        return;
      case ReserveFor(id, n) => ok := store.Reserve(id, n);
      case ResizeTo(id, n, c) => ok := store.Resize(id, n, c);
      case Push(id, c) => ok := store.PushBack(id, c);
      case Write(id, i, c) => ok := store.SetAt(id, i, c);
      case Delete(id) => store.Destroy(id);
    }
    outcome := Result(ok);
  }

  /** Over every sequence of operations each string is its own plain sequence. */
  method Run(store: Store, ops: seq<Op>) returns (outcomes: seq<Outcome>)
    requires store.Valid()
    modifies store`cores, store`blocks, store`denials
    ensures store.Valid() && |outcomes| == |ops|
    ensures store.Strings() == Replay(old(store.Strings()), ops, outcomes)
    ensures Recorded(old(store.Strings()), ops, outcomes)
    ensures store.denials == old(store.denials) ==> forall i :: 0 <= i < |ops| ==> outcomes[i] in {Done, Illegal}
  {
    hide FbState.Valid, Contents, Legal, After;
    outcomes := [];
    for k := 0 to |ops|
      invariant store.Valid() && |outcomes| == k
      invariant store.Strings() == Replay(old(store.Strings()), ops[..k], outcomes)
      invariant store.denials >= old(store.denials)
      invariant Recorded(old(store.Strings()), ops[..k], outcomes)
      invariant store.denials == old(store.denials) ==> forall i :: 0 <= i < k ==> outcomes[i] in {Done, Illegal}
    {
      LegalIs(store, ops[k]);
      ghost var before := store.Strings();
      var outcome := Illegal;
      if store.Allowed(ops[k]) {
        outcome := Step(store, ops[k]);
      } else {
        Skipped(before, ops[k]);
      }
      assert ops[..k + 1][..k] == ops[..k] && (outcomes + [outcome])[..k] == outcomes;
      outcomes := outcomes + [outcome];
    }
    assert ops[..|ops|] == ops;
  }

  lemma Skipped(m: map<nat, seq<Byte>>, op: Op)
    requires !Legal(m, op)
    ensures After(m, op, Illegal) == m
  {}
}
