/** SpookyHash in one call and piece by piece, for any mixing functions. */
module Spooky {
  import opened FbLayout

  const BLOCK := 96
  const BUFFER := 192
  const CONST: nat := 0xDEAD_BEEF_DEAD_BEEF

  /** Mix and End on a block and the twelve variables, and Short on a short message and its seeds. */
  datatype Primitives = Primitives(
    mix: (seq<Byte>, seq<nat>) -> seq<nat>,
    end: (seq<Byte>, seq<nat>) -> (nat, nat),
    short: (seq<Byte>, nat, nat) -> (nat, nat))

  /** The variables a long hash starts from. */
  function Start(seed1: nat, seed2: nat): seq<nat> {
    [seed1, seed2, CONST, seed1, seed2, CONST, seed1, seed2, CONST, seed1, seed2, CONST]
  }

  /** All whole blocks mixed in. */
  function MixBlocks(prim: Primitives, s: seq<Byte>, vars: seq<nat>): seq<nat>
    decreases |s|
  {
    if |s| < BLOCK then vars else MixBlocks(prim, s[BLOCK..], prim.mix(s[..BLOCK], vars))
  }

  function Zeros(n: nat): (s: seq<Byte>)
    ensures |s| == n && forall i :: 0 <= i < n ==> s[i] == 0
  {
    seq(n, i => 0)
  }

  /** The last partial block, filled with zeros and closed by its length. */
  function Padded(s: seq<Byte>): (r: seq<Byte>)
    requires |s| < BLOCK
    ensures |r| == BLOCK
  {
    s + Zeros(BLOCK - 1 - |s|) + [|s|]
  }

  /** The hash of a whole message. */
  function Hash(prim: Primitives, s: seq<Byte>, seed1: nat, seed2: nat): (nat, nat) {
    if |s| < BUFFER then prim.short(s, seed1, seed2)
    else prim.end(Padded(s[|s| - |s| % BLOCK..]), MixBlocks(prim, s, Start(seed1, seed2)))
  }

  /** Three quantities by turns: the seeds and the constant. */
  ghost predicate Seeded(vars: seq<nat>, seed1: nat, seed2: nat) {
    && |vars| == 12
    && (forall i :: 0 <= i < 12 && i % 3 == 0 ==> vars[i] == seed1)
    && (forall i :: 0 <= i < 12 && i % 3 == 1 ==> vars[i] == seed2)
    && (forall i :: 0 <= i < 12 && i % 3 == 2 ==> vars[i] == 0xDEAD_BEEF_DEAD_BEEF)
  }

  /** Mix number k takes bytes 96k to 96k + 95 of the message. */
  ghost predicate Chained(prim: Primitives, s: seq<Byte>, states: seq<seq<nat>>) {
    && |states| == |s| / 96 + 1
    && forall k :: 0 <= k < |s| / 96 ==> states[k + 1] == prim.mix(s[96 * k..96 * k + 96], states[k])
  }

  /** The bytes left over, zeros, and their number. */
  ghost predicate LastBlock(s: seq<Byte>, block: seq<Byte>) {
    var rest := |s| % 96;
    && |block| == 96
    && (forall j :: 0 <= j < rest ==> block[j] == s[|s| - rest + j])
    && (forall j :: rest <= j < 95 ==> block[j] == 0)
    && block[95] == rest
  }

  /** Every value of a hash on the way to its result, by position. */
  ghost predicate Traced(prim: Primitives, s: seq<Byte>, seed1: nat, seed2: nat, states: seq<seq<nat>>, block: seq<Byte>,
                         h: (nat, nat))
  {
    if |s| < 192 then h == prim.short(s, seed1, seed2)
    else
      && Chained(prim, s, states) && Seeded(states[0], seed1, seed2)
      && LastBlock(s, block) && h == prim.end(block, states[|s| / 96])
  }

  /** Such a trace exists for the hash of every message. */
  lemma HashIsTraced(prim: Primitives, s: seq<Byte>, seed1: nat, seed2: nat)
    returns (states: seq<seq<nat>>, block: seq<Byte>)
    ensures Traced(prim, s, seed1, seed2, states, block, Hash(prim, s, seed1, seed2))
  {
    states := MixTrace(prim, s, Start(seed1, seed2));
    block := Padded(s[|s| - |s| % BLOCK..]);
  }

  lemma {:induction false} MixTrace(prim: Primitives, s: seq<Byte>, vars: seq<nat>) returns (states: seq<seq<nat>>)
    ensures Chained(prim, s, states) && states[0] == vars && states[|s| / 96] == MixBlocks(prim, s, vars)
    decreases |s|
  {
    states := [vars];
    if |s| >= BLOCK {
      var t := s[BLOCK..];
      var more := MixTrace(prim, t, prim.mix(s[..BLOCK], vars));
      states := states + more;
      forall k | 0 <= k < |s| / 96
        ensures states[k + 1] == prim.mix(s[96 * k..96 * k + 96], states[k])
      {
        if k > 0 {
          assert t[96 * (k - 1)..96 * (k - 1) + 96] == s[96 * k..96 * k + 96];
        }
      }
    }
  }

  /** And there is only one, so it says what the hash is. */
  lemma TraceDecides(prim: Primitives, s: seq<Byte>, seed1: nat, seed2: nat, states: seq<seq<nat>>, block: seq<Byte>, h: (nat, nat))
    requires Traced(prim, s, seed1, seed2, states, block, h)
    ensures h == Hash(prim, s, seed1, seed2)
  {
    var states', block' := HashIsTraced(prim, s, seed1, seed2);
    hide Hash;
    if |s| >= 192 {
      assert block == block';
      assert states[0] == states'[0];
      SameChain(prim, s, states, states', |s| / 96);
    }
  }

  lemma {:induction false} SameChain(prim: Primitives, s: seq<Byte>, a: seq<seq<nat>>, b: seq<seq<nat>>, k: nat)
    requires Chained(prim, s, a) && Chained(prim, s, b) && a[0] == b[0] && k <= |s| / 96
    ensures a[k] == b[k]
    decreases k
  {
    if k > 0 {
      SameChain(prim, s, a, b, k - 1);
      assert a[k] == a[k - 1 + 1] && b[k] == b[k - 1 + 1];
    }
  }

  lemma {:induction false} MixSplit(prim: Primitives, a: seq<Byte>, b: seq<Byte>, vars: seq<nat>)
    requires |a| % BLOCK == 0
    ensures MixBlocks(prim, a + b, vars) == MixBlocks(prim, b, MixBlocks(prim, a, vars))
    decreases |a|
  {
    if a == [] {
      assert a + b == b;
    } else {
      assert (a + b)[..BLOCK] == a[..BLOCK] && (a + b)[BLOCK..] == a[BLOCK..] + b;
      MixSplit(prim, a[BLOCK..], b, prim.mix(a[..BLOCK], vars));
    }
  }

  /** A partial block at the end adds nothing. */
  lemma MixWhole(prim: Primitives, a: seq<Byte>, b: seq<Byte>, vars: seq<nat>)
    requires |a| % BLOCK == 0 && |b| < BLOCK
    ensures MixBlocks(prim, a + b, vars) == MixBlocks(prim, a, vars)
  {
    MixSplit(prim, a, b, vars);
  }

  lemma MixTwo(prim: Primitives, d: seq<Byte>, vars: seq<nat>)
    requires |d| == BUFFER
    ensures MixBlocks(prim, d, vars) == prim.mix(d[BLOCK..], prim.mix(d[..BLOCK], vars))
  {
    var rest := d[BLOCK..];
    assert rest[..BLOCK] == rest && rest[BLOCK..] == [];
    assert MixBlocks(prim, rest, prim.mix(d[..BLOCK], vars))
           == MixBlocks(prim, rest[BLOCK..], prim.mix(rest[..BLOCK], prim.mix(d[..BLOCK], vars)));
  }

  /** At most one whole block: mixed once, or not at all. */
  lemma MixOne(prim: Primitives, r: seq<Byte>, vars: seq<nat>)
    requires BLOCK <= |r| < BUFFER
    ensures MixBlocks(prim, r, vars) == prim.mix(r[..BLOCK], vars)
  {
    assert |r[BLOCK..]| < BLOCK;
  }

  lemma NoBlock(prim: Primitives, r: seq<Byte>, vars: seq<nat>)
    ensures |r| < BLOCK ==> MixBlocks(prim, r, vars) == vars
  {}

  /** What was mixed before, then the filled buffer, then the whole blocks of the piece. */
  lemma MixThree(prim: Primitives, a: seq<Byte>, d: seq<Byte>, w: seq<Byte>, r: seq<Byte>, vars: seq<nat>)
    requires |a| % BLOCK == 0 && |d| % BLOCK == 0 && |w| % BLOCK == 0 && |r| < BLOCK
    ensures MixBlocks(prim, w + r, MixBlocks(prim, d, MixBlocks(prim, a, vars))) == MixBlocks(prim, a + d + w, vars)
  {
    hide MixBlocks;
    MixWhole(prim, w, r, MixBlocks(prim, d, MixBlocks(prim, a, vars)));
    MixSplit(prim, a, d, vars);
    MixSplit(prim, a + d, w, vars);
  }

  /** Whole blocks of s from place start on, one after the other. */
  method MixLoop(prim: Primitives, s: seq<Byte>, start: nat, vars0: seq<nat>) returns (vars: seq<nat>, end: nat)
    requires start <= |s|
    ensures start <= end <= |s| < end + BLOCK && (end - start) % BLOCK == 0
    ensures vars == MixBlocks(prim, s[start..], vars0)
  {
    vars := vars0;
    end := start + (|s| - start) / BLOCK * BLOCK;
    var p := start;
    while p < end
      invariant start <= p <= end && (end - p) % BLOCK == 0 && end - p <= |s| - p < end - p + BLOCK
      invariant MixBlocks(prim, s[p..], vars) == MixBlocks(prim, s[start..], vars0)
    {
      assert s[p..][..BLOCK] == s[p..p + BLOCK] && s[p..][BLOCK..] == s[p + BLOCK..];
      vars := prim.mix(s[p..p + BLOCK], vars);
      p := p + BLOCK;
    }
  }

  method Hash128(prim: Primitives, message: seq<Byte>, seed1: nat, seed2: nat)
    returns (h: (nat, nat), ghost states: seq<seq<nat>>, ghost block: seq<Byte>)
    ensures h == Hash(prim, message, seed1, seed2)
    ensures Traced(prim, message, seed1, seed2, states, block, h)
  {
    states, block := HashIsTraced(prim, message, seed1, seed2);
    hide Traced;
    if |message| < BUFFER {
      return prim.short(message, seed1, seed2), states, block;
    }
    var vars, end := MixLoop(prim, message, 0, Start(seed1, seed2));
    assert message[0..] == message;
    var remainder := |message| - end;
    var buf := message[end..] + Zeros(BLOCK - remainder);
    buf := buf[BLOCK - 1 := remainder];
    assert buf == Padded(message[end..]);
    h := prim.end(buf, vars);
  }

  lemma Filled(s: seq<Byte>, k: nat, a: seq<Byte>, b: seq<Byte>)
    requires k <= |s| && s[..k] == a && s[k..] == b
    ensures s == a + b
  {
    assert s == s[..k] + s[k..];
  }

  lemma Grown(m: seq<Byte>, k: nat, piece: seq<Byte>)
    requires k <= |m|
    ensures (m + piece)[k..] == m[k..] + piece && (m + piece)[..k] == m[..k]
  {}

  lemma Multiples(a: nat, b: nat, c: nat)
    requires a % BLOCK == 0 && b % BLOCK == 0 && c % BLOCK == 0
    ensures (a + b + c) % BLOCK == 0
  {
    assert a + b + c == BLOCK * (a / BLOCK + b / BLOCK + c / BLOCK);
  }

  /** The message cut where the mixing has got to. */
  lemma Cut(m: seq<Byte>, k: nat, piece: seq<Byte>, start: nat, end: nat)
    requires k <= |m| && start <= end <= |piece|
    ensures (m + piece)[..|m| + end] == m[..k] + (m[k..] + piece[..start]) + piece[start..end]
    ensures (m + piece)[|m| + end..] == piece[end..]
  {}

  /** What is left to do when all but the last k bytes, fewer than two blocks, are mixed in. */
  lemma Closing(prim: Primitives, m: seq<Byte>, k: nat, seeds: (nat, nat))
    requires |m| >= BUFFER && k <= |m| < k + BUFFER && k % BLOCK == 0
    ensures var r, vars := m[k..], MixBlocks(prim, m[..k], Start(seeds.0, seeds.1));
            Hash(prim, m, seeds.0, seeds.1) == if |r| < BLOCK then prim.end(Padded(r), vars)
                                               else prim.end(Padded(r[BLOCK..]), prim.mix(r[..BLOCK], vars))
  {
    hide MixBlocks, Start, Padded;
    var r, vars := m[k..], MixBlocks(prim, m[..k], Start(seeds.0, seeds.1));
    assert m == m[..k] + r;
    MixSplit(prim, m[..k], r, Start(seeds.0, seeds.1));
    if |r| >= BLOCK {
      MixOne(prim, r, vars);
      assert m[k + BLOCK..] == r[BLOCK..];
    } else {
      NoBlock(prim, r, vars);
    }
  }

  class Hasher {
    const data: array<Byte>     // m_data
    var state: seq<nat>         // m_state
    var length: nat             // m_length
    var remainder: nat          // m_remainder
    const prim: Primitives
    ghost var message: seq<Byte>
    ghost var seeds: (nat, nat)

    /** What the fields say about the message so far. */
    ghost predicate Valid()
      reads this, data
    {
      && data.Length == BUFFER && remainder < BUFFER && remainder <= length == |message|
      && data[..remainder] == message[length - remainder..]
      && (length - remainder) % BLOCK == 0
      && if length < BUFFER then remainder == length && state == [seeds.0, seeds.1]
         else state == MixBlocks(prim, message[..length - remainder], Start(seeds.0, seeds.1))
    }

    constructor (prim: Primitives, seed1: nat, seed2: nat)
      ensures Valid() && fresh(data) && message == [] && seeds == (seed1, seed2) && this.prim == prim
    {
      this.prim := prim;
      data := new Byte[BUFFER];
      state, length, remainder := [seed1, seed2], 0, 0;
      message, seeds := [], (seed1, seed2);
    }

    /** Init on an object in use. */
    method Init(seed1: nat, seed2: nat)
      requires data.Length == BUFFER
      modifies this
      ensures Valid() && message == [] && seeds == (seed1, seed2)
    {
      state, length, remainder := [seed1, seed2], 0, 0;
      message, seeds := [], (seed1, seed2);
    }

    /** Copying a piece behind what is stashed. */
    method Stash(at: nat, piece: seq<Byte>)
      requires at + |piece| <= data.Length
      modifies data
      ensures data[..at] == old(data[..at]) && data[at..at + |piece|] == piece
    {
      for i := 0 to |piece|
        invariant data[..at] == old(data[..at])
        invariant data[at..at + i] == piece[..i]
      {
        data[at + i] := piece[i];
      }
    }

    method Update(piece: seq<Byte>)
      requires Valid()
      modifies this, data
      ensures Valid() && message == old(message) + piece && seeds == old(seeds)
    {
      var newLength := |piece| + remainder;
      if newLength < BUFFER {
        UpdateShort(piece);
      } else {
        UpdateLong(piece);
      }
    }

    method UpdateShort(piece: seq<Byte>)
      requires Valid() && |piece| + remainder < BUFFER
      modifies this, data
      ensures Valid() && message == old(message) + piece && seeds == old(seeds)
    {
      hide MixBlocks, Start;
      ghost var k := length - remainder;
      Stash(remainder, piece);
      Filled(data[..remainder + |piece|], remainder, message[k..], piece);
      Grown(message, k, piece);
      length := length + |piece|;
      message := message + piece;
      remainder := remainder + |piece|;
    }

    method UpdateLong(piece: seq<Byte>)
      requires Valid() && |piece| + remainder >= BUFFER
      modifies this, data
      ensures Valid() && message == old(message) + piece && seeds == old(seeds)
    {
      hide MixBlocks, Start;
      var vars, end := MixIn(piece);
      Stash(0, piece[end..]);
      Cut(message, 0, piece, 0, end);
      length := length + |piece|;
      remainder := |piece| - end;
      message := message + piece;
      state := vars;
    }

    /** All that can be mixed of what was stashed and the new piece. */
    method MixIn(piece: seq<Byte>) returns (vars: seq<nat>, end: nat)
      requires Valid() && |piece| + remainder >= BUFFER
      modifies data
      ensures end <= |piece| < end + BLOCK && (length + end) % BLOCK == 0
      ensures vars == MixBlocks(prim, (message + piece)[..length + end], Start(seeds.0, seeds.1))
    {
      vars := if length < BUFFER then Start(state[0], state[1]) else state;
      Resumed(vars);
      hide MixBlocks, Start;
      ghost var a, stashed := message[..length - remainder], message[length - remainder..];
      var start;
      vars, start := UseStash(piece, vars);
      vars, end := MixLoop(prim, piece, start, vars);
      ghost var d, w, r := stashed + piece[..start], piece[start..end], piece[end..];
      assert piece[start..] == w + r;
      MixThree(prim, a, d, w, r, Start(seeds.0, seeds.1));
      Cut(message, length - remainder, piece, start, end);
      Multiples(|a|, |d|, |w|);
    }

    lemma Stashed()
      requires Valid()
      ensures data.Length == BUFFER && remainder < BUFFER && remainder <= length == |message|
      ensures data[..remainder] == message[length - remainder..] && (length - remainder) % BLOCK == 0
    {}

    method FillStash(piece: seq<Byte>)
      requires data.Length == BUFFER && remainder + |piece| == BUFFER
      modifies data
      ensures data[..] == old(data[..remainder]) + piece
    {
      Stash(remainder, piece);
      Filled(data[..], remainder, old(data[..remainder]), piece);
    }

    /** Anything stashed away is filled up to two blocks and used first. */
    method UseStash(piece: seq<Byte>, vars0: seq<nat>) returns (vars: seq<nat>, start: nat)
      requires Valid() && |piece| + remainder >= BUFFER
      modifies data
      ensures start <= |piece| && (remainder + start) % BLOCK == 0
      ensures vars == MixBlocks(prim, message[length - remainder..] + piece[..start], vars0)
    {
      hide MixBlocks, Start, Hasher.Valid;
      Stashed();
      vars, start := vars0, 0;
      if remainder != 0 {
        start := BUFFER - remainder;
        FillStash(piece[..start]);
        MixTwo(prim, data[..], vars0);
        vars := prim.mix(data[..][..BLOCK], vars);
        vars := prim.mix(data[..][BLOCK..], vars);
      } else {
        assert message[length - remainder..] + piece[..0] == [];
        NoBlock(prim, [], vars0);
      }
    }

    /** The hash so far; only bytes behind the stashed ones are written. */
    method Final() returns (h: (nat, nat))
      requires Valid()
      modifies data
      ensures Valid() && h == Hash(prim, message, seeds.0, seeds.1)
    {
      if length < BUFFER {
        assert data[..length] == message;
        return prim.short(data[..length], state[0], state[1]);
      }
      h := FinalLong();
    }

    method FinalLong() returns (h: (nat, nat))
      requires Valid() && length >= BUFFER
      modifies data
      ensures Valid() && h == Hash(prim, message, seeds.0, seeds.1)
    {
      hide MixBlocks, Start, Hash, Padded;
      Closing(prim, message, length - remainder, seeds);
      ghost var r := message[length - remainder..];
      var vars, left, at := state, remainder, 0;
      if left >= BLOCK {
        assert data[..BLOCK] == r[..BLOCK];
        vars := prim.mix(data[..BLOCK], vars);
        at, left := BLOCK, left - BLOCK;
      }
      assert data[at..at + left] == r[at..];
      CloseBlock(at, left);
      h := prim.end(data[at..at + BLOCK], vars);
    }

    /** Zeros behind the stashed bytes of a block, and their number in its last byte. */
    method CloseBlock(at: nat, left: nat)
      requires at + BLOCK <= data.Length && left < BLOCK
      modifies data
      ensures data[..at + left] == old(data[..at + left])
      ensures data[at..at + BLOCK] == Padded(old(data[at..at + left]))
    {
      for i := left to BLOCK
        invariant data[..at + left] == old(data[..at + left])
        invariant forall j :: at + left <= j < at + i ==> data[j] == 0
      {
        data[at + i] := 0;
      }
      data[at + BLOCK - 1] := left;
      assert data[at..at + left] == old(data[..at + left])[at..];
    }

    lemma Resumed(vars: seq<nat>)
      requires Valid() && vars == if length < BUFFER then Start(state[0], state[1]) else state
      ensures vars == MixBlocks(prim, message[..length - remainder], Start(seeds.0, seeds.1))
    {}
  }

  function Joined(pieces: seq<seq<Byte>>): seq<Byte> {
    if pieces == [] then [] else Joined(pieces[..|pieces| - 1]) + pieces[|pieces| - 1]
  }

  lemma JoinedNone(pieces: seq<seq<Byte>>)
    ensures Joined(pieces[..0]) == []
  {}

  lemma JoinedNext(pieces: seq<seq<Byte>>, i: nat)
    requires i < |pieces|
    ensures Joined(pieces[..i + 1]) == Joined(pieces[..i]) + pieces[i]
  {
    assert pieces[..i + 1][..i] == pieces[..i];
  }

  /** One more piece, after an answer that nobody keeps. */
  method Feed(hasher: Hasher, piece: seq<Byte>, ask: bool)
    requires hasher.Valid()
    modifies hasher, hasher.data
    ensures hasher.Valid() && hasher.message == old(hasher.message) + piece && hasher.seeds == old(hasher.seeds)
  {
    hide Hash, Hasher.Valid;
    if ask {
      var h := hasher.Final();
    }
    hasher.Update(piece);
  }

  method FeedAll(hasher: Hasher, pieces: seq<seq<Byte>>, asked: nat -> bool)
    requires hasher.Valid() && hasher.message == []
    modifies hasher, hasher.data
    ensures hasher.Valid() && hasher.message == Joined(pieces) && hasher.seeds == old(hasher.seeds)
  {
    hide Hasher.Valid, Joined;
    JoinedNone(pieces);
    var i := 0;
    while i < |pieces|
      invariant 0 <= i <= |pieces| && hasher.Valid() && hasher.seeds == old(hasher.seeds)
      invariant hasher.message == Joined(pieces[..i])
    {
      JoinedNext(pieces, i);
      Feed(hasher, pieces[i], asked(i));
      i := i + 1;
    }
    assert pieces[..|pieces|] == pieces;
  }

  /** However a message is cut into pieces, and wherever the hash is asked for in between, the last answer is its hash. */
  method HashPieces(prim: Primitives, seed1: nat, seed2: nat, pieces: seq<seq<Byte>>, asked: nat -> bool)
    returns (h: (nat, nat), ghost states: seq<seq<nat>>, ghost block: seq<Byte>)
    ensures h == Hash(prim, Joined(pieces), seed1, seed2)
    ensures Traced(prim, Joined(pieces), seed1, seed2, states, block, h)
  {
    hide Hash, Hasher.Valid, Joined, Traced;
    states, block := HashIsTraced(prim, Joined(pieces), seed1, seed2);
    var hasher := new Hasher(prim, seed1, seed2);
    h := Answer(hasher, pieces, asked);
  }

  method Answer(hasher: Hasher, pieces: seq<seq<Byte>>, asked: nat -> bool) returns (h: (nat, nat))
    requires hasher.Valid() && hasher.message == []
    modifies hasher, hasher.data
    ensures h == Hash(hasher.prim, Joined(pieces), old(hasher.seeds).0, old(hasher.seeds).1)
  {
    hide Hash, Hasher.Valid, Joined;
    FeedAll(hasher, pieces, asked);
    h := hasher.Final();
  }
}
