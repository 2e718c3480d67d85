/** The LRU cache: an index and a recency list over the same entries. */
module Lru {
  import opened Options

  datatype Entry<K, V> = Entry(key: K, value: V)

  ghost predicate Distinct<K, V>(s: seq<Entry<K, V>>) {
    forall i, j :: 0 <= i < j < |s| ==> s[i].key != s[j].key
  }

  ghost predicate Holds<K, V>(s: seq<Entry<K, V>>, k: K) {
    exists i :: 0 <= i < |s| && s[i].key == k
  }

  /** The entries but those with this key. */
  ghost function Without<K, V>(s: seq<Entry<K, V>>, k: K): (r: seq<Entry<K, V>>)
    ensures |r| <= |s| && (forall i :: 0 <= i < |r| ==> r[i] in s && r[i].key != k)
  {
    if s == [] then []
    else if s[0].key == k then Without(s[1..], k)
    else [s[0]] + Without(s[1..], k)
  }

  /** What the cache says about a key. */
  ghost function Lookup<K, V>(s: seq<Entry<K, V>>, k: K): Option<V> {
    if s == [] then None
    else if s[0].key == k then Some(s[0].value)
    else Lookup(s[1..], k)
  }

  lemma {:induction false} LookupHolds<K, V>(s: seq<Entry<K, V>>, k: K)
    ensures Lookup(s, k).Some? <==> Holds(s, k)
  {
    if s != [] {
      LookupHolds(s[1..], k);
      if s[0].key != k {
        HoldsRest(s, k);
      }
    }
  }

  lemma HoldsRest<K, V>(s: seq<Entry<K, V>>, k: K)
    requires s != [] && s[0].key != k
    ensures Holds(s, k) <==> Holds(s[1..], k)
  {
    if Holds(s, k) {
      var i :| 0 <= i < |s| && s[i].key == k;
      assert s[1..][i - 1].key == k;
    }
    if Holds(s[1..], k) {
      var i :| 0 <= i < |s[1..]| && s[1..][i].key == k;
      assert s[i + 1].key == k;
    }
  }

  lemma {:induction false} WithoutSize<K, V>(s: seq<Entry<K, V>>, k: K)
    requires Distinct(s)
    ensures Distinct(Without(s, k)) && !Holds(Without(s, k), k)
    ensures |Without(s, k)| == if Holds(s, k) then |s| - 1 else |s|
    ensures !Holds(s, k) ==> Without(s, k) == s
  {
    if s != [] {
      WithoutSize(s[1..], k);
      if s[0].key == k {
        assert !Holds(s[1..], k);
      } else {
        HoldsRest(s, k);
        var w := Without(s[1..], k);
        forall i | 0 <= i < |w| ensures w[i].key != s[0].key {
          assert w[i] in s[1..];
        }
      }
    }
  }

  /** The least recently used entry dropped once there are more than the capacity, which is not zero. */
  ghost function Pruned<K, V>(s: seq<Entry<K, V>>, cap: nat): seq<Entry<K, V>> {
    if |s| > cap then s[..|s| - 1] else s
  }

  /** What a program does with the cache, every access promoting what it finds. */
  datatype Op<K, V> = Set(key: K, value: V) | Get(key: K) | Erase(key: K)

  /** The recency list after an operation, with clear size one. */
  ghost function After<K, V>(s: seq<Entry<K, V>>, op: Op<K, V>, cap: nat): seq<Entry<K, V>> {
    match op
    case Set(k, v) =>
      var t := [Entry(k, v)] + Without(s, k);
      if Holds(s, k) then t else Pruned(t, cap)
    case Get(k) =>
      if Lookup(s, k).Some? then [Entry(k, Lookup(s, k).value)] + Without(s, k) else s
    case Erase(k) => Without(s, k)
  }

  /** s is t with some entries left out. */
  ghost predicate Within<K, V>(s: seq<Entry<K, V>>, t: seq<Entry<K, V>>) {
    if s == [] then true
    else if t == [] then false
    else if s[0] == t[0] then Within(s[1..], t[1..])
    else Within(s, t[1..])
  }

  lemma {:induction false} WithinHolds<K, V>(s: seq<Entry<K, V>>, t: seq<Entry<K, V>>, k: K)
    requires Within(s, t) && Holds(s, k)
    ensures Holds(t, k)
    decreases |t|
  {
    if s[0] == t[0] {
      if s[0].key != k {
        HoldsRest(s, k);
        WithinHolds(s[1..], t[1..], k);
        HoldsRest(t, k);
      }
    } else {
      WithinHolds(s, t[1..], k);
      if t[0].key != k {
        HoldsRest(t, k);
      }
    }
  }

  /** Leaving out one more entry at the head of the longer list. */
  lemma {:induction false} WithinTail<K, V>(s: seq<Entry<K, V>>, t: seq<Entry<K, V>>)
    requires s != [] && Within(s, t)
    ensures Within(s[1..], t)
    decreases |t|
  {
    if s[0] != t[0] {
      WithinTail(s, t[1..]);
      WithinSkip(s[1..], t);
    } else {
      WithinSkip(s[1..], t);
    }
  }

  lemma {:induction false} WithinSkip<K, V>(s: seq<Entry<K, V>>, t: seq<Entry<K, V>>)
    requires t != [] && Within(s, t[1..])
    ensures Within(s, t)
    decreases |t|, 0
  {
    if s != [] && s[0] == t[0] {
      WithinTail(s, t[1..]);
    }
  }

  lemma {:induction false} WithinWithout<K, V>(s: seq<Entry<K, V>>, t: seq<Entry<K, V>>, k: K)
    requires Within(s, t)
    ensures Within(Without(s, k), Without(t, k))
    decreases |t|
  {
    if s != [] {
      if s[0] == t[0] {
        WithinWithout(s[1..], t[1..], k);
      } else {
        WithinWithout(s, t[1..], k);
        if t[0].key != k {
          var w := Without(t, k);
          assert w[1..] == Without(t[1..], k);
          WithinSkip(Without(s, k), w);
        }
      }
    }
  }

  lemma {:induction false} WithinLookup<K, V>(s: seq<Entry<K, V>>, t: seq<Entry<K, V>>, k: K)
    requires Within(s, t) && Distinct(t) && Holds(s, k)
    ensures Lookup(s, k) == Lookup(t, k)
    decreases |t|
  {
    if s[0] == t[0] {
      if s[0].key != k {
        HoldsRest(s, k);
        WithinLookup(s[1..], t[1..], k);
      }
    } else {
      WithinHolds(s, t[1..], k);
      WithinLookup(s, t[1..], k);
    }
  }

  lemma {:induction false} WithinLength<K, V>(s: seq<Entry<K, V>>, t: seq<Entry<K, V>>)
    requires Within(s, t)
    ensures |s| <= |t|
    decreases |t|
  {
    if s != [] {
      if s[0] == t[0] {
        WithinLength(s[1..], t[1..]);
      } else {
        WithinLength(s, t[1..]);
      }
    }
  }

  /** Dropping the last of the shorter list, or of both. */
  lemma {:induction false} WithinFront<K, V>(s: seq<Entry<K, V>>, t: seq<Entry<K, V>>)
    requires s != [] && Within(s, t)
    ensures Within(s[..|s| - 1], t[..|t| - 1])
    decreases |t|
  {
    var a, b := s[..|s| - 1], t[..|t| - 1];
    if s[0] == t[0] {
      if |s| > 1 {
        WithinFront(s[1..], t[1..]);
        assert a[1..] == s[1..][..|s| - 2] && b[1..] == t[1..][..|t| - 2];
      }
    } else {
      WithinFront(s, t[1..]);
      assert b[1..] == t[1..][..|t| - 2];
      if a != [] {
        WithinSkip(a, b);
      }
    }
  }

  lemma {:induction false} WithinDrop<K, V>(s: seq<Entry<K, V>>, t: seq<Entry<K, V>>)
    requires s != [] && Within(s, t)
    ensures Within(s[..|s| - 1], t)
    decreases |t|
  {
    var a := s[..|s| - 1];
    if s[0] == t[0] {
      if |s| > 1 {
        WithinDrop(s[1..], t[1..]);
        assert a[1..] == s[1..][..|s| - 2];
      }
    } else {
      WithinDrop(s, t[1..]);
      if a != [] {
        assert a[0] == s[0];
      }
    }
  }

  /** The smaller cache lies within the larger, and is behind it by no more than the capacities differ. */
  ghost predicate Included<K, V>(s: seq<Entry<K, V>>, m: nat, t: seq<Entry<K, V>>, n: nat) {
    && 0 < m <= n && Distinct(s) && Distinct(t) && Within(s, t)
    && |s| <= m && |t| <= n && |t| - |s| <= n - m
  }

  lemma Promoted<K, V>(s: seq<Entry<K, V>>, t: seq<Entry<K, V>>, k: K, v: V)
    requires Distinct(s) && Distinct(t) && Within(s, t)
    ensures var a, b := [Entry(k, v)] + Without(s, k), [Entry(k, v)] + Without(t, k);
            && Within(a, b) && Distinct(a) && Distinct(b)
            && |a| == |s| + (if Holds(s, k) then 0 else 1) && |b| == |t| + (if Holds(t, k) then 0 else 1)
  {
    WithinWithout(s, t, k);
    WithoutSize(s, k);
    WithoutSize(t, k);
    var a, b := [Entry(k, v)] + Without(s, k), [Entry(k, v)] + Without(t, k);
    assert a[1..] == Without(s, k) && b[1..] == Without(t, k);
  }

  lemma SetIncluded<K, V>(s: seq<Entry<K, V>>, m: nat, t: seq<Entry<K, V>>, n: nat, k: K, v: V)
    requires Included(s, m, t, n)
    ensures Included(After(s, Set(k, v), m), m, After(t, Set(k, v), n), n)
  {
    Promoted(s, t, k, v);
    if Holds(s, k) {
      WithinHolds(s, t, k);
    }
    var a, b := [Entry(k, v)] + Without(s, k), [Entry(k, v)] + Without(t, k);
    hide Within, Without, Holds;
    if !Holds(s, k) {
      WithinDrop(a, b);
      WithinFront(a, b);
    }
  }

  lemma GetIncluded<K, V>(s: seq<Entry<K, V>>, m: nat, t: seq<Entry<K, V>>, n: nat, k: K)
    requires Included(s, m, t, n)
    ensures Included(After(s, Get(k), m), m, After(t, Get(k), n), n)
    ensures Lookup(s, k).Some? ==> Lookup(t, k) == Lookup(s, k)
  {
    LookupHolds(s, k);
    LookupHolds(t, k);
    hide Lookup;
    if Holds(s, k) {
      WithinHolds(s, t, k);
      WithinLookup(s, t, k);
      Promoted(s, t, k, Lookup(s, k).value);
    } else if Holds(t, k) {
      Promoted(s, t, k, Lookup(t, k).value);
      WithoutSize(s, k);
      WithinWithout(s, t, k);
      var b := [Entry(k, Lookup(t, k).value)] + Without(t, k);
      assert b[1..] == Without(t, k);
      WithinSkip(s, b);
    }
  }

  lemma EraseIncluded<K, V>(s: seq<Entry<K, V>>, m: nat, t: seq<Entry<K, V>>, n: nat, k: K)
    requires Included(s, m, t, n)
    ensures Included(After(s, Erase(k), m), m, After(t, Erase(k), n), n)
  {
    WithinWithout(s, t, k);
    WithoutSize(s, k);
    WithoutSize(t, k);
    if Holds(s, k) {
      WithinHolds(s, t, k);
    }
  }

  ghost function AfterAll<K, V>(s: seq<Entry<K, V>>, ops: seq<Op<K, V>>, cap: nat): seq<Entry<K, V>>
    decreases |ops|
  {
    if ops == [] then s else AfterAll(After(s, ops[0], cap), ops[1..], cap)
  }

  /** LRU inclusion over every run: whatever is in the smaller cache is in the larger, in the same order. */
  lemma {:induction false} Inclusion<K, V>(s: seq<Entry<K, V>>, m: nat, t: seq<Entry<K, V>>, n: nat, ops: seq<Op<K, V>>)
    requires Included(s, m, t, n)
    ensures Included(AfterAll(s, ops, m), m, AfterAll(t, ops, n), n)
    decreases |ops|
  {
    hide Included, After;
    if ops != [] {
      match ops[0] {
        case Set(k, v) => SetIncluded(s, m, t, n, k, v);
        case Get(k) => GetIncluded(s, m, t, n, k);
        case Erase(k) => EraseIncluded(s, m, t, n, k);
      }
      Inclusion(After(s, ops[0], m), m, After(t, ops[0], n), n, ops[1..]);
    }
  }

  ghost function Entries<K, V>(index: map<K, V>, lru: seq<K>): (s: seq<Entry<K, V>>)
    requires forall i :: 0 <= i < |lru| ==> lru[i] in index
    ensures |s| == |lru| && forall i :: 0 <= i < |s| ==> s[i] == Entry(lru[i], index[lru[i]])
  {
    seq(|lru|, i requires 0 <= i < |lru| => Entry(lru[i], index[lru[i]]))
  }

  function Removed<K(==)>(lru: seq<K>, k: K): (r: seq<K>)
    ensures (forall x :: x in r ==> x in lru && x != k) && (forall x :: x in lru && x != k ==> x in r)
  {
    if lru == [] then []
    else if lru[0] == k then Removed(lru[1..], k)
    else [lru[0]] + Removed(lru[1..], k)
  }

  lemma {:induction false} RemovedIs<K, V>(index: map<K, V>, lru: seq<K>, k: K)
    requires forall i :: 0 <= i < |lru| ==> lru[i] in index
    ensures forall i :: 0 <= i < |Removed(lru, k)| ==> Removed(lru, k)[i] in index
    ensures Entries(index, Removed(lru, k)) == Without(Entries(index, lru), k)
  {
    var r := Removed(lru, k);
    assert forall i :: 0 <= i < |r| ==> r[i] in r;
    if lru != [] {
      RemovedIs(index, lru[1..], k);
      assert Entries(index, lru)[1..] == Entries(index, lru[1..]);
    }
  }

  lemma {:induction false} LookupIs<K, V>(index: map<K, V>, lru: seq<K>, k: K)
    requires forall i :: 0 <= i < |lru| ==> lru[i] in index
    ensures Lookup(Entries(index, lru), k) == if k in lru then Some(index[k]) else None
  {
    if lru != [] {
      LookupIs(index, lru[1..], k);
      assert Entries(index, lru)[1..] == Entries(index, lru[1..]);
    }
  }

  /** Index and list hold the same keys, each once. */
  ghost predicate Consistent<K, V>(index: map<K, V>, lru: seq<K>) {
    && (forall k :: k in index ==> k in lru) && (forall k :: k in lru ==> k in index)
    && (forall i, j :: 0 <= i < j < |lru| ==> lru[i] != lru[j])
  }

  lemma {:induction false} RemovedOnce<K>(lru: seq<K>, k: K)
    requires forall i, j :: 0 <= i < j < |lru| ==> lru[i] != lru[j]
    ensures var r := Removed(lru, k); forall i, j :: 0 <= i < j < |r| ==> r[i] != r[j]
    ensures k !in lru ==> Removed(lru, k) == lru
  {
    hide Removed;
    if lru != [] {
      RemovedStep(lru, k);
      RemovedOnce(lru[1..], k);
      var r := Removed(lru[1..], k);
      forall j | 0 <= j < |r| ensures r[j] != lru[0] {
        StaysApart(lru, r, r[j]);
      }
    }
    NoneOf(lru, k);
  }

  lemma RemovedStep<K>(lru: seq<K>, k: K)
    requires lru != []
    ensures var r := Removed(lru[1..], k); Removed(lru, k) == if lru[0] == k then r else [lru[0]] + r
  {}

  lemma StaysApart<K>(lru: seq<K>, r: seq<K>, x: K)
    requires lru != [] && x in r && (forall y :: y in r ==> y in lru[1..])
    requires forall j :: 0 < j < |lru| ==> lru[0] != lru[j]
    ensures x != lru[0]
  {
    var i :| 0 <= i < |lru[1..]| && lru[1..][i] == x;
    assert lru[i + 1] == x;
  }

  lemma {:induction false} NoneOf<K>(lru: seq<K>, k: K)
    ensures k !in lru ==> Removed(lru, k) == lru
  {
    if lru != [] {
      NoneOf(lru[1..], k);
      assert lru == [lru[0]] + lru[1..];
    }
  }

  /** An entry put in front, new or not. */
  lemma FrontOk<K, V>(index: map<K, V>, lru: seq<K>, k: K, v: V)
    requires Consistent(index, lru)
    ensures var index', lru' := index[k := v], [k] + Removed(lru, k);
            Consistent(index', lru') && Entries(index', lru') == [Entry(k, v)] + Without(Entries(index, lru), k)
  {
    RemovedOnce(lru, k);
    RemovedIs(index, lru, k);
    var index', r := index[k := v], Removed(lru, k);
    var lru' := [k] + r;
    assert forall i :: 0 <= i < |r| ==> r[i] in r;
    assert Consistent(index', lru');
    assert Entries(index', lru')[1..] == Entries(index, r);
  }

  /** As many of the oldest entries dropped as asked for, or all. */
  ghost function Cut<K, V>(s: seq<Entry<K, V>>, n: nat): seq<Entry<K, V>> {
    s[..if n < |s| then |s| - n else 0]
  }

  lemma CutEnds<K, V>(s: seq<Entry<K, V>>, i: nat, n: nat)
    requires i <= n
    ensures Cut(s, 0) == s && (Cut(s, i) == [] ==> Cut(s, n) == [])
  {}

  lemma CutMore<K, V>(s: seq<Entry<K, V>>, n: nat)
    requires Cut(s, n) != []
    ensures Cut(s, n + 1) == Cut(s, n)[..|Cut(s, n)| - 1]
  {}

  lemma DropLast<K, V>(index: map<K, V>, lru: seq<K>)
    requires Consistent(index, lru) && lru != []
    ensures var k := |lru| - 1;
            Consistent(index - {lru[k]}, lru[..k]) && Entries(index - {lru[k]}, lru[..k]) == Entries(index, lru)[..k]
  {
    var k := |lru| - 1;
    assert lru == lru[..k] + [lru[k]];
    assert forall i :: 0 <= i < k ==> lru[..k][i] == lru[i];
  }

  class Cache<K(==), V> {
    var index: map<K, V>      // index_
    var lru: seq<K>           // lru_, most recent first
    var maxSize: nat
    var clearSize: nat

    ghost predicate Valid()
      reads this
    {
      Consistent(index, lru)
    }

    ghost function List(): seq<Entry<K, V>>
      reads this
      requires Valid()
    {
      Entries(index, lru)
    }

    constructor (maxSize: nat, clearSize: nat)
      ensures Valid() && List() == [] && this.maxSize == maxSize && this.clearSize == clearSize
    {
      index, lru, this.maxSize, this.clearSize := map[], [], maxSize, clearSize;
    }

    lemma Listed()
      requires Valid()
      ensures Distinct(List()) && |List()| == |lru|
      ensures forall k :: Holds(List(), k) <==> k in index
    {
      forall k
        ensures Holds(List(), k) <==> k in index
      {
        LookupIs(index, lru, k);
        LookupHolds(List(), k);
      }
    }

    /** find, and with it get: a found entry moves to the front. */
    method Find(key: K) returns (r: Option<V>)
      requires Valid()
      modifies this`lru
      ensures Valid() && r == Lookup(old(List()), key) && List() == After(old(List()), Get(key), maxSize)
      ensures r.Some? ==> List() != [] && List()[0] == Entry(key, r.value) && List()[1..] == Without(old(List()), key)
      ensures r.None? ==> List() == old(List())
    {
      LookupIs(index, lru, key);
      if key !in index {
        return None;
      }
      FrontOk(index, lru, key, index[key]);
      hide Consistent, Entries, Lookup, Without;
      assert index[key := index[key]] == index;
      lru := [key] + Removed(lru, key);
      r := Some(index[key]);
    }

    method Erase(key: K) returns (found: bool)
      requires Valid()
      modifies this`lru, this`index
      ensures Valid() && found == Holds(old(List()), key) && List() == Without(old(List()), key)
    {
      Listed();
      WithoutSize(List(), key);
      found := key in index;
      if found {
        RemovedIs(index, lru, key);
        RemovedOnce(lru, key);
        ghost var rest := Entries(index, Removed(lru, key));
        lru := Removed(lru, key);
        index := index - {key};
        assert List() == rest;
      }
    }

    /** prune: from the back of the list. */
    method Prune(n: nat)
      requires Valid()
      modifies this`lru, this`index
      ensures Valid() && List() == Cut(old(List()), n)
    {
      hide Consistent, Entries, Cut;
      CutEnds(List(), 0, 0);
      var i := 0;
      while i < n && lru != []
        invariant 0 <= i <= n && Valid() && List() == Cut(old(List()), i)
        decreases n - i
      {
        var last := lru[|lru| - 1];
        DropLast(index, lru);
        CutMore(old(List()), i);
        lru := lru[..|lru| - 1];
        index := index - {last};
        i := i + 1;
      }
      CutEnds(old(List()), i, n);
    }

    method Set(key: K, value: V)
      requires Valid()
      modifies this`lru, this`index
      ensures Valid()
      ensures var t := [Entry(key, value)] + Without(old(List()), key);
              List() == if Holds(old(List()), key) || maxSize == 0 || |t| <= maxSize then t else Cut(t, clearSize)
      ensures maxSize > 0 && clearSize == 1 ==> List() == After(old(List()), Op.Set(key, value), maxSize)
      ensures 0 < maxSize && |old(List())| <= maxSize && clearSize > 0 ==> |List()| <= maxSize
    {
      Listed();
      FrontOk(index, lru, key, value);
      WithoutSize(List(), key);
      if key !in index {
        RemovedOnce(lru, key);
      }
      hide Consistent, Entries, Without, Holds;
      if key in index {
        lru := [key] + Removed(lru, key);
        index := index[key := value];
      } else {
        index := index[key := value];
        lru := [key] + lru;
        if maxSize > 0 && |lru| > maxSize {
          Prune(clearSize);
        }
      }
    }

    method SetMaxSize(size: nat)
      requires Valid()
      modifies this
      ensures Valid() && maxSize == size && clearSize == old(clearSize)
      ensures size == 0 || |old(List())| <= size ==> List() == old(List())
      ensures 0 < size < |old(List())| ==>
                List() == Cut(old(List()), if |old(List())| - size < clearSize then clearSize else |old(List())| - size)
    {
      if size != 0 && size < |lru| {
        Prune(if |lru| - size < clearSize then clearSize else |lru| - size);
      }
      maxSize := size;
    }
  }

  method Perform<K(==), V>(c: Cache<K, V>, op: Op<K, V>) returns (r: Option<V>)
    requires c.Valid() && c.maxSize > 0 && c.clearSize == 1
    modifies c`lru, c`index
    ensures c.Valid() && c.List() == After(old(c.List()), op, c.maxSize)
    ensures op.Get? ==> r == Lookup(old(c.List()), op.key)
  {
    hide Consistent, Entries, After, Lookup;
    r := None;
    match op
    case Set(k, v) => c.Set(k, v);
    case Get(k) => r := c.Find(k);
    case Erase(k) => ErasedIs(c.List(), k, c.maxSize); var found := c.Erase(k);
  }

  lemma ErasedIs<K, V>(s: seq<Entry<K, V>>, k: K, cap: nat)
    ensures After(s, Op.Erase(k), cap) == Without(s, k)
  {}

  lemma StepIncluded<K, V>(s: seq<Entry<K, V>>, m: nat, t: seq<Entry<K, V>>, n: nat, op: Op<K, V>)
    requires Included(s, m, t, n)
    ensures Included(After(s, op, m), m, After(t, op, n), n)
    ensures op.Get? && Lookup(s, op.key).Some? ==> Lookup(t, op.key) == Lookup(s, op.key)
  {
    hide After, Lookup, Distinct, Within;
    match op {
      case Set(k, v) => SetIncluded(s, m, t, n, k, v);
      case Get(k) =>
        GetIncluded(s, m, t, n, k);
        LookupHolds(s, k);
        if Holds(s, k) {
          WithinLookup(s, t, k);
        }
      case Erase(k) => EraseIncluded(s, m, t, n, k);
    }
  }

  /** The same run on two caches: the smaller stays inside the larger, and whatever it finds the larger finds too. */
  method RunBoth<K(==), V>(small: Cache<K, V>, large: Cache<K, V>, ops: seq<Op<K, V>>)
    returns (inSmall: seq<Option<V>>, inLarge: seq<Option<V>>)
    requires small.Valid() && large.Valid() && small != large && small.clearSize == 1 && large.clearSize == 1
    requires Included(small.List(), small.maxSize, large.List(), large.maxSize)
    modifies small`lru, small`index, large`lru, large`index
    ensures small.Valid() && large.Valid()
    ensures Included(small.List(), small.maxSize, large.List(), large.maxSize)
    ensures |inSmall| == |inLarge| == |ops|
    ensures forall i :: 0 <= i < |ops| && ops[i].Get? && inSmall[i].Some? ==> inLarge[i] == inSmall[i]
  {
    hide Consistent, Entries, After, Lookup, Distinct, Within;
    inSmall, inLarge := [], [];
    for i := 0 to |ops|
      invariant small.Valid() && large.Valid()
      invariant Included(small.List(), small.maxSize, large.List(), large.maxSize)
      invariant |inSmall| == |inLarge| == i
      invariant forall j :: 0 <= j < i && ops[j].Get? && inSmall[j].Some? ==> inLarge[j] == inSmall[j]
    {
      StepIncluded(small.List(), small.maxSize, large.List(), large.maxSize, ops[i]);
      var a := Perform(small, ops[i]);
      var b := Perform(large, ops[i]);
      inSmall, inLarge := inSmall + [a], inLarge + [b];
    }
  }
}
