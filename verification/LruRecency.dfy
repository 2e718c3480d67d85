/** The LRU cache told by its operations and their answers alone. */
module LruRecency {
  import opened Options
  import opened Lru

  /** A set, or a get that found something. */
  ghost predicate Touches<K, V>(op: Op<K, V>, answer: Option<V>, k: K) {
    op.key == k && (op.Set? || (op.Get? && answer.Some?))
  }

  /** When a key was last set or found, or -1. */
  ghost function LastTouch<K, V>(ops: seq<Op<K, V>>, answers: seq<Option<V>>, k: K): (t: int)
    requires |ops| == |answers|
    ensures -1 <= t < |ops| && (t >= 0 ==> Touches(ops[t], answers[t], k))
    ensures forall i :: t < i < |ops| ==> !Touches(ops[i], answers[i], k)
    decreases |ops|
  {
    if ops == [] then -1
    else
      var n := |ops| - 1;
      if Touches(ops[n], answers[n], k) then n else LastTouch(ops[..n], answers[..n], k)
  }

  /** When a key was last set, or -1. */
  ghost function LastSet<K, V>(ops: seq<Op<K, V>>, k: K): (t: int)
    ensures -1 <= t < |ops| && (t >= 0 ==> ops[t].Set? && ops[t].key == k)
    ensures forall i :: t < i < |ops| ==> !(ops[i].Set? && ops[i].key == k)
    decreases |ops|
  {
    if ops == [] then -1
    else
      var n := |ops| - 1;
      if ops[n].Set? && ops[n].key == k then n else LastSet(ops[..n], k)
  }

  /** The list has the latest touched key first, and every key the value it was last given. */
  ghost predicate ByRecency<K, V>(list: seq<Entry<K, V>>, ops: seq<Op<K, V>>, answers: seq<Option<V>>)
    requires |ops| == |answers|
  {
    && (forall i, j :: 0 <= i < j < |list| ==> LastTouch(ops, answers, list[i].key) > LastTouch(ops, answers, list[j].key))
    && (forall i :: 0 <= i < |list| ==> LastTouch(ops, answers, list[i].key) >= 0)
    && (forall i :: 0 <= i < |list| ==> IsLastValue(ops, list[i].key, list[i].value))
  }

  ghost predicate IsLastValue<K, V>(ops: seq<Op<K, V>>, k: K, v: V) {
    LastSet(ops, k) >= 0 && ops[LastSet(ops, k)].value == v
  }

  /**
   * What one operation makes of the keys. A set of a new key beyond the capacity drops clearSize keys,
   * every one of them last touched before all that stay; ops and answers include the operation.
   */
  ghost predicate KeysStep<K, V>(keys: set<K>, op: Op<K, V>, after: set<K>, ops: seq<Op<K, V>>, answers: seq<Option<V>>,
                                 maxSize: nat, clearSize: nat)
    requires |ops| == |answers|
  {
    match op
    case Get(_) => after == keys
    case Erase(k) => after == keys - {k}
    case Set(k, _) =>
      var all := keys + {k};
      if k in keys || maxSize == 0 || |all| <= maxSize then after == all
      else
        && after <= all && |after| == (if clearSize < |all| then |all| - clearSize else 0)
        && LongestUnused(all - after, after, ops, answers)
  }

  /** Each of these keys was last touched before each of those. */
  ghost predicate LongestUnused<K, V>(these: set<K>, those: set<K>, ops: seq<Op<K, V>>, answers: seq<Option<V>>)
    requires |ops| == |answers|
  {
    forall x, y :: x in these && y in those ==> LastTouch(ops, answers, x) < LastTouch(ops, answers, y)
  }

  /** A whole run: keys[i] is what the cache holds before operation i. */
  ghost predicate IsLru<K, V>(ops: seq<Op<K, V>>, answers: seq<Option<V>>, keys: seq<set<K>>, maxSize: nat, clearSize: nat)
    decreases |ops|
  {
    && |answers| == |ops| && |keys| == |ops| + 1
    && if ops == [] then keys[0] == {}
       else
         var n := |ops| - 1;
         && IsLru(ops[..n], answers[..n], keys[..n + 1], maxSize, clearSize)
         && KeysStep(keys[n], ops[n], keys[n + 1], ops, answers, maxSize, clearSize)
         && Answers(ops[..n], ops[n], answers[n], keys[n])
  }

  /** A get finds what was last set, as long as the key is held; the others answer nothing. */
  ghost predicate Answers<K, V>(before: seq<Op<K, V>>, op: Op<K, V>, answer: Option<V>, keys: set<K>) {
    && (answer.Some? <==> op.Get? && op.key in keys)
    && (answer.Some? ==> IsLastValue(before, op.key, answer.value))
  }

  lemma LastTouchNext<K, V>(ops: seq<Op<K, V>>, answers: seq<Option<V>>, op: Op<K, V>, answer: Option<V>, k: K)
    requires |ops| == |answers|
    ensures LastTouch(ops + [op], answers + [answer], k)
            == if Touches(op, answer, k) then |ops| else LastTouch(ops, answers, k)
  {
    assert (ops + [op])[..|ops|] == ops && (answers + [answer])[..|ops|] == answers;
  }

  lemma LastSetNext<K, V>(ops: seq<Op<K, V>>, op: Op<K, V>, k: K)
    ensures LastSet(ops + [op], k) == if op.Set? && op.key == k then |ops| else LastSet(ops, k)
  {
    assert (ops + [op])[..|ops|] == ops;
  }

  /** Two entries of the thinned list stand in the same order in the full one. */
  lemma {:induction false} WithoutOrder<K, V>(s: seq<Entry<K, V>>, k: K, i: nat, j: nat) returns (a: nat, b: nat)
    requires i < j < |Without(s, k)|
    ensures a < b < |s| && Without(s, k)[i] == s[a] && Without(s, k)[j] == s[b]
    decreases |s|
  {
    var r := Without(s[1..], k);
    if s[0].key == k {
      a, b := WithoutOrder(s[1..], k, i, j);
      a, b := a + 1, b + 1;
    } else if i > 0 {
      a, b := WithoutOrder(s[1..], k, i - 1, j - 1);
      a, b := a + 1, b + 1;
    } else {
      a := 0;
      assert r[j - 1] in s[1..];
      b :| 0 <= b < |s[1..]| && s[1..][b] == r[j - 1];
      b := b + 1;
    }
  }

  /** What an untouched list keeps. */
  lemma Thinned<K, V>(s: seq<Entry<K, V>>, k: K, ops: seq<Op<K, V>>, answers: seq<Option<V>>, op: Op<K, V>, answer: Option<V>)
    requires |ops| == |answers| && ByRecency(s, ops, answers) && op.key == k
    ensures ByRecency(Without(s, k), ops + [op], answers + [answer])
    ensures forall i :: 0 <= i < |Without(s, k)| ==>
              LastTouch(ops + [op], answers + [answer], Without(s, k)[i].key) < |ops|
  {
    hide LastTouch, LastSet, IsLastValue, Without;
    var r := Without(s, k);
    forall i | 0 <= i < |r|
      ensures LastTouch(ops + [op], answers + [answer], r[i].key) == LastTouch(ops, answers, r[i].key)
      ensures 0 <= LastTouch(ops, answers, r[i].key) < |ops| && IsLastValue(ops + [op], r[i].key, r[i].value)
    {
      var a :| 0 <= a < |s| && s[a] == r[i];
      Kept(r[i], ops, answers, op, answer);
    }
    forall i, j | 0 <= i < j < |r|
      ensures LastTouch(ops, answers, r[i].key) > LastTouch(ops, answers, r[j].key)
    {
      var a, b := WithoutOrder(s, k, i, j);
    }
  }

  lemma Kept<K, V>(e: Entry<K, V>, ops: seq<Op<K, V>>, answers: seq<Option<V>>, op: Op<K, V>, answer: Option<V>)
    requires |ops| == |answers| && e.key != op.key && IsLastValue(ops, e.key, e.value)
    ensures LastTouch(ops + [op], answers + [answer], e.key) == LastTouch(ops, answers, e.key)
    ensures IsLastValue(ops + [op], e.key, e.value)
  {
    LastTouchNext(ops, answers, op, answer, e.key);
    LastSetNext(ops, op, e.key);
  }

  /** An entry just touched, in front of the others. */
  lemma InFront<K, V>(s: seq<Entry<K, V>>, k: K, v: V, ops: seq<Op<K, V>>, answers: seq<Option<V>>, op: Op<K, V>, answer: Option<V>)
    requires |ops| == |answers| && ByRecency(s, ops, answers) && op.key == k && Touches(op, answer, k)
    requires IsLastValue(ops + [op], k, v)
    ensures ByRecency([Entry(k, v)] + Without(s, k), ops + [op], answers + [answer])
  {
    Thinned(s, k, ops, answers, op, answer);
    LastTouchNext(ops, answers, op, answer, k);
    Before(Entry(k, v), Without(s, k), ops + [op], answers + [answer]);
  }

  lemma Before<K, V>(e: Entry<K, V>, r: seq<Entry<K, V>>, ops: seq<Op<K, V>>, answers: seq<Option<V>>)
    requires |ops| == |answers| && ByRecency(r, ops, answers)
    requires LastTouch(ops, answers, e.key) >= 0 && IsLastValue(ops, e.key, e.value)
    requires forall i :: 0 <= i < |r| ==> LastTouch(ops, answers, r[i].key) < LastTouch(ops, answers, e.key)
    ensures ByRecency([e] + r, ops, answers)
  {
    hide LastTouch, LastSet, IsLastValue, Touches;
    var t := [e] + r;
    assert forall i :: 0 < i < |t| ==> t[i] == r[i - 1];
  }

  ghost function Keys<K, V>(list: seq<Entry<K, V>>): set<K> {
    set i | 0 <= i < |list| :: list[i].key
  }

  lemma {:induction false} KeyCount<K, V>(list: seq<Entry<K, V>>)
    requires Distinct(list)
    ensures |Keys(list)| == |list|
  {
    if list != [] {
      var n := |list| - 1;
      KeyCount(list[..n]);
      assert forall i :: 0 <= i < n ==> list[..n][i] == list[i];
      assert Keys(list) == Keys(list[..n]) + {list[n].key};
    }
  }

  lemma {:induction false} KeysWithout<K, V>(s: seq<Entry<K, V>>, k: K)
    ensures Keys(Without(s, k)) == Keys(s) - {k}
  {
    if s != [] {
      KeysWithout(s[1..], k);
      KeysFront(s);
      if s[0].key != k {
        var r := Without(s, k);
        KeysFront(r);
        assert r[1..] == Without(s[1..], k);
      }
    }
  }

  lemma KeysFront<K, V>(s: seq<Entry<K, V>>)
    requires s != []
    ensures Keys(s) == {s[0].key} + Keys(s[1..])
  {
    assert forall i :: 0 < i < |s| ==> s[i] == s[1..][i - 1];
    assert forall i :: 0 <= i < |s[1..]| ==> s[1..][i] == s[i + 1];
  }

  /** What a lookup finds stands in the list. */
  lemma {:induction false} Found<K, V>(s: seq<Entry<K, V>>, k: K)
    ensures Lookup(s, k).Some? <==> k in Keys(s)
    ensures Lookup(s, k).Some? ==> exists i :: 0 <= i < |s| && s[i] == Entry(k, Lookup(s, k).value)
  {
    if s != [] {
      KeysFront(s);
      Found(s[1..], k);
      if s[0].key == k {
        assert s[0] == Entry(k, Lookup(s, k).value);
      } else if Lookup(s, k).Some? {
        var i :| 0 <= i < |s[1..]| && s[1..][i] == Entry(k, Lookup(s, k).value);
        assert s[i + 1] == s[1..][i];
      }
    }
  }

  /** The keys once one is put in front. */
  lemma FrontKeys<K, V>(s: seq<Entry<K, V>>, k: K, v: V)
    requires Distinct(s)
    ensures var t := [Entry(k, v)] + Without(s, k);
            Distinct(t) && Keys(t) == Keys(s) + {k} && |Keys(t)| == |t| && (Holds(s, k) <==> k in Keys(s))
  {
    KeysWithout(s, k);
    WithoutSize(s, k);
    var t := [Entry(k, v)] + Without(s, k);
    KeysFront(t);
    assert t[1..] == Without(s, k);
    KeyCount(t);
  }

  lemma GetStep<K, V>(s: seq<Entry<K, V>>, k: K, ops: seq<Op<K, V>>, answers: seq<Option<V>>, maxSize: nat, clearSize: nat)
    requires |ops| == |answers| && ByRecency(s, ops, answers) && Distinct(s)
    ensures var op, answer, t := Op<K, V>.Get(k), Lookup(s, k), After(s, Get(k), maxSize);
            && ByRecency(t, ops + [op], answers + [answer]) && Answers(ops, op, answer, Keys(s))
            && KeysStep(Keys(s), op, Keys(t), ops + [op], answers + [answer], maxSize, clearSize)
  {
    var op, answer := Op<K, V>.Get(k), Lookup(s, k);
    Found(s, k);
    if answer.Some? {
      LastValue(s, k, answer.value, ops, answers);
      LastSetNext(ops, op, k);
      hide ByRecency, LastTouch, LastSet, Keys, Without, Distinct, Lookup, Holds;
      InFront(s, k, answer.value, ops, answers, op, answer);
      FrontKeys(s, k, answer.value);
    } else {
      LookupHolds(s, k);
      WithoutSize(s, k);
      hide ByRecency, LastTouch, LastSet, Keys, Without, Distinct, Lookup, Holds;
      Thinned(s, k, ops, answers, op, answer);
    }
  }

  lemma LastValue<K, V>(s: seq<Entry<K, V>>, k: K, v: V, ops: seq<Op<K, V>>, answers: seq<Option<V>>)
    requires |ops| == |answers| && ByRecency(s, ops, answers) && exists i :: 0 <= i < |s| && s[i] == Entry(k, v)
    ensures IsLastValue(ops, k, v)
  {
    hide IsLastValue, LastTouch;
    var i :| 0 <= i < |s| && s[i] == Entry(k, v);
  }

  lemma EraseStep<K, V>(s: seq<Entry<K, V>>, k: K, ops: seq<Op<K, V>>, answers: seq<Option<V>>, maxSize: nat, clearSize: nat)
    requires |ops| == |answers| && ByRecency(s, ops, answers)
    ensures var op, t := Op<K, V>.Erase(k), Without(s, k);
            && ByRecency(t, ops + [op], answers + [None]) && Answers(ops, op, None, Keys(s))
            && KeysStep(Keys(s), op, Keys(t), ops + [op], answers + [None], maxSize, clearSize)
  {
    Thinned(s, k, ops, answers, Op<K, V>.Erase(k), None);
    KeysWithout(s, k);
  }

  /** Whatever is cut off the end was touched before all that is left. */
  lemma CutKeys<K, V>(t: seq<Entry<K, V>>, n: nat, ops: seq<Op<K, V>>, answers: seq<Option<V>>)
    requires |ops| == |answers| && ByRecency(t, ops, answers) && Distinct(t)
    ensures var r := Cut(t, n);
            && ByRecency(r, ops, answers) && Keys(r) <= Keys(t) && |Keys(t)| == |t|
            && |Keys(r)| == (if n < |t| then |t| - n else 0)
            && LongestUnused(Keys(t) - Keys(r), Keys(r), ops, answers)
  {
    hide LastTouch, IsLastValue;
    var r := Cut(t, n);
    KeyCount(t);
    KeyCount(r);
    assert forall i :: 0 <= i < |r| ==> r[i] == t[i];
    CutOlder(t, r, ops, answers);
  }

  lemma CutOlder<K, V>(t: seq<Entry<K, V>>, r: seq<Entry<K, V>>, ops: seq<Op<K, V>>, answers: seq<Option<V>>)
    requires |ops| == |answers| && ByRecency(t, ops, answers) && r <= t
    ensures Keys(r) <= Keys(t) && LongestUnused(Keys(t) - Keys(r), Keys(r), ops, answers)
  {
    hide LastTouch, IsLastValue;
    assert forall i :: 0 <= i < |r| ==> r[i] == t[i] && t[i].key in Keys(r);
    forall x, y | x in Keys(t) - Keys(r) && y in Keys(r)
      ensures LastTouch(ops, answers, x) < LastTouch(ops, answers, y)
    {
      var i :| 0 <= i < |r| && r[i].key == y;
      var j :| 0 <= j < |t| && t[j].key == x;
    }
  }

  /** The list a set leaves. */
  ghost function AfterSet<K, V>(s: seq<Entry<K, V>>, op: Op<K, V>, maxSize: nat, clearSize: nat): seq<Entry<K, V>>
    requires op.Set?
  {
    var t := [Entry(op.key, op.value)] + Without(s, op.key);
    if Holds(s, op.key) || maxSize == 0 || |t| <= maxSize then t else Cut(t, clearSize)
  }

  lemma SetStep<K, V>(s: seq<Entry<K, V>>, op: Op<K, V>, ops: seq<Op<K, V>>, answers: seq<Option<V>>, maxSize: nat, clearSize: nat)
    requires |ops| == |answers| && ByRecency(s, ops, answers) && Distinct(s) && op.Set?
    ensures var t := AfterSet(s, op, maxSize, clearSize);
            && ByRecency(t, ops + [op], answers + [None])
            && KeysStep(Keys(s), op, Keys(t), ops + [op], answers + [None], maxSize, clearSize)
  {
    LastSetNext(ops, op, op.key);
    InFront(s, op.key, op.value, ops, answers, op, None);
    hide ByRecency, LastTouch, LastSet, Keys, Without, Distinct, Holds, KeysStep, Cut;
    FrontKeys(s, op.key, op.value);
    CutStep(s, [Entry(op.key, op.value)] + Without(s, op.key), op, ops + [op], answers + [None], maxSize, clearSize);
  }

  lemma NoAnswer<K, V>(ops: seq<Op<K, V>>, op: Op<K, V>, keys: set<K>)
    requires !op.Get?
    ensures Answers(ops, op, None, keys)
  {}

  lemma CutStep<K, V>(s: seq<Entry<K, V>>, t: seq<Entry<K, V>>, op: Op<K, V>, ops: seq<Op<K, V>>, answers: seq<Option<V>>,
                      maxSize: nat, clearSize: nat)
    requires |ops| == |answers| && ByRecency(t, ops, answers) && Distinct(t) && op.Set?
    requires Keys(t) == Keys(s) + {op.key} && |Keys(t)| == |t| && (Holds(s, op.key) <==> op.key in Keys(s))
    ensures var r := if Holds(s, op.key) || maxSize == 0 || |t| <= maxSize then t else Cut(t, clearSize);
            ByRecency(r, ops, answers) && KeysStep(Keys(s), op, Keys(r), ops, answers, maxSize, clearSize)
  {
    hide ByRecency, LastTouch, Keys, Distinct, Holds, Cut, LongestUnused;
    CutKeys(t, clearSize, ops, answers);
  }

  /** One operation on the cache, with what came before it. */
  method Serve<K(==), V>(c: Cache<K, V>, op: Op<K, V>, ghost ops: seq<Op<K, V>>, ghost answers: seq<Option<V>>)
    returns (answer: Option<V>)
    requires c.Valid() && |ops| == |answers| && ByRecency(c.List(), ops, answers)
    modifies c`lru, c`index
    ensures c.Valid() && ByRecency(c.List(), ops + [op], answers + [answer])
    ensures Answers(ops, op, answer, old(Keys(c.List())))
    ensures KeysStep(old(Keys(c.List())), op, Keys(c.List()), ops + [op], answers + [answer], c.maxSize, c.clearSize)
  {
    hide Consistent, Entries, Lookup, Without, Keys, KeysStep, Answers, ByRecency;
    c.Listed();
    ghost var s := c.List();
    answer := None;
    match op {
      case Set(k, v) =>
        SetStep(s, op, ops, answers, c.maxSize, c.clearSize);
        NoAnswer(ops, op, Keys(s));
        c.Set(k, v);
      case Get(k) =>
        GetStep(s, k, ops, answers, c.maxSize, c.clearSize);
        answer := c.Find(k);
      case Erase(k) =>
        EraseStep(s, k, ops, answers, c.maxSize, c.clearSize);
        var found := c.Erase(k);
    }
  }

  /**
   * Every run from an empty cache is one of an LRU cache: the list stands in the order of last use, a
   * get finds what was last set, and what has to go is what was used longest ago.
   */
  method Run<K(==), V>(c: Cache<K, V>, ops: seq<Op<K, V>>) returns (answers: seq<Option<V>>, ghost keys: seq<set<K>>)
    requires c.Valid() && c.List() == []
    modifies c`lru, c`index
    ensures c.Valid() && IsLru(ops, answers, keys, c.maxSize, c.clearSize)
    ensures ByRecency(c.List(), ops, answers) && Keys(c.List()) == keys[|ops|]
  {
    hide Consistent, Entries, Keys, KeysStep, Answers;
    answers, keys := [], [{}];
    NoKeys(c.List());
    for i := 0 to |ops|
      invariant c.Valid() && |answers| == i
      invariant IsLru(ops[..i], answers, keys, c.maxSize, c.clearSize)
      invariant ByRecency(c.List(), ops[..i], answers) && Keys(c.List()) == keys[i]
    {
      var answer := Serve(c, ops[i], ops[..i], answers);
      NextIsLru(ops, i, answers, keys, answer, Keys(c.List()), c.maxSize, c.clearSize);
      answers, keys := answers + [answer], keys + [Keys(c.List())];
    }
    assert ops[..|ops|] == ops;
  }

  lemma NoKeys<K, V>(list: seq<Entry<K, V>>)
    requires list == []
    ensures Keys(list) == {} && ByRecency(list, [], [])
  {}

  lemma NextIsLru<K, V>(ops: seq<Op<K, V>>, i: nat, answers: seq<Option<V>>, keys: seq<set<K>>, answer: Option<V>, after: set<K>,
                        maxSize: nat, clearSize: nat)
    requires i < |ops| && IsLru(ops[..i], answers, keys, maxSize, clearSize)
    requires Answers(ops[..i], ops[i], answer, keys[i])
    requires KeysStep(keys[i], ops[i], after, ops[..i] + [ops[i]], answers + [answer], maxSize, clearSize)
    ensures ops[..i + 1] == ops[..i] + [ops[i]]
    ensures IsLru(ops[..i + 1], answers + [answer], keys + [after], maxSize, clearSize)
  {
    var run, replies, held := ops[..i + 1], answers + [answer], keys + [after];
    assert run == ops[..i] + [ops[i]] && run[..i] == ops[..i];
    assert replies[..i] == answers && held[..i + 1] == keys;
  }

  /** Two choices of as many keys, each leaving only keys used more recently, are the same. */
  lemma OneChoice<K, V>(all: set<K>, a: set<K>, b: set<K>, ops: seq<Op<K, V>>, answers: seq<Option<V>>)
    requires a <= all && b <= all && |a| == |b| && |ops| == |answers|
    requires LongestUnused(all - a, a, ops, answers) && LongestUnused(all - b, b, ops, answers)
    ensures a == b
  {
    if a - b == {} {
      assert forall x :: x in a ==> x in b || x in a - b;
      Same(a, b);
    } else {
      var x :| x in a - b;
      forall y | y in b ensures y in a {
        NotBoth(all, a, b, ops, answers, x, y);
      }
      Same(b, a);
    }
  }

  lemma NotBoth<K, V>(all: set<K>, a: set<K>, b: set<K>, ops: seq<Op<K, V>>, answers: seq<Option<V>>, x: K, y: K)
    requires a <= all && b <= all && |ops| == |answers|
    requires LongestUnused(all - a, a, ops, answers) && LongestUnused(all - b, b, ops, answers)
    ensures !(x in a - b && y in b - a)
  {
    hide LastTouch;
    assert x in a - b && y in b - a ==> x in all - b && y in all - a;
  }

  lemma {:induction false} Smaller<K>(a: set<K>, b: set<K>)
    requires a <= b
    ensures |a| <= |b|
  {
    if a != {} {
      var x :| x in a;
      Smaller(a - {x}, b - {x});
    }
  }

  lemma Same<K>(a: set<K>, b: set<K>)
    requires a <= b && |a| == |b|
    ensures a == b
  {
    if x :| x in b && x !in a {
      Smaller(a, b - {x});
      assert false;
    }
  }

  /** The operations decide every answer and everything that is held. */
  lemma {:induction false} OneRun<K, V>(ops: seq<Op<K, V>>, a: seq<Option<V>>, p: seq<set<K>>, b: seq<Option<V>>, q: seq<set<K>>,
                                        maxSize: nat, clearSize: nat)
    requires IsLru(ops, a, p, maxSize, clearSize) && IsLru(ops, b, q, maxSize, clearSize)
    ensures a == b && p == q
    decreases |ops|
  {
    if ops != [] {
      var n := |ops| - 1;
      OneRun(ops[..n], a[..n], p[..n + 1], b[..n], q[..n + 1], maxSize, clearSize);
      assert p[n] == p[..n + 1][n] && q[n] == q[..n + 1][n];
      assert a[n] == b[n];
      assert a == a[..n] + [a[n]] && b == b[..n] + [b[n]];
      OneStep(p[n], ops[n], p[n + 1], q[n + 1], ops, a, maxSize, clearSize);
      assert p == p[..n + 1] + [p[n + 1]] && q == q[..n + 1] + [q[n + 1]];
    }
  }

  lemma OneStep<K, V>(keys: set<K>, op: Op<K, V>, a: set<K>, b: set<K>, ops: seq<Op<K, V>>, answers: seq<Option<V>>,
                      maxSize: nat, clearSize: nat)
    requires |ops| == |answers| && KeysStep(keys, op, a, ops, answers, maxSize, clearSize)
    requires KeysStep(keys, op, b, ops, answers, maxSize, clearSize)
    ensures a == b
  {
    hide LongestUnused, LastTouch;
    if op.Set? && !(op.key in keys || maxSize == 0 || |keys + {op.key}| <= maxSize) {
      OneChoice(keys + {op.key}, a, b, ops, answers);
    }
  }
}
