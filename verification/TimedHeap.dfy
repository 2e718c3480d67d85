/** The timer heap that erases lazily: stale entries stay until they reach the top. */
module TimedHeap {

  /** Data is an address; 0 is the null pointer. */
  datatype Timeout = Timeout(data: nat, deadline: nat, repeat: bool)

  const NONE := Timeout(0, 0, false)

  /** get_default(map_, t.data) == t: timeouts compare by their deadlines alone. */
  predicate Current(table: map<nat, Timeout>, t: Timeout) {
    (if t.data in table then table[t.data].deadline else NONE.deadline) == t.deadline
  }

  /** An entry the priority queue may have on top: none has an earlier deadline. */
  predicate IsTop(heap: multiset<Timeout>, t: Timeout) {
    t in heap && forall u :: u in heap ==> t.deadline <= u.deadline
  }

  lemma {:induction false} TopExists(heap: multiset<Timeout>) returns (t: Timeout)
    requires heap != multiset{}
    ensures IsTop(heap, t)
    decreases |heap|
  {
    var u :| u in heap;
    var rest := heap - multiset{u};
    if rest == multiset{} {
      t := u;
      assert forall x :: x in heap ==> x == u || x in rest;
    } else {
      var v := TopExists(rest);
      t := if u.deadline <= v.deadline then u else v;
      assert forall x :: x in heap ==> x == u || x in rest;
    }
  }

  /** An entry of deadline zero whose key is gone looks current: the default it is compared with is zero too. */
  ghost predicate Phantom(table: map<nat, Timeout>, heap: multiset<Timeout>) {
    exists t :: t in heap && t.deadline == 0 && t.data !in table
  }

  /** Pop hands out live keys only, exactly when there is no such entry. */
  lemma LiveKeysOnly(table: map<nat, Timeout>, heap: multiset<Timeout>)
    ensures (forall t :: IsTop(heap, t) && Current(table, t) ==> t.data in table) <==> !Phantom(table, heap)
  {
    if Phantom(table, heap) {
      var t :| t in heap && t.deadline == 0 && t.data !in table;
      assert IsTop(heap, t) && Current(table, t);
    }
  }

  /** Every live key has its timeout in the heap, and the null pointer is nobody's key. */
  ghost predicate Covered(table: map<nat, Timeout>, heap: multiset<Timeout>) {
    && (forall k :: k in table ==> table[k].data == k && table[k] in heap)
    && (forall t :: t in heap ==> t.data != 0)
  }

  /** What pop may hand out: an entry that looks current, of least deadline among those, when that has passed. */
  ghost predicate CanHandOut(table: map<nat, Timeout>, heap: multiset<Timeout>, now: nat, t: Timeout) {
    && t in heap && Current(table, t) && t.deadline <= now
    && (forall s :: s in heap && Current(table, s) ==> t.deadline <= s.deadline)
  }

  ghost predicate NothingToHandOut(table: map<nat, Timeout>, heap: multiset<Timeout>, now: nat) {
    forall s :: s in heap && Current(table, s) ==> s.deadline > now
  }

  /** The key is live, the deadline is its own, the least of all and passed. */
  ghost predicate Due(table: map<nat, Timeout>, now: nat, t: Timeout) {
    && t.data in table && table[t.data].deadline == t.deadline <= now
    && (forall k :: k in table ==> t.deadline <= table[k].deadline)
  }

  /** Without phantoms what is handed out depends on the table alone, but for the flag. */
  lemma HandsOutDue(table: map<nat, Timeout>, heap: multiset<Timeout>, now: nat, t: Timeout)
    requires Covered(table, heap) && !Phantom(table, heap)
    ensures CanHandOut(table, heap, now, t) <==> t in heap && Due(table, now, t)
  {
    if CanHandOut(table, heap, now, t) {
      assert t.data in table;
      forall k | k in table ensures t.deadline <= table[k].deadline {
        assert table[k] in heap && Current(table, table[k]);
      }
    }
  }

  lemma NothingIsDue(table: map<nat, Timeout>, heap: multiset<Timeout>, now: nat)
    requires Covered(table, heap) && !Phantom(table, heap)
    ensures NothingToHandOut(table, heap, now) <==> forall k :: k in table ==> table[k].deadline > now
  {
    if NothingToHandOut(table, heap, now) {
      forall k | k in table ensures table[k].deadline > now {
        assert table[k] in heap && Current(table, table[k]);
      }
    }
  }

  /** Entries with one key and one deadline have one flag. */
  ghost predicate OneFlag(heap: multiset<Timeout>) {
    forall s, t :: s in heap && t in heap ==> Agree(s, t)
  }

  /** A push keeps that exactly when no entry of its key and deadline has the other flag. */
  lemma PushKeepsFlags(heap: multiset<Timeout>, v: Timeout)
    requires OneFlag(heap)
    ensures OneFlag(heap + multiset{v})
            <==> forall t :: t in heap ==> Agree(t, v)
  {
    var after := heap + multiset{v};
    assert v in after && forall t :: t in after <==> t in heap || t == v;
  }

  /**
   * Every answer open to pop is the timeout last pushed for its key exactly
   * when no entry for a key that is due first has that deadline and another flag.
   */
  lemma FlagExactly(table: map<nat, Timeout>, heap: multiset<Timeout>, now: nat)
    requires Covered(table, heap) && !Phantom(table, heap)
    ensures (forall t :: CanHandOut(table, heap, now, t) ==> t.data in table && t == table[t.data])
            <==> (forall t :: t in heap && Due(table, now, t) ==> t == table[t.data])
  {
    hide CanHandOut, Phantom, Covered, Due;
    forall t ensures CanHandOut(table, heap, now, t) <==> t in heap && Due(table, now, t) {
      HandsOutDue(table, heap, now, t);
    }
    DueIsLive(table, now);
  }

  lemma DueIsLive(table: map<nat, Timeout>, now: nat)
    ensures forall t :: Due(table, now, t) ==> t.data in table
  {}

  lemma FlagsDecide(table: map<nat, Timeout>, heap: multiset<Timeout>, now: nat, t: Timeout)
    requires Covered(table, heap) && !Phantom(table, heap) && OneFlag(heap) && CanHandOut(table, heap, now, t)
    ensures t.data in table && t == table[t.data]
  {}

  lemma Pushed(table: map<nat, Timeout>, heap: multiset<Timeout>, v: Timeout)
    requires Covered(table, heap) && v.data != 0
    ensures Covered(table[v.data := v], heap + multiset{v})
  {
    forall k | k in table && k != v.data
      ensures table[k] in heap + multiset{v}
    {
      assert (heap + multiset{v})[table[k]] >= heap[table[k]];
    }
  }

  /** A current top leaves with its key: the others stay covered. */
  lemma HandedOut(table: map<nat, Timeout>, heap: multiset<Timeout>, t: Timeout)
    requires Covered(table, heap) && Current(table, t)
    ensures Covered(table - {t.data}, heap - multiset{t})
  {}

  /** A stale entry is nobody's timeout. */
  lemma Discarded(table: map<nat, Timeout>, heap: multiset<Timeout>, t: Timeout)
    requires Covered(table, heap) && !Current(table, t)
    ensures Covered(table, heap - multiset{t})
  {}

  /** What has been discarded so far was stale. */
  ghost predicate OnlyStaleGone(table: map<nat, Timeout>, before: multiset<Timeout>, heap: multiset<Timeout>) {
    heap <= before && forall s :: s in before && Current(table, s) ==> s in heap
  }

  lemma OneMoreGone(table: map<nat, Timeout>, before: multiset<Timeout>, heap: multiset<Timeout>, t: Timeout)
    requires OnlyStaleGone(table, before, heap) && !Current(table, t)
    ensures OnlyStaleGone(table, before, heap - multiset{t})
  {}

  lemma TopDecides(table: map<nat, Timeout>, before: multiset<Timeout>, heap: multiset<Timeout>, t: Timeout, now: nat)
    requires OnlyStaleGone(table, before, heap) && IsTop(heap, t) && Current(table, t)
    ensures if t.deadline <= now then CanHandOut(table, before, now, t) else NothingToHandOut(table, before, now)
  {}

  class Heap {
    var table: map<nat, Timeout>     // map_
    var heap: multiset<Timeout>      // heap_

    ghost predicate Valid()
      reads this
    {
      Covered(table, heap)
    }

    /** No deadline is zero, which rules phantoms out for good. */
    ghost predicate Positive()
      reads this
    {
      forall t :: t in heap ==> t.deadline > 0
    }

    constructor ()
      ensures Valid() && table == map[] && heap == multiset{}
    {
      table, heap := map[], multiset{};
    }

    method Push(v: Timeout)
      requires Valid()
      modifies this
      ensures Valid()
      ensures table == if v.data == 0 then old(table) else old(table)[v.data := v]
      ensures heap == if v.data == 0 then old(heap) else old(heap) + multiset{v}
    {
      if v.data == 0 {
        return;
      }
      Pushed(table, heap, v);
      hide Covered;
      table := table[v.data := v];
      heap := heap + multiset{v};
    }

    /** Erasing leaves the heap alone. */
    method Erase(k: nat)
      requires Valid()
      modifies this
      ensures Valid() && table == old(table) - {k} && heap == old(heap)
    {
      if k == 0 {
        assert 0 !in table;
        return;
      }
      table := table - {k};
    }

    method Top() returns (t: Timeout)
      requires heap != multiset{}
      ensures IsTop(heap, t)
    {
      ghost var w := TopExists(heap);
      t :| IsTop(heap, t);
    }

    /** One of the timeouts that can be handed out leaves, or there is none and no key goes. */
    method Pop(now: nat) returns (t: Timeout)
      requires Valid()
      modifies this
      ensures Valid() && heap <= old(heap)
      ensures t == NONE ==> table == old(table) && NothingToHandOut(old(table), old(heap), now)
      ensures t != NONE ==> table == old(table) - {t.data} && CanHandOut(old(table), old(heap), now, t)
    {
      hide Covered, Current, CanHandOut, NothingToHandOut;
      while heap != multiset{}
        invariant Valid() && table == old(table) && OnlyStaleGone(table, old(heap), heap)
        decreases |heap|
      {
        t := Top();
        if Current(table, t) {
          TopDecides(table, old(heap), heap, t, now);
          if t.deadline <= now {
            HandedOut(table, heap, t);
            NotNull(table, heap, t);
            table := table - {t.data};
            heap := heap - multiset{t};
            return;
          }
          return NONE;
        } else {
          Discarded(table, heap, t);
          OneMoreGone(table, old(heap), heap, t);
          heap := heap - multiset{t};
        }
      }
      NoneLeft(table, old(heap), now);
      t := NONE;
    }
  }

  lemma NotNull(table: map<nat, Timeout>, heap: multiset<Timeout>, t: Timeout)
    requires Covered(table, heap) && t in heap
    ensures t != NONE
  {}

  lemma NoneLeft(table: map<nat, Timeout>, before: multiset<Timeout>, now: nat)
    requires OnlyStaleGone(table, before, multiset{})
    ensures NothingToHandOut(table, before, now)
  {}

  /** Push with deadline zero, erase, pop: the erased key comes back. */
  method ErasedComesBack(k: nat, repeat: bool, now: nat) returns (before: map<nat, Timeout>, t: Timeout)
    requires k != 0
    ensures k !in before && t == Timeout(k, 0, repeat)
  {
    var v := Timeout(k, 0, repeat);
    var heap := new Heap();
    heap.Push(v);
    heap.Erase(k);
    before := heap.table;
    assert v in heap.heap && Current(heap.table, v);
    t := heap.Pop(now);
  }

  /** Two pushes with one deadline and different flags: pop may hand out the older one. */
  method StaleFlag(k: nat, deadline: nat, repeat: bool) returns (heap: Heap)
    requires k != 0
    ensures heap.Valid() && heap.table == map[k := Timeout(k, deadline, !repeat)]
    ensures CanHandOut(heap.table, heap.heap, deadline, Timeout(k, deadline, repeat))
  {
    heap := new Heap();
    heap.Push(Timeout(k, deadline, repeat));
    heap.Push(Timeout(k, deadline, !repeat));
  }

  datatype Op = Push(v: Timeout) | Erase(k: nat) | Pop(now: nat)

  /** What a plain map from key to timeout does in one operation; several keys may be due first. */
  ghost predicate PlainStep(m: map<nat, Timeout>, op: Op, answer: Timeout, n: map<nat, Timeout>) {
    match op
    case Push(v) => n == (if v.data == 0 then m else m[v.data := v])
    case Erase(k) => n == m - {k}
    case Pop(now) =>
      if answer == NONE then n == m && forall k :: k in m ==> m[k].deadline > now
      else n == m - {answer.data} && Due(m, now, answer)
  }

  /** The answer is the timeout last pushed for its key, flag and all. */
  predicate Whole(m: map<nat, Timeout>, answer: Timeout) {
    answer == NONE || (answer.data in m && answer == m[answer.data])
  }

  method Perform(heap: Heap, op: Op) returns (answer: Timeout)
    requires heap.Valid() && heap.Positive() && (op.Push? ==> op.v.deadline > 0)
    modifies heap
    ensures heap.Valid() && heap.Positive() && PlainStep(old(heap.table), op, answer, heap.table)
    ensures forall t :: t in heap.heap ==> t in old(heap.heap) || (op.Push? && t == op.v)
    ensures old(OneFlag(heap.heap)) ==> Whole(old(heap.table), answer)
  {
    answer := NONE;
    match op
    case Push(v) => heap.Push(v);
    case Erase(k) => heap.Erase(k);
    case Pop(now) =>
      ghost var table, entries := heap.table, heap.heap;
      answer := heap.Pop(now);
      Answered(table, entries, now, answer);
  }

  lemma Answered(table: map<nat, Timeout>, heap: multiset<Timeout>, now: nat, answer: Timeout)
    requires Covered(table, heap) && forall t :: t in heap ==> t.deadline > 0
    requires if answer == NONE then NothingToHandOut(table, heap, now) else CanHandOut(table, heap, now, answer)
    ensures if answer == NONE then forall k :: k in table ==> table[k].deadline > now else Due(table, now, answer)
    ensures OneFlag(heap) ==> Whole(table, answer)
  {
    NothingIsDue(table, heap, now);
    HandsOutDue(table, heap, now, answer);
  }

  predicate Agree(s: Timeout, t: Timeout) {
    s.data == t.data && s.deadline == t.deadline ==> s == t
  }

  /** Pushes for one key and deadline agree on the flag, among themselves and with what the heap holds. */
  ghost predicate Agreeing(heap: multiset<Timeout>, ops: seq<Op>) {
    && OneFlag(heap)
    && (forall i, t :: 0 <= i < |ops| && ops[i].Push? && t in heap ==> Agree(t, ops[i].v))
    && (forall i, j :: 0 <= i < j < |ops| && ops[i].Push? && ops[j].Push? ==> Agree(ops[i].v, ops[j].v))
  }

  /** All that the heap holds comes from the beginning or from one of the operations. */
  ghost predicate FromRun(before: multiset<Timeout>, ops: seq<Op>, heap: multiset<Timeout>) {
    forall t :: t in heap ==> t in before || exists i :: 0 <= i < |ops| && ops[i].Push? && ops[i].v == t
  }

  lemma AgreeingFlags(before: multiset<Timeout>, ops: seq<Op>, n: nat, heap: multiset<Timeout>)
    requires n <= |ops| && Agreeing(before, ops) && FromRun(before, ops[..n], heap)
    ensures OneFlag(heap)
  {}

  lemma RunGrows(before: multiset<Timeout>, ops: seq<Op>, n: nat, heap: multiset<Timeout>, after: multiset<Timeout>)
    requires n < |ops| && FromRun(before, ops[..n], heap)
    requires forall t :: t in after ==> t in heap || (ops[n].Push? && t == ops[n].v)
    ensures FromRun(before, ops[..n + 1], after)
  {
    var run := ops[..n + 1];
    forall t | t in after ensures t in before || exists i :: 0 <= i < |run| && run[i].Push? && run[i].v == t {
      if t in heap && t !in before {
        var i :| 0 <= i < n && ops[..n][i].Push? && ops[..n][i].v == t;
        assert run[i] == ops[i];
      } else if t !in heap {
        assert run[n] == ops[n];
      }
    }
  }

  /**
   * Over any run with positive deadlines the heap is a plain map, whatever
   * stale entries it gathers; with agreeing flags the answers are whole.
   */
  method Replay(heap: Heap, ops: seq<Op>) returns (answers: seq<Timeout>, ghost states: seq<map<nat, Timeout>>)
    requires heap.Valid() && heap.Positive() && forall i :: 0 <= i < |ops| && ops[i].Push? ==> ops[i].v.deadline > 0
    modifies heap
    ensures heap.Valid() && heap.Positive() && |answers| == |ops| && |states| == |ops| + 1
    ensures states[0] == old(heap.table) && states[|ops|] == heap.table
    ensures forall i :: 0 <= i < |ops| ==> PlainStep(states[i], ops[i], answers[i], states[i + 1])
    ensures old(Agreeing(heap.heap, ops)) ==> forall i :: 0 <= i < |ops| ==> Whole(states[i], answers[i])
  {
    hide Covered, PlainStep, Agreeing, FromRun, OneFlag, Whole;
    answers, states := [], [heap.table];
    Nothing(heap.heap, ops);
    while |answers| < |ops|
      invariant heap.Valid() && heap.Positive() && |answers| <= |ops| && |states| == |answers| + 1
      invariant states[0] == old(heap.table) && states[|answers|] == heap.table
      invariant forall i :: 0 <= i < |answers| ==> PlainStep(states[i], ops[i], answers[i], states[i + 1])
      invariant FromRun(old(heap.heap), ops[..|answers|], heap.heap)
      invariant old(Agreeing(heap.heap, ops)) ==> forall i :: 0 <= i < |answers| ==> Whole(states[i], answers[i])
    {
      var n := |answers|;
      ghost var entries := heap.heap;
      if old(Agreeing(heap.heap, ops)) {
        AgreeingFlags(old(heap.heap), ops, n, entries);
      }
      var answer := Perform(heap, ops[n]);
      RunGrows(old(heap.heap), ops, n, entries, heap.heap);
      answers, states := answers + [answer], states + [heap.table];
    }
  }

  lemma Nothing(heap: multiset<Timeout>, ops: seq<Op>)
    ensures FromRun(heap, ops[..0], heap)
  {}
}
