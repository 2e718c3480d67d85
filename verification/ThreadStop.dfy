/** stop() cuts the work short: from the moment the threads are told, each takes at most one more task. */
module ThreadStop {
  import opened ThreadPool

  /** Inside stop(), once threadsToStop_ has been raised. */
  predicate Told(s: State) {
    s.stopping && !s.isJoin && !s.ctl.Setting? && !s.ctl.Adding? && InCall(s)
  }

  /** About to take from the queue, now or after undoing a decrement. */
  predicate Spare(s: State, w: nat) {
    w in s.workers && (s.workers[w].Idle? || s.workers[w].GiveBack?)
  }

  /** A worker that has not given up its share finds threadsToStop_ positive. */
  lemma ShareLeft(s: State, w: nat)
    requires Inv(s) && Told(s) && w in s.workers && OnList(s.workers[w])
    requires !s.workers[w].Leaving? && !s.workers[w].Locked? && !s.workers[w].GiveBack?
    ensures s.toStop > 0
  {
    hide Num, Modal, Conserved, Ordered, Listed;
    Share(s, w);
  }

  /** Where a worker can come from when it is about to take from the queue. */
  lemma SpareBefore(s: State, act: Act, w: nat)
    requires !s.isJoin && Enabled(s, act) && !act.Spawn? && (act.ReadStop? || act.GiveUp? ==> s.toStop > 0)
    ensures Spare(Do(s, act), w) ==> Spare(s, w) && act != Take(w)
  {}

  lemma SpareStep(s: State, act: Act, w: nat)
    requires Inv(s) && Told(s) && Enabled(s, act)
    ensures Spare(Do(s, act), w) ==> Spare(s, w) && act != Take(w)
    ensures act == Take(w) ==> Spare(s, w)
  {
    if act.ReadStop? || act.GiveUp? {
      ShareLeft(s, act.w);
    }
    NoGrowth(s);
    hide Inv;
    SpareBefore(s, act, w);
  }

  lemma NoGrowth(s: State)
    requires Inv(s) && s.stopping
    ensures !s.ctl.Growing?
  {
    hide Num, Modal, Conserved, Ordered, Listed;
  }

  lemma ToldStep(s: State, act: Act)
    requires Told(s) && Enabled(s, act) && !act.Return?
    ensures Told(Do(s, act))
  {
    CallStep(s, act);
  }

  lemma CountFirst(acts: seq<Act>, x: Act)
    requires acts != []
    ensures multiset(acts)[x] == multiset(acts[1..])[x] + One(acts[0] == x)
  {
    assert acts == [acts[0]] + acts[1..];
  }

  /** Nobody takes twice, and whoever was past the queue does not come back to it. */
  lemma {:induction false} TakesOnce(s: State, acts: seq<Act>, w: nat)
    requires Inv(s) && Told(s) && Run(s, acts) && Return !in acts
    ensures multiset(acts)[Take(w)] <= One(Spare(s, w))
    decreases |acts|
  {
    if acts != [] {
      SpareStep(s, acts[0], w);
      InvStep(s, acts[0]);
      ToldStep(s, acts[0]);
      CountFirst(acts, Take(w));
      hide Inv, Told, Do, Enabled, Spare;
      TakesOnce(Do(s, acts[0]), acts[1..], w);
    }
  }

  /** How often anybody takes from the queue. */
  ghost function Takes(acts: seq<Act>): nat {
    if acts == [] then 0 else (if acts[0].Take? then 1 else 0) + Takes(acts[1..])
  }

  /** The workers that take. */
  ghost function Takers(acts: seq<Act>): set<nat> {
    set i | 0 <= i < |acts| && acts[i].Take? :: acts[i].w
  }

  lemma TakersFirst(acts: seq<Act>)
    requires acts != []
    ensures var rest, x := acts[1..], acts[0];
            && Takers(acts) == (if x.Take? then Takers(rest) + {x.w} else Takers(rest))
            && (x.Take? && multiset(rest)[x] == 0 ==> x.w !in Takers(rest))
  {
    var rest := acts[1..];
    assert forall i :: 0 <= i < |rest| ==> rest[i] == acts[i + 1] && rest[i] in multiset(rest);
    assert forall i :: 0 < i < |acts| ==> acts[i] == rest[i - 1];
  }

  /** When each takes at most once, there are as many takes as takers. */
  lemma {:induction false} TakesAreTakers(acts: seq<Act>)
    requires forall w :: multiset(acts)[Take(w)] <= 1
    ensures Takes(acts) == |Takers(acts)|
  {
    if acts != [] {
      forall w ensures multiset(acts[1..])[Take(w)] + One(acts[0] == Take(w)) <= 1 {
        CountFirst(acts, Take(w));
      }
      TakersFirst(acts);
      hide Takers;
      TakesAreTakers(acts[1..]);
    }
  }

  /** Whoever takes was on the list. */
  lemma TakersListed(s: State, acts: seq<Act>)
    requires Listed(s) && forall w :: multiset(acts)[Take(w)] <= One(Spare(s, w))
    ensures Takes(acts) <= |s.list|
  {
    TakesAreTakers(acts);
    forall w | w in Takers(acts) ensures w in s.list {
      var i :| 0 <= i < |acts| && acts[i] == Take(w);
      assert Take(w) in multiset(acts);
    }
    Within(Takers(acts), s.list);
  }

  /** The queue over any run: items leave at the front, one for each take, and come in at the back. */
  lemma {:induction false} QueueRun(s: State, acts: seq<Act>) returns (more: seq<Item>)
    requires Run(s, acts)
    ensures Takes(acts) <= |s.queue + more| && After(s, acts).queue == (s.queue + more)[Takes(acts)..]
    decreases |acts|
  {
    if acts == [] {
      more := [];
      assert s.queue + more == s.queue;
    } else {
      var x := QueueStep(s, acts[0]);
      hide Do, Enabled;
      var rest := QueueRun(Do(s, acts[0]), acts[1..]);
      more := x + rest;
      assert s.queue + more == s.queue + x + rest;
      if acts[0].Take? {
        assert s.queue + more == [s.queue[0]] + (s.queue[1..] + rest);
      }
    }
  }

  lemma QueueStep(s: State, act: Act) returns (x: seq<Item>)
    requires Enabled(s, act)
    ensures if act.Take? then x == [] && s.queue != [] && Do(s, act).queue == s.queue[1..] else Do(s, act).queue == s.queue + x
  {
    x := if act.Add? then [Task(s.next)] else if act.Enqueue? then [Poison] else [];
    assert s.queue + [] == s.queue;
  }

  lemma Telling(s: State)
    requires Inv(s) && s.stopping && Enabled(s, AddStop)
    ensures var u := Do(s, AddStop);
            Inv(u) && Told(u) && u.workers == s.workers && u.list == s.list && u.queue == s.queue
  {
    InvStep(s, AddStop);
    hide Inv;
    assert !s.isJoin by {
      ModeOff(s);
    }
  }

  lemma ModeOff(s: State)
    requires Inv(s) && s.stopping && !s.ctl.Setting?
    ensures !s.isJoin
  {
    hide Num, Balanced, Conserved, Ordered, Listed;
  }

  lemma Waits(s: State, id: nat)
    requires Inv(s) && Task(id) in s.queue
    ensures s.done[id] == 0
  {
    hide Num, Balanced, Modal, Ordered, Listed;
    assert Places(s, id) <= 1;
    assert multiset(s.queue)[Task(id)] >= 1;
  }

  /**
   * From the moment stop() raises threadsToStop_, whatever the threads do until it returns: a worker
   * takes from the queue at most once more, and only if it was on its way there; so there are no more
   * takes than threads, and whatever had as many items before it in the queue is still there, not done.
   */
  lemma StopCutsShort(s: State, acts: seq<Act>)
    requires Inv(s) && s.stopping && Enabled(s, AddStop) && Run(Do(s, AddStop), acts) && Return !in acts
    ensures forall w :: multiset(acts)[Take(w)]
                        <= if w in s.workers && (s.workers[w].Idle? || s.workers[w].GiveBack?) then 1 else 0
    ensures Takes(acts) <= |s.list|
    ensures forall i :: |s.list| <= i < |s.queue| ==> Stays(s.queue, After(Do(s, AddStop), acts), Takes(acts), i)
  {
    hide Do, Enabled, Run, After, Inv, Told, Takes, Listed;
    Telling(s);
    var u := Do(s, AddStop);
    forall w ensures multiset(acts)[Take(w)] <= One(Spare(s, w)) {
      TakesOnce(u, acts, w);
    }
    HasList(s);
    TakersListed(s, acts);
    forall i | |s.list| <= i < |s.queue|
      ensures Stays(s.queue, After(u, acts), Takes(acts), i)
    {
      StaysQueued(u, acts, i);
    }
  }

  lemma HasList(s: State)
    requires Inv(s)
    ensures Listed(s)
  {}

  /** What stood at place i has moved up by n and has not been run. */
  ghost predicate Stays(queue: seq<Item>, t: State, n: nat, i: nat)
    requires i < |queue|
  {
    0 <= i - n < |t.queue| && t.queue[i - n] == queue[i] && (queue[i].Task? ==> t.done[queue[i].id] == 0)
  }

  lemma StaysQueued(u: State, acts: seq<Act>, i: nat)
    requires Inv(u) && Run(u, acts) && Takes(acts) <= i < |u.queue|
    ensures Stays(u.queue, After(u, acts), Takes(acts), i)
  {
    hide Inv, Run, After, Takes;
    RunKeeps(u, acts);
    var more := QueueRun(u, acts);
    var t := After(u, acts);
    assert t.queue[i - Takes(acts)] == (u.queue + more)[i] == u.queue[i];
    if u.queue[i].Task? {
      assert Task(u.queue[i].id) in t.queue;
      Waits(t, u.queue[i].id);
    }
  }

  /** When stop() returns, every task added is done or still queued, never both. */
  lemma DoneOrLeft(t: State, id: nat)
    requires Inv(t) && Enabled(t, Return) && t.stopping && id < t.next
    ensures t.done[id] == 1 <==> Task(id) !in t.queue
  {
    StopEmpties(t);
    DoneOrWaiting(t, id);
  }
}
