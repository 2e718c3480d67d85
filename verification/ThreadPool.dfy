/**
 * Growing, shrinking, joining and stopping a CPUThreadPoolExecutor, one atomic
 * step at a time and in any order the threads may take.
 */
module ThreadPool {

  /** Where a worker is in threadRun. */
  datatype Pc =
    | Idle              // about to take from the queue
    | Running(task: nat)
    | AtCheck           // about to read threadsToStop_ after a task
    | SawStop           // has read it as positive, about to read isJoin_
    | Giving            // about to decrement it without a poison
    | GiveBack          // found it negative, about to increment it again
    | Poisoned          // holds a poison, about to decrement it
    | Leaving           // about to lock the thread list
    | Locked
    | Removed           // off the list
    | Reported          // in the queue of stopped threads, still holding the lock
    | Exited

  datatype Item = Task(id: nat) | Poison

  datatype Holder = Free | Worker(w: nat) | Controller

  datatype Call = Join | Stop | Resize(n: nat)

  /** Where the thread that changes the pool is. */
  datatype Ctl =
    | Ready
    | Waiting(call: Call)
    | Setting           // removeThreads: about to set isJoin_
    | Adding            // stopThreads: about to raise threadsToStop_
    | Poisoning(left: nat)
    | Growing(left: nat)
    | Releasing
    | Collecting
    | Joining(w: nat)
    | Finished

  datatype State = State(
    workers: map<nat, Pc>,
    list: set<nat>,        // threadList_
    stopped: seq<nat>,     // stoppedThreads_
    queue: seq<Item>,      // taskQueue_
    toStop: int,           // threadsToStop_
    isJoin: bool,          // isJoin_
    lock: Holder,          // threadListLock_
    ctl: Ctl,
    done: multiset<nat>,   // tasks run or expired
    next: nat,             // tasks added so far
    crashed: bool,         // a check has failed
    batch: nat,            // threads the present call removes
    collected: nat,        // of them, taken from stoppedThreads_
    target: nat,           // threads to be left
    mark: nat,             // tasks added before the call got the lock
    stopping: bool)        // the call is stop()

  datatype Act =
    | Take(w: nat) | Finish(w: nat) | ReadStop(w: nat) | ReadJoin(w: nat) | GiveUp(w: nat) | Restore(w: nat)
    | Decrement(w: nat) | Acquire(w: nat) | Remove(w: nat) | Report(w: nat) | Exit(w: nat)
    | Add
    | Invoke(call: Call) | Enter | SetMode | AddStop | Enqueue | Spawn(w: nat) | Release | Collect | JoinThread | Return

  predicate Is(s: State, w: nat, pc: Pc) {
    w in s.workers && s.workers[w] == pc
  }

  predicate Enabled(s: State, act: Act) {
    match act
    case Take(w) => Is(s, w, Idle) && s.queue != []
    case Finish(w) => w in s.workers && s.workers[w].Running?
    case ReadStop(w) => Is(s, w, AtCheck)
    case ReadJoin(w) => Is(s, w, SawStop)
    case GiveUp(w) => Is(s, w, Giving)
    case Restore(w) => Is(s, w, GiveBack)
    case Decrement(w) => Is(s, w, Poisoned)
    case Acquire(w) => Is(s, w, Leaving) && s.lock == Free
    case Remove(w) => Is(s, w, Locked)
    case Report(w) => Is(s, w, Removed)
    case Exit(w) => Is(s, w, Reported)
    case Add => true
    case Invoke(_) => s.ctl == Ready
    case Enter => s.ctl.Waiting? && s.lock == Free
    case SetMode => s.ctl == Setting
    case AddStop => s.ctl == Adding
    case Enqueue => s.ctl.Poisoning? && s.ctl.left > 0
    case Spawn(w) => s.ctl.Growing? && s.ctl.left > 0 && w !in s.workers
    case Release => s.ctl == Releasing || s.ctl == Poisoning(0) || s.ctl == Growing(0)
    case Collect => s.ctl == Collecting && s.collected < s.batch && s.stopped != []
    case JoinThread => s.ctl.Joining? && Is(s, s.ctl.w, Exited)
    case Return => s.ctl == Collecting && s.collected == s.batch
  }

  function Go(s: State, w: nat, pc: Pc): State {
    s.(workers := s.workers[w := pc])
  }

  /** The steps of a worker, lines 75 to 98 of its loop. */
  function WorkerStep(s: State, act: Act): State
    requires Enabled(s, act)
    requires act.Take? || act.Finish? || act.ReadStop? || act.ReadJoin? || act.GiveUp? || act.Restore? || act.Decrement?
  {
    match act
    case Take(w) =>
      var t := Go(s, w, if s.queue[0].Poison? then Poisoned else Running(s.queue[0].id));
      t.(queue := s.queue[1..])
    case Finish(w) => Go(s, w, AtCheck).(done := s.done + multiset{s.workers[w].task})
    case ReadStop(w) => Go(s, w, if s.toStop > 0 then SawStop else Idle)
    case ReadJoin(w) => Go(s, w, if s.isJoin then Idle else Giving)
    case GiveUp(w) => Go(s, w, if s.toStop - 1 >= 0 then Leaving else GiveBack).(toStop := s.toStop - 1)
    case Restore(w) => Go(s, w, Idle).(toStop := s.toStop + 1)
    case Decrement(w) => Go(s, w, Leaving).(toStop := s.toStop - 1, crashed := s.crashed || s.toStop <= 0)
  }

  /** A worker on its way out, under the lock of the thread list. */
  function LeaveStep(s: State, act: Act): State
    requires Enabled(s, act) && (act.Acquire? || act.Remove? || act.Report? || act.Exit?)
  {
    match act
    case Acquire(w) => Go(s, w, Locked).(lock := Worker(w))
    case Remove(w) => Go(s, w, Removed).(list := s.list - {w})
    case Report(w) => Go(s, w, Reported).(stopped := s.stopped + [w])
    case Exit(w) => Go(s, w, Exited).(lock := Free)
  }

  /** join, stop and setNumThreads once they hold the lock. */
  function EnterCall(s: State): State
    requires s.ctl.Waiting?
  {
    var t := s.(lock := Controller, mark := s.next);
    match s.ctl.call
    case Join => t.(ctl := Setting, batch := |s.list|, target := 0)
    case Stop => t.(ctl := Setting, batch := |s.list|, target := 0, stopping := true)
    case Resize(n) =>
      if n > |s.list| then t.(ctl := Growing(n - |s.list|), target := n)
      else if n < |s.list| then t.(ctl := Setting, batch := |s.list| - n, target := n)
      else t.(ctl := Releasing, target := n)
  }

  function ControlStep(s: State, act: Act): State
    requires Enabled(s, act)
    requires act.Add? || act.Invoke? || act.Enter? || act.SetMode? || act.AddStop? || act.Enqueue? || act.Spawn?
             || act.Release? || act.Collect? || act.JoinThread? || act.Return?
  {
    match act
    case Add => s.(queue := s.queue + [Task(s.next)], next := s.next + 1)
    case Invoke(call) => s.(ctl := Waiting(call))
    case Enter => EnterCall(s)
    case SetMode => s.(isJoin := !s.stopping, ctl := Adding)
    case AddStop => s.(toStop := s.toStop + s.batch, ctl := Poisoning(s.batch))
    case Enqueue => s.(queue := s.queue + [Poison], ctl := Poisoning(s.ctl.left - 1))
    case Spawn(w) => Go(s, w, Idle).(list := s.list + {w}, ctl := Growing(s.ctl.left - 1))
    case Release => s.(lock := Free, ctl := Collecting)
    case Collect => s.(ctl := Joining(s.stopped[0]), stopped := s.stopped[1..], collected := s.collected + 1)
    case JoinThread => s.(ctl := Collecting)
    case Return =>
      s.(ctl := if s.stopping then Finished else Ready, batch := 0, collected := 0,
         crashed := s.crashed || |s.list| != s.target || s.stopped != [] || (s.stopping && s.toStop != 0))
  }

  function Do(s: State, act: Act): State
    requires Enabled(s, act)
  {
    match act
    case Take(_) => WorkerStep(s, act)
    case Finish(_) => WorkerStep(s, act)
    case ReadStop(_) => WorkerStep(s, act)
    case ReadJoin(_) => WorkerStep(s, act)
    case GiveUp(_) => WorkerStep(s, act)
    case Restore(_) => WorkerStep(s, act)
    case Decrement(_) => WorkerStep(s, act)
    case Acquire(_) => LeaveStep(s, act)
    case Remove(_) => LeaveStep(s, act)
    case Report(_) => LeaveStep(s, act)
    case Exit(_) => LeaveStep(s, act)
    case _ => ControlStep(s, act)
  }

  /** A pool before its first setNumThreads; isJoin_ starts with whatever the memory holds. */
  ghost predicate Initial(s: State) {
    && s.workers == map[] && s.list == {} && s.stopped == [] && s.queue == [] && s.toStop == 0
    && s.lock == Free && s.ctl == Ready && s.done == multiset{} && s.next == 0 && !s.crashed
    && s.batch == 0 && s.collected == 0 && s.target == 0 && s.mark == 0 && !s.stopping
  }

  ghost function At(s: State, pc: Pc): set<nat> {
    set w | w in s.workers && s.workers[w] == pc
  }

  /** How many workers are at one point of the loop. */
  ghost function Num(s: State, pc: Pc): nat {
    |At(s, pc)|
  }

  lemma NumGo(s: State, w: nat, pc: Pc, q: Pc)
    requires w in s.workers
    ensures Num(Go(s, w, pc), q)
            == Num(s, q) - (if s.workers[w] == q then 1 else 0) + (if pc == q then 1 else 0)
  {
    var before, after := At(s, q), At(Go(s, w, pc), q);
    assert after == before - {w} + (if pc == q then {w} else {});
  }

  lemma NumSpawn(s: State, w: nat, pc: Pc, q: Pc)
    requires w !in s.workers
    ensures Num(Go(s, w, pc), q) == Num(s, q) + (if pc == q then 1 else 0)
  {
    assert At(Go(s, w, pc), q) == At(s, q) + (if pc == q then {w} else {});
  }

  ghost function Poisons(q: seq<Item>): nat {
    multiset(q)[Poison]
  }

  /** Poisons the present call has yet to put into the queue. */
  ghost function Pending(s: State): nat {
    match s.ctl
    case Setting => s.batch
    case Adding => s.batch
    case Poisoning(left) => left
    case _ => 0
  }

  ghost function ToGrow(s: State): nat {
    if s.ctl.Growing? then s.ctl.left else 0
  }

  ghost predicate Counted(s: State) {
    s.ctl != Setting && s.ctl != Adding
  }

  /** Threads that have given up their share of threadsToStop_ but are still on the list. */
  ghost function Outgoing(s: State): nat {
    Num(s, Leaving) + Num(s, Locked)
  }

  /** Threads the present call still waits to see decrement threadsToStop_. */
  ghost function Quota(s: State): int {
    if s.stopping then |s.list| - Outgoing(s) else Pending(s) + Poisons(s.queue) + Num(s, Poisoned)
  }

  /** Every thread a call removes is accounted for, from the pending poison to the joined thread. */
  ghost predicate Balanced(s: State) {
    && Quota(s) >= 0
    && Quota(s) + Outgoing(s) + Num(s, Removed) + |s.stopped| + s.collected == s.batch
    && |s.list| + ToGrow(s) == s.target + Quota(s) + Outgoing(s)
    && s.toStop == (if Counted(s) then Quota(s) else 0) - Num(s, GiveBack)
    && (!Counted(s) ==> Quota(s) == s.batch && Poisons(s.queue) == 0 && Num(s, Poisoned) == 0)
    && Poisons(s.queue) + Num(s, Poisoned) + Pending(s) >= Quota(s)
    && (s.ctl.Ready? || s.ctl.Waiting? || s.ctl.Growing? || s.ctl.Finished? ==> s.batch == 0 && s.collected == 0)
    && (s.stopping ==> s.target == 0 && ToGrow(s) == 0 && !s.ctl.Ready? && !s.ctl.Waiting? && !s.ctl.Growing?)
    && (s.ctl.Finished? ==> s.stopping)
  }

  predicate OnList(pc: Pc) {
    !pc.Removed? && !pc.Reported? && !pc.Exited?
  }

  /** Under the lock of the thread list. */
  predicate Inside(pc: Pc) {
    pc.Locked? || pc.Removed? || pc.Reported?
  }

  predicate Holding(ctl: Ctl) {
    ctl.Setting? || ctl.Adding? || ctl.Poisoning? || ctl.Growing? || ctl.Releasing?
  }

  predicate Gone(pc: Pc) {
    pc.Reported? || pc.Exited?
  }

  /** The list holds the threads that have not taken themselves off it; the lock has one holder. */
  ghost predicate Listed(s: State) {
    && (forall w :: w in s.list <==> w in s.workers && OnList(s.workers[w]))
    && (forall w :: w in s.workers && Inside(s.workers[w]) ==> s.lock == Worker(w))
    && (s.lock == Controller <==> Holding(s.ctl))
    && (s.lock.Worker? ==> s.lock.w in s.workers && Inside(s.workers[s.lock.w]))
    && (forall w :: w in s.workers && s.workers[w].Reported? ==> w in s.stopped || s.ctl == Joining(w))
    && (forall w :: w in s.stopped ==> w in s.workers && Gone(s.workers[w]))
    && (s.ctl.Joining? ==> s.ctl.w in s.workers && Gone(s.workers[s.ctl.w]))
  }

  /** Without stop() nobody leaves except by a poison; from its first step on, stop() has isJoin_ off. */
  ghost predicate Modal(s: State) {
    && (!s.stopping && s.toStop > 0 ==> s.isJoin)
    && (!s.stopping && s.ctl.Adding? ==> s.isJoin)
    && (s.stopping && !s.ctl.Setting? ==> !s.isJoin)
    && (forall w :: w in s.workers && s.workers[w].SawStop? && !s.stopping ==> s.isJoin)
    && (forall w :: w in s.workers && (s.workers[w].Giving? || s.workers[w].GiveBack?) ==> s.stopping)
  }

  /** The places a task can be in, counted. */
  ghost function Places(s: State, id: nat): nat {
    multiset(s.queue)[Task(id)] + Num(s, Running(id)) + s.done[id]
  }

  /** Every task is in the queue, with one worker, or done: exactly one of the three, once. */
  ghost predicate Conserved(s: State) {
    forall id: nat :: Places(s, id) == if id < s.next then 1 else 0
  }

  /** Behind every task older than the call lie all its poisons. */
  ghost predicate Ordered(s: State) {
    && s.mark <= s.next
    && (!s.stopping ==> forall i :: 0 <= i < |s.queue| && s.queue[i].Task? && s.queue[i].id < s.mark ==>
          Poisons(s.queue[i..]) == s.batch - Pending(s))
  }

  ghost predicate Inv(s: State) {
    !s.crashed && Balanced(s) && Listed(s) && Modal(s) && Conserved(s) && Ordered(s)
  }

  /** A run: every step is one the state allows. */
  ghost predicate Run(s: State, acts: seq<Act>)
    decreases |acts|
  {
    acts == [] || (Enabled(s, acts[0]) && Run(Do(s, acts[0]), acts[1..]))
  }

  ghost function After(s: State, acts: seq<Act>): State
    requires Run(s, acts)
    decreases |acts|
  {
    if acts == [] then s else After(Do(s, acts[0]), acts[1..])
  }

  lemma Initially(s: State)
    requires Initial(s)
    ensures Inv(s)
  {
    forall pc
      ensures Num(s, pc) == 0
    {
      assert At(s, pc) == {};
    }
  }

  /** The counts a worker's move can change. */
  lemma Tally(s: State, w: nat, pc: Pc)
    requires w in s.workers
    ensures var t := Go(s, w, pc);
            && Num(t, Poisoned) == Num(s, Poisoned) - One(s.workers[w] == Poisoned) + One(pc == Poisoned)
            && Num(t, Leaving) == Num(s, Leaving) - One(s.workers[w] == Leaving) + One(pc == Leaving)
            && Num(t, Locked) == Num(s, Locked) - One(s.workers[w] == Locked) + One(pc == Locked)
            && Num(t, Removed) == Num(s, Removed) - One(s.workers[w] == Removed) + One(pc == Removed)
            && Num(t, GiveBack) == Num(s, GiveBack) - One(s.workers[w] == GiveBack) + One(pc == GiveBack)
  {
    hide Num, Go;
    NumGo(s, w, pc, Poisoned);
    NumGo(s, w, pc, Leaving);
    NumGo(s, w, pc, Locked);
    NumGo(s, w, pc, Removed);
    NumGo(s, w, pc, GiveBack);
  }

  function One(b: bool): int {
    if b then 1 else 0
  }

  /** The counts depend on the workers alone. */
  lemma SameWorkers(s: State, t: State, pc: Pc)
    requires s.workers == t.workers
    ensures Num(s, pc) == Num(t, pc)
  {
    assert At(s, pc) == At(t, pc);
  }

  lemma SameTally(s: State, t: State)
    requires s.workers == t.workers
    ensures Num(t, Poisoned) == Num(s, Poisoned) && Num(t, Leaving) == Num(s, Leaving)
    ensures Num(t, Locked) == Num(s, Locked) && Num(t, Removed) == Num(s, Removed)
    ensures Num(t, GiveBack) == Num(s, GiveBack)
  {
    hide Num;
    SameWorkers(s, t, Poisoned);
    SameWorkers(s, t, Leaving);
    SameWorkers(s, t, Locked);
    SameWorkers(s, t, Removed);
    SameWorkers(s, t, GiveBack);
  }

  lemma FrontOff(q: seq<Item>, x: Item)
    requires q != []
    ensures multiset(q)[x] == multiset(q[1..])[x] + One(q[0] == x)
  {
    assert q == [q[0]] + q[1..];
  }

  lemma BackOn(q: seq<Item>, y: Item, x: Item)
    ensures multiset(q + [y])[x] == multiset(q)[x] + One(y == x)
  {}

  /** While a thread on the list has not decremented, threadsToStop_ has a share left for it. */
  lemma Share(s: State, w: nat)
    requires Listed(s) && w in s.workers && OnList(s.workers[w])
    requires !s.workers[w].Leaving? && !s.workers[w].Locked? && !s.workers[w].GiveBack?
    ensures |s.list| >= Outgoing(s) + Num(s, GiveBack) + 1
  {
    var a, b, c := At(s, Leaving), At(s, Locked), At(s, GiveBack);
    FourDisjoint(a, b, c, w, s.list);
  }

  lemma FourDisjoint(a: set<nat>, b: set<nat>, c: set<nat>, w: nat, s: set<nat>)
    requires a <= s && b <= s && c <= s && w in s && a !! b && a !! c && b !! c
    requires w !in a && w !in b && w !in c
    ensures |a| + |b| + |c| + 1 <= |s|
  {
    Within(a + b + c + {w}, s);
    assert |a + b| == |a| + |b|;
    assert |a + b + c| == |a + b| + |c|;
  }

  lemma Within(a: set<nat>, b: set<nat>)
    requires a <= b
    ensures |a| <= |b|
  {
    assert b == a + (b - a);
  }

  lemma Present(s: State, w: nat, pc: Pc)
    requires Is(s, w, pc)
    ensures Num(s, pc) >= 1
  {
    assert w in At(s, pc);
  }

  lemma Absent(s: State, pc: Pc)
    requires forall w :: w in s.workers ==> s.workers[w] != pc
    ensures Num(s, pc) == 0
  {
    assert At(s, pc) == {};
  }

  lemma BalancedWorker(s: State, act: Act)
    requires Inv(s) && Enabled(s, act)
    requires act.Finish? || act.ReadStop? || act.ReadJoin? || act.Restore?
    ensures Balanced(WorkerStep(s, act)) && !WorkerStep(s, act).crashed
  {
    hide Num, Conserved, Ordered, Poisons, Listed, Modal;
    var t := WorkerStep(s, act);
    Tally(s, act.w, t.workers[act.w]);
    SameTally(Go(s, act.w, t.workers[act.w]), t);
  }

  lemma BalancedTake(s: State, w: nat)
    requires Inv(s) && Enabled(s, Take(w))
    ensures Balanced(WorkerStep(s, Take(w))) && !WorkerStep(s, Take(w)).crashed
  {
    hide Num, Conserved, Ordered, Listed, Modal;
    var t := WorkerStep(s, Take(w));
    Tally(s, w, t.workers[w]);
    SameTally(Go(s, w, t.workers[w]), t);
    FrontOff(s.queue, Poison);
  }

  /** The two ways to give up a share of threadsToStop_: with a poison and, during stop(), without. */
  lemma BalancedShare(s: State, act: Act)
    requires Inv(s) && Enabled(s, act) && (act.GiveUp? || act.Decrement?)
    ensures Balanced(WorkerStep(s, act)) && !WorkerStep(s, act).crashed
  {
    hide Num, Conserved, Ordered, Poisons, Listed;
    var t := WorkerStep(s, act);
    var w := act.w;
    Tally(s, w, t.workers[w]);
    SameTally(Go(s, w, t.workers[w]), t);
    Share(s, w);
    Present(s, w, s.workers[w]);
    if !s.stopping {
      Absent(s, GiveBack);
    }
  }

  lemma BalancedLeave(s: State, act: Act)
    requires Inv(s) && Enabled(s, act) && (act.Acquire? || act.Report? || act.Exit?)
    ensures Balanced(LeaveStep(s, act)) && !LeaveStep(s, act).crashed
  {
    hide Num, Conserved, Ordered, Modal, Listed, Poisons;
    var t := LeaveStep(s, act);
    var w := act.w;
    Tally(s, w, t.workers[w]);
    SameTally(Go(s, w, t.workers[w]), t);
  }

  lemma OnTheList(s: State, w: nat)
    requires Listed(s) && w in s.workers && OnList(s.workers[w])
    ensures w in s.list
  {}

  lemma BalancedRemove(s: State, w: nat)
    requires Inv(s) && Enabled(s, Remove(w))
    ensures Balanced(LeaveStep(s, Remove(w))) && !LeaveStep(s, Remove(w)).crashed
  {
    hide Num, Conserved, Ordered, Modal, Listed, Poisons;
    OnTheList(s, w);
    var t := LeaveStep(s, Remove(w));
    Tally(s, w, Removed);
    SameTally(Go(s, w, Removed), t);
    assert |s.list - {w}| == |s.list| - 1;
  }

  /** With nobody on the list nobody is about to undo a decrement. */
  lemma EmptyList(s: State)
    requires Listed(s) && |s.list| == 0
    ensures Num(s, GiveBack) == 0
  {
    forall w | w in s.workers
      ensures s.workers[w] != GiveBack
    {
      assert w !in s.list;
    }
    Absent(s, GiveBack);
  }

  lemma BalancedReturn(s: State)
    requires Inv(s) && Enabled(s, Return)
    ensures Balanced(ControlStep(s, Return)) && !ControlStep(s, Return).crashed
  {
    hide Num, Conserved, Ordered, Modal, Listed;
    SameTally(s, ControlStep(s, Return));
    if |s.list| == 0 {
      EmptyList(s);
    }
  }

  lemma BalancedEntry(s: State)
    requires Inv(s) && Enabled(s, Enter)
    ensures Balanced(ControlStep(s, Enter)) && !ControlStep(s, Enter).crashed
  {
    hide Num, Conserved, Ordered, Modal, Listed, Poisons;
    SameTally(s, EnterCall(s));
  }

  lemma BalancedSpawn(s: State, w: nat)
    requires Inv(s) && Enabled(s, Spawn(w))
    ensures Balanced(ControlStep(s, Spawn(w))) && !ControlStep(s, Spawn(w)).crashed
  {
    hide Num, Conserved, Ordered, Modal;
    SpawnTally(s, w);
    SameTally(Go(s, w, Idle), ControlStep(s, Spawn(w)));
    assert w !in s.list;
    assert |s.list + {w}| == |s.list| + 1;
  }

  lemma BalancedQueue(s: State, act: Act)
    requires Inv(s) && Enabled(s, act) && (act.Add? || act.Enqueue?)
    ensures Balanced(ControlStep(s, act)) && !ControlStep(s, act).crashed
  {
    hide Num, Conserved, Ordered, Modal, Listed;
    SameTally(s, ControlStep(s, act));
    BackOn(s.queue, if act.Add? then Task(s.next) else Poison, Poison);
  }

  lemma BalancedControl(s: State, act: Act)
    requires Inv(s) && Enabled(s, act)
    requires act.Invoke? || act.SetMode? || act.AddStop? || act.Release? || act.Collect? || act.JoinThread?
    ensures Balanced(ControlStep(s, act)) && !ControlStep(s, act).crashed
  {
    hide Num, Conserved, Ordered, Modal, Listed, Poisons;
    SameTally(s, ControlStep(s, act));
  }

  lemma SpawnTally(s: State, w: nat)
    requires w !in s.workers
    ensures var t := Go(s, w, Idle);
            && Num(t, Poisoned) == Num(s, Poisoned) && Num(t, Leaving) == Num(s, Leaving)
            && Num(t, Locked) == Num(s, Locked) && Num(t, Removed) == Num(s, Removed)
            && Num(t, GiveBack) == Num(s, GiveBack)
  {
    hide Num, Go;
    NumSpawn(s, w, Idle, Poisoned);
    NumSpawn(s, w, Idle, Leaving);
    NumSpawn(s, w, Idle, Locked);
    NumSpawn(s, w, Idle, Removed);
    NumSpawn(s, w, Idle, GiveBack);
  }

  lemma BalancedStep(s: State, act: Act)
    requires Inv(s) && Enabled(s, act)
    ensures Balanced(Do(s, act)) && !Do(s, act).crashed
  {
    hide Inv, Balanced, Enabled, WorkerStep, LeaveStep, ControlStep;
    match act
    case Take(w) => BalancedTake(s, w);
    case Finish(_) => BalancedWorker(s, act);
    case ReadStop(_) => BalancedWorker(s, act);
    case ReadJoin(_) => BalancedWorker(s, act);
    case GiveUp(_) => BalancedShare(s, act);
    case Restore(_) => BalancedWorker(s, act);
    case Decrement(_) => BalancedShare(s, act);
    case Acquire(_) => BalancedLeave(s, act);
    case Remove(w) => BalancedRemove(s, w);
    case Report(_) => BalancedLeave(s, act);
    case Exit(_) => BalancedLeave(s, act);
    case Add => BalancedQueue(s, act);
    case Enqueue => BalancedQueue(s, act);
    case Enter => BalancedEntry(s);
    case Spawn(w) => BalancedSpawn(s, w);
    case Return => BalancedReturn(s);
    case _ => BalancedControl(s, act);
  }

  predicate Working(act: Act) {
    act.Take? || act.Finish? || act.ReadStop? || act.ReadJoin? || act.GiveUp? || act.Restore? || act.Decrement?
  }

  lemma ListedWorker(s: State, act: Act)
    requires Listed(s) && Enabled(s, act) && Working(act)
    ensures Listed(WorkerStep(s, act))
  {
    var t := WorkerStep(s, act);
    ListedGo(s, act.w, t.workers[act.w], t);
  }

  /** A worker moving about inside the loop. */
  lemma ListedGo(s: State, w: nat, pc: Pc, t: State)
    requires Listed(s) && w in s.workers && InLoop(s.workers[w]) && InLoop(pc)
    requires t.workers == s.workers[w := pc] && t.list == s.list && t.lock == s.lock
    requires t.ctl == s.ctl && t.stopped == s.stopped
    ensures Listed(t)
  {}

  predicate InLoop(pc: Pc) {
    OnList(pc) && !pc.Locked?
  }

  lemma ListedLeave(s: State, act: Act)
    requires Listed(s) && Enabled(s, act) && (act.Acquire? || act.Remove?)
    ensures Listed(LeaveStep(s, act))
  {}

  lemma ListedReport(s: State, w: nat)
    requires Listed(s) && Enabled(s, Report(w))
    ensures Listed(LeaveStep(s, Report(w)))
  {}

  lemma ListedExit(s: State, w: nat)
    requires Listed(s) && Enabled(s, Exit(w))
    ensures Listed(LeaveStep(s, Exit(w)))
  {}

  lemma ListedCollect(s: State)
    requires Listed(s) && Enabled(s, Collect)
    ensures Listed(ControlStep(s, Collect))
  {
    assert forall w :: w in s.stopped ==> w == s.stopped[0] || w in s.stopped[1..];
  }

  lemma ListedJoined(s: State)
    requires Listed(s) && Enabled(s, JoinThread)
    ensures Listed(ControlStep(s, JoinThread))
  {}

  lemma ListedAdd(s: State)
    requires Listed(s)
    ensures Listed(ControlStep(s, Add))
  {}

  lemma ListedSpawn(s: State, w: nat)
    requires Listed(s) && Enabled(s, Spawn(w))
    ensures Listed(ControlStep(s, Spawn(w)))
  {}

  lemma ListedControl(s: State, act: Act)
    requires Listed(s) && Enabled(s, act)
    requires act.Invoke? || act.SetMode? || act.AddStop? || act.Enqueue? || act.Return?
    ensures Listed(ControlStep(s, act))
  {
    LockOf(s);
    hide Listed;
    ListedSame(s, ControlStep(s, act));
  }

  lemma ListedEnter(s: State)
    requires Listed(s) && Enabled(s, Enter)
    ensures Listed(ControlStep(s, Enter))
  {
    hide Listed;
    ListedSame(s, ControlStep(s, Enter));
  }

  lemma ListedRelease(s: State)
    requires Listed(s) && Enabled(s, Release)
    ensures Listed(ControlStep(s, Release))
  {
    LockOf(s);
    hide Listed;
    ListedSame(s, ControlStep(s, Release));
  }

  lemma LockOf(s: State)
    requires Listed(s)
    ensures s.lock == Controller <==> Holding(s.ctl)
  {}

  /** Threads and lists as before; the controller outside joinStoppedThreads. */
  lemma ListedSame(s: State, t: State)
    requires Listed(s) && t.workers == s.workers && t.list == s.list && t.stopped == s.stopped
    requires !s.ctl.Joining? && !t.ctl.Joining?
    requires t.lock == Controller <==> Holding(t.ctl)
    requires t.lock == s.lock || (!s.lock.Worker? && !t.lock.Worker?)
    ensures Listed(t)
  {}

  lemma ListedStep(s: State, act: Act)
    requires Listed(s) && Enabled(s, act)
    ensures Listed(Do(s, act))
  {
    hide Listed, Enabled, WorkerStep, LeaveStep, ControlStep;
    match act
    case Take(_) => ListedWorker(s, act);
    case Finish(_) => ListedWorker(s, act);
    case ReadStop(_) => ListedWorker(s, act);
    case ReadJoin(_) => ListedWorker(s, act);
    case GiveUp(_) => ListedWorker(s, act);
    case Restore(_) => ListedWorker(s, act);
    case Decrement(_) => ListedWorker(s, act);
    case Acquire(_) => ListedLeave(s, act);
    case Remove(_) => ListedLeave(s, act);
    case Report(w) => ListedReport(s, w);
    case Exit(w) => ListedExit(s, w);
    case Collect => ListedCollect(s);
    case JoinThread => ListedJoined(s);
    case Spawn(w) => ListedSpawn(s, w);
    case Add => ListedAdd(s);
    case Enter => ListedEnter(s);
    case Release => ListedRelease(s);
    case _ => ListedControl(s, act);
  }

  lemma ModalWorker(s: State, act: Act)
    requires Modal(s) && Enabled(s, act) && Working(act)
    ensures Modal(WorkerStep(s, act))
  {}

  lemma ModalControl(s: State, act: Act)
    requires Modal(s) && Enabled(s, act) && !Working(act) && !act.Acquire? && !act.Remove? && !act.Report? && !act.Exit?
    ensures Modal(ControlStep(s, act))
  {}

  lemma ModalLeave(s: State, act: Act)
    requires Modal(s) && Enabled(s, act) && (act.Acquire? || act.Remove? || act.Report? || act.Exit?)
    ensures Modal(LeaveStep(s, act))
  {}

  /** One task: wherever it goes, it is in one place. */
  lemma PlacesWorker(s: State, act: Act, id: nat)
    requires Enabled(s, act) && Working(act)
    ensures Places(WorkerStep(s, act), id) == Places(s, id)
  {
    hide Num;
    var t := WorkerStep(s, act);
    NumGo(s, act.w, t.workers[act.w], Running(id));
    SameWorkers(Go(s, act.w, t.workers[act.w]), t, Running(id));
    if act.Take? {
      FrontOff(s.queue, Task(id));
    }
  }

  lemma PlacesLeave(s: State, act: Act, id: nat)
    requires Enabled(s, act) && (act.Acquire? || act.Remove? || act.Report? || act.Exit?)
    ensures Places(LeaveStep(s, act), id) == Places(s, id)
  {
    hide Num;
    var t := LeaveStep(s, act);
    NumGo(s, act.w, t.workers[act.w], Running(id));
    SameWorkers(Go(s, act.w, t.workers[act.w]), t, Running(id));
  }

  lemma PlacesControl(s: State, act: Act, id: nat)
    requires Enabled(s, act) && !Working(act) && !act.Acquire? && !act.Remove? && !act.Report? && !act.Exit? && !act.Spawn?
    ensures Places(ControlStep(s, act), id) == Places(s, id) + One(act.Add? && id == s.next)
  {
    ControlKeeps(s, act);
    hide Num, ControlStep, Enabled;
    SameWorkers(s, ControlStep(s, act), Running(id));
    BackOn(s.queue, if act.Add? then Task(s.next) else Poison, Task(id));
  }

  /** What no step of the controller touches. */
  lemma ControlKeeps(s: State, act: Act)
    requires Enabled(s, act) && !Working(act) && !act.Acquire? && !act.Remove? && !act.Report? && !act.Exit? && !act.Spawn?
    ensures var t := ControlStep(s, act);
            t.workers == s.workers && t.done == s.done && t.next == s.next + One(act.Add?)
            && t.queue == s.queue + if act.Add? then [Task(s.next)] else if act.Enqueue? then [Poison] else []
  {
    assert s.queue + [] == s.queue;
  }

  lemma PlacesSpawn(s: State, w: nat, id: nat)
    requires Enabled(s, Spawn(w))
    ensures Places(ControlStep(s, Spawn(w)), id) == Places(s, id)
  {
    hide Num;
    var t := ControlStep(s, Spawn(w));
    NumSpawn(s, w, Idle, Running(id));
    SameWorkers(Go(s, w, Idle), t, Running(id));
  }

  lemma PlacesStep(s: State, act: Act, id: nat)
    requires Enabled(s, act)
    ensures Places(Do(s, act), id) == Places(s, id) + One(act.Add? && id == s.next)
  {
    hide Places, WorkerStep, LeaveStep, ControlStep, Enabled;
    if Working(act) {
      PlacesWorker(s, act, id);
    } else if act.Acquire? || act.Remove? || act.Report? || act.Exit? {
      PlacesLeave(s, act, id);
    } else if act.Spawn? {
      PlacesSpawn(s, act.w, id);
    } else {
      PlacesControl(s, act, id);
    }
  }

  lemma NextStep(s: State, act: Act)
    requires Enabled(s, act)
    ensures Do(s, act).next == s.next + One(act.Add?)
  {
    if !Working(act) && !act.Acquire? && !act.Remove? && !act.Report? && !act.Exit? && !act.Spawn? {
      ControlKeeps(s, act);
      hide ControlStep, Enabled;
    }
  }

  lemma ConservedStep(s: State, act: Act)
    requires Conserved(s) && Enabled(s, act)
    ensures Conserved(Do(s, act))
  {
    hide Places, Enabled, Do;
    NextStep(s, act);
    forall id: nat
      ensures Places(Do(s, act), id) == if id < Do(s, act).next then 1 else 0
    {
      PlacesStep(s, act, id);
    }
  }

  lemma PoisonsBehind(q: seq<Item>, i: nat)
    requires i <= |q|
    ensures Poisons(q[i..]) <= Poisons(q)
  {
    assert q == q[..i] + q[i..];
  }

  /** One more item at the end of the queue, or the front one taken: what lies behind a task. */
  lemma OrderedQueue(s: State, act: Act)
    requires Ordered(s) && Enabled(s, act) && (act.Take? || act.Add? || act.Enqueue?)
    ensures Ordered(Do(s, act))
  {
    hide Poisons;
    var t := Do(s, act);
    forall i | 0 <= i < |t.queue| && t.queue[i].Task? && t.queue[i].id < t.mark
      ensures !t.stopping ==> Poisons(t.queue[i..]) == t.batch - Pending(t)
    {
      if act.Take? {
        assert t.queue[i..] == s.queue[i + 1..];
        assert s.queue[i + 1] == t.queue[i];
      } else {
        assert i < |s.queue|;
        var x := t.queue[|s.queue|];
        assert t.queue[i..] == s.queue[i..] + [x];
        PoisonsBackOn(s.queue[i..], x);
      }
    }
  }

  lemma PoisonsBackOn(q: seq<Item>, x: Item)
    ensures Poisons(q + [x]) == Poisons(q) + One(x == Poison)
  {}

  /** With no poison about, a call starts or ends. */
  lemma OrderedCall(s: State, act: Act)
    requires Ordered(s) && Balanced(s) && Enabled(s, act) && (act.Enter? || act.Return?)
    ensures Ordered(Do(s, act))
  {
    hide Num, Poisons;
    var t := Do(s, act);
    forall i | 0 <= i < |t.queue|
      ensures !t.stopping ==> Poisons(t.queue[i..]) == t.batch - Pending(t)
    {
      PoisonsBehind(s.queue, i);
    }
  }

  lemma OrderedOther(s: State, act: Act)
    requires Ordered(s) && Enabled(s, act)
    requires !act.Take? && !act.Add? && !act.Enqueue? && !act.Enter? && !act.Return?
    ensures Ordered(Do(s, act))
  {
    var t := Do(s, act);
    assert t.queue == s.queue && t.mark == s.mark && t.stopping == s.stopping && t.batch - Pending(t) == s.batch - Pending(s);
  }

  /** What every step of every thread keeps. */
  lemma InvStep(s: State, act: Act)
    requires Inv(s) && Enabled(s, act)
    ensures Inv(Do(s, act))
  {
    BalancedStep(s, act);
    ListedStep(s, act);
    hide Balanced, Listed, Modal, Conserved, Ordered, Enabled;
    if Working(act) {
      ModalWorker(s, act);
    } else if act.Acquire? || act.Remove? || act.Report? || act.Exit? {
      ModalLeave(s, act);
    } else {
      ModalControl(s, act);
    }
    ConservedStep(s, act);
    if act.Take? || act.Add? || act.Enqueue? {
      OrderedQueue(s, act);
    } else if act.Enter? || act.Return? {
      OrderedCall(s, act);
    } else {
      OrderedOther(s, act);
    }
  }

  lemma {:induction false} RunKeeps(s: State, acts: seq<Act>)
    requires Inv(s) && Run(s, acts)
    ensures Inv(After(s, acts))
    decreases |acts|
  {
    hide Inv, Do, Enabled;
    if acts != [] {
      InvStep(s, acts[0]);
      RunKeeps(Do(s, acts[0]), acts[1..]);
    }
  }

  /** In every run from a fresh pool no check fails: not line 77, not the counts after a call, not in the destructor. */
  lemma NoCheckFails(s: State, acts: seq<Act>)
    requires Initial(s) && Run(s, acts)
    ensures !After(s, acts).crashed && Inv(After(s, acts))
  {
    Initially(s);
    RunKeeps(s, acts);
  }

  /** Until stop() is called, threadsToStop_ is the number of poisons queued, held or yet to be queued. */
  lemma CountsPoisons(s: State)
    requires Inv(s) && !s.stopping && Counted(s)
    ensures s.toStop == Poisons(s.queue) + Num(s, Poisoned) + Pending(s)
  {
    hide Num;
    Absent(s, GiveBack);
  }

  lemma NobodyAt(s: State, pc: Pc)
    requires Num(s, pc) == 0
    ensures forall w :: w in s.workers ==> s.workers[w] != pc
  {
    forall w | w in s.workers
      ensures s.workers[w] != pc
    {
      assert At(s, pc) == {};
      assert w !in At(s, pc);
    }
  }

  /** When a call that empties the pool is over, every thread has left for good. */
  lemma AllExited(s: State)
    requires Inv(s) && Enabled(s, Return) && s.target == 0
    ensures s.list == {} && forall w :: w in s.workers ==> s.workers[w] == Exited
  {
    hide Num, Conserved, Ordered, Modal;
    assert |s.list| == 0;
    NobodyAt(s, Removed);
    assert forall w :: w in s.workers ==> w !in s.list;
  }

  lemma NotBehind(q: seq<Item>, mark: nat, k: nat, id: nat)
    requires Poisons(q) == 0 && k > 0 && id < mark
    requires forall i :: 0 <= i < |q| && q[i].Task? && q[i].id < mark ==> Poisons(q[i..]) == k
    ensures multiset(q)[Task(id)] == 0
  {
    hide Poisons;
    forall i | 0 <= i < |q|
      ensures q[i] != Task(id)
    {
      PoisonsBehind(q, i);
    }
    assert Task(id) !in q;
  }

  /**
   * What join() promises: when it returns, each task added before it has run
   * or expired once, if there was a thread to run it or nothing was waiting.
   */
  lemma JoinRunsAll(s: State)
    requires Inv(s) && Enabled(s, Return) && s.target == 0 && !s.stopping
    ensures (forall id: nat :: id < s.mark ==> s.done[id] == 1) <==>
            (s.batch > 0 || forall id: nat :: id < s.mark ==> Task(id) !in s.queue)
  {
    AllExited(s);
    hide Num, Listed, Modal;
    assert Poisons(s.queue) == 0;
    forall id: nat | id < s.mark
      ensures multiset(s.queue)[Task(id)] + s.done[id] == 1
      ensures s.batch > 0 ==> multiset(s.queue)[Task(id)] == 0
    {
      Absent(s, Running(id));
      assert Places(s, id) == 1;
      if s.batch > 0 {
        NotBehind(s.queue, s.mark, s.batch, id);
      }
    }
  }

  /** Inside a call its figures stay as they were set when it got the lock. */
  ghost predicate SameCall(s: State, t: State) {
    t.batch == s.batch && t.target == s.target && t.mark == s.mark && t.stopping == s.stopping
  }

  predicate InCall(s: State) {
    !s.ctl.Ready? && !s.ctl.Waiting? && !s.ctl.Finished?
  }

  lemma CallStep(s: State, act: Act)
    requires InCall(s) && Enabled(s, act) && !act.Return?
    ensures InCall(Do(s, act)) && SameCall(s, Do(s, act))
  {}

  lemma {:induction false} CallKeeps(s: State, acts: seq<Act>)
    requires InCall(s) && Run(s, acts) && Return !in acts
    ensures InCall(After(s, acts)) && SameCall(s, After(s, acts))
    decreases |acts|
  {
    hide InCall, Do, Enabled;
    if acts != [] {
      CallStep(s, acts[0]);
      CallKeeps(Do(s, acts[0]), acts[1..]);
    }
  }

  /** A pool without threads: nothing is taken from the queue, and nothing gets done. */
  ghost predicate Unattended(s: State, queue: seq<Item>, done: multiset<nat>) {
    s.list == {} && InCall(s) && !s.ctl.Growing? && queue <= s.queue && s.done == done
  }

  lemma UnattendedStep(s: State, act: Act, queue: seq<Item>, done: multiset<nat>)
    requires Inv(s) && Unattended(s, queue, done) && Enabled(s, act) && !act.Return?
    ensures Unattended(Do(s, act), queue, done)
  {
    hide Balanced, Modal, Conserved, Ordered;
  }

  lemma {:induction false} UnattendedRun(s: State, acts: seq<Act>, queue: seq<Item>, done: multiset<nat>)
    requires Inv(s) && Unattended(s, queue, done) && Run(s, acts) && Return !in acts
    ensures Unattended(After(s, acts), queue, done)
    decreases |acts|
  {
    hide Inv, Unattended, Do, Enabled;
    if acts != [] {
      UnattendedStep(s, acts[0], queue, done);
      InvStep(s, acts[0]);
      UnattendedRun(Do(s, acts[0]), acts[1..], queue, done);
    }
  }

  /** Without threads a task is done or still waiting. */
  lemma DoneOrWaiting(s: State, id: nat)
    requires Inv(s) && s.list == {} && id < s.next
    ensures s.done[id] == 1 <==> Task(id) !in s.queue
  {
    hide Num, Balanced, Modal, Ordered;
    forall w | w in s.workers ensures s.workers[w] != Running(id) {
      assert w !in s.list;
    }
    Absent(s, Running(id));
    assert Places(s, id) == 1;
  }

  /**
   * join() from the moment it gets the lock to its return, whatever the other
   * threads do meanwhile: every task added before has run exactly when there
   * was a thread, or no task was waiting, as the lock was taken.
   */
  lemma JoinIsComplete(s: State, acts: seq<Act>)
    requires Inv(s) && s.ctl == Waiting(Join) && Enabled(s, Enter)
    requires Run(Do(s, Enter), acts) && Return !in acts && Enabled(After(Do(s, Enter), acts), Return)
    ensures var t := After(Do(s, Enter), acts);
            && t.list == {} && t.stopped == [] && t.toStop == 0
            && (forall w :: w in t.workers ==> t.workers[w] == Exited)
            && ((|s.list| > 0 || forall id: nat :: id < s.next ==> Task(id) !in s.queue)
                <==> forall id: nat :: id < s.next ==> t.done[id] == 1)
  {
    hide Inv, Do, Enabled, Run, After;
    var u := Do(s, Enter);
    var t := After(u, acts);
    EnterJoin(s);
    InvStep(s, Enter);
    RunKeeps(u, acts);
    CallKeeps(u, acts);
    AllExited(t);
    CallOver(t);
    if |s.list| > 0 {
      JoinRunsAll(t);
    } else {
      UnattendedRun(u, acts, s.queue, s.done);
      forall id: nat | id < s.next ensures t.done[id] == 1 <==> Task(id) !in s.queue {
        DoneOrWaiting(s, id);
      }
    }
  }

  lemma EnterJoin(s: State)
    requires Inv(s) && s.ctl == Waiting(Join) && Enabled(s, Enter)
    ensures var u := Do(s, Enter);
            u.batch == |s.list| && u.target == 0 && u.mark == s.next && !u.stopping && InCall(u)
            && (|s.list| == 0 ==> Unattended(u, s.queue, s.done))
  {
    hide Balanced, Listed, Modal, Conserved, Ordered;
    NotStopping(s);
  }

  lemma RunFrom(s: State, act: Act, rest: seq<Act>, t: State)
    requires Enabled(s, act) && Run(Do(s, act), rest) && After(Do(s, act), rest) == t
    ensures Run(s, [act] + rest) && After(s, [act] + rest) == t
  {
    hide Enabled, Do;
    assert ([act] + rest)[1..] == rest;
  }

  /** From the lock to the return there is nothing to wait for. */
  lemma NobodyToRemove(s: State)
    requires s.ctl == Setting && s.batch == 0 && s.collected == 0
    ensures var acts := [SetMode] + ([AddStop] + [Release]);
            Run(s, acts) && Enabled(After(s, acts), Return) && After(s, acts).next == s.next && After(s, acts).done == s.done
  {
    hide Run, After;
    var u := Do(s, SetMode);
    var v := Do(u, AddStop);
    var t := Do(v, Release);
    assert Enabled(t, Return) && t.next == s.next && t.done == s.done;
    hide Do, Enabled;
    NoStep(t);
    assert [Release] + [] == [Release];
    RunFrom(v, Release, [], t);
    RunFrom(u, AddStop, [Release], t);
    RunFrom(s, SetMode, [AddStop] + [Release], t);
  }

  /** The failing run: a task is added to a pool without threads, and join() returns without it. */
  lemma JoinLeavesTask(s: State)
    requires Initial(s)
    ensures var acts := [Add, Invoke(Join), Enter, SetMode, AddStop, Release];
            Run(s, acts) && Enabled(After(s, acts), Return) && After(s, acts).next == 1 && After(s, acts).done[0] == 0
  {
    hide Run, After;
    var u := Do(s, Add);
    var v := Do(u, Invoke(Join));
    var w := Do(v, Enter);
    assert w.ctl == Setting && w.batch == 0 && w.collected == 0 && w.next == 1 && w.done[0] == 0;
    assert Enabled(s, Add) && Enabled(u, Invoke(Join)) && Enabled(v, Enter);
    hide Do, Enabled;
    NobodyToRemove(w);
    var rest := [SetMode] + ([AddStop] + [Release]);
    var t := After(w, rest);
    RunFrom(v, Enter, rest, t);
    RunFrom(u, Invoke(Join), [Enter] + rest, t);
    RunFrom(s, Add, [Invoke(Join)] + ([Enter] + rest), t);
    assert [Add] + ([Invoke(Join)] + ([Enter] + rest)) == [Add, Invoke(Join), Enter, SetMode, AddStop, Release];
  }

  lemma NoStep(t: State)
    ensures Run(t, []) && After(t, []) == t
  {}

  lemma NotStopping(s: State)
    requires Inv(s) && s.ctl.Waiting?
    ensures !s.stopping
  {}

  lemma CallOver(t: State)
    requires Inv(t) && Enabled(t, Return) && !t.stopping
    ensures t.stopped == [] && t.toStop == 0 && |t.list| == t.target && t.collected == t.batch
  {
    hide Num;
    Absent(t, GiveBack);
  }

  /** A shrinking setNumThreads(n): exactly the surplus threads leave, and n stay. */
  lemma ShrinkIsExact(s: State, n: nat, acts: seq<Act>)
    requires Inv(s) && s.ctl == Waiting(Resize(n)) && Enabled(s, Enter) && n < |s.list|
    requires Run(Do(s, Enter), acts) && Return !in acts && Enabled(After(Do(s, Enter), acts), Return)
    ensures var t := After(Do(s, Enter), acts);
            |t.list| == n && t.collected == |s.list| - n && t.stopped == [] && t.toStop == 0
  {
    hide Inv, Do, Enabled, Run, After;
    EnterShrink(s, n);
    InvStep(s, Enter);
    CallRun(Do(s, Enter), acts);
  }

  lemma EnterShrink(s: State, n: nat)
    requires Inv(s) && s.ctl == Waiting(Resize(n)) && Enabled(s, Enter) && n < |s.list|
    ensures var u := Do(s, Enter);
            InCall(u) && u.target == n && u.batch == |s.list| - n && !u.stopping
  {
    NotStopping(s);
    hide Inv;
  }

  /** A call that is not stop(), from inside to its end. */
  lemma CallRun(u: State, acts: seq<Act>)
    requires Inv(u) && InCall(u) && !u.stopping && Run(u, acts) && Return !in acts && Enabled(After(u, acts), Return)
    ensures var t := After(u, acts);
            |t.list| == u.target && t.collected == u.batch && t.stopped == [] && t.toStop == 0
  {
    hide Inv, Run, After, Enabled;
    RunKeeps(u, acts);
    CallKeeps(u, acts);
    CallOver(After(u, acts));
  }

  /** stop() also sees every thread off, though it may leave tasks and poisons behind. */
  lemma StopEmpties(t: State)
    requires Inv(t) && Enabled(t, Return) && t.stopping
    ensures t.list == {} && t.stopped == [] && t.toStop == 0
    ensures forall w :: w in t.workers ==> t.workers[w] == Exited
  {
    AllExited(t);
    hide Num;
    Absent(t, GiveBack);
  }

  lemma {:induction false} Fresh(s: set<nat>) returns (w: nat)
    ensures w !in s && forall x :: x in s ==> x < w
  {
    if s == {} {
      w := 0;
    } else {
      var x :| x in s;
      var v := Fresh(s - {x});
      w := if v <= x then x + 1 else v;
      assert forall y :: y in s ==> y == x || y in s - {x};
    }
  }

  /** Whatever a worker on the list is doing, it can go on, unless it waits for the queue or the lock. */
  lemma WorkerProgress(s: State, w: nat) returns (act: Act)
    requires w in s.workers && OnList(s.workers[w]) && s.queue != [] && s.lock == Free
    ensures Enabled(s, act) && !act.Add? && !act.Invoke?
  {
    match s.workers[w]
    case Idle => act := Take(w);
    case Running(_) => act := Finish(w);
    case AtCheck => act := ReadStop(w);
    case SawStop => act := ReadJoin(w);
    case Giving => act := GiveUp(w);
    case GiveBack => act := Restore(w);
    case Poisoned => act := Decrement(w);
    case Leaving => act := Acquire(w);
    case Locked => act := Remove(w);
  }

  lemma HolderProgress(s: State) returns (act: Act)
    requires Listed(s) && s.lock.Worker?
    ensures Enabled(s, act) && !act.Add? && !act.Invoke?
  {
    var w := s.lock.w;
    match s.workers[w]
    case Locked => act := Remove(w);
    case Removed => act := Report(w);
    case Reported => act := Exit(w);
  }

  lemma Somebody(s: State, pc: Pc) returns (w: nat)
    requires Num(s, pc) > 0
    ensures Is(s, w, pc)
  {
    w :| w in At(s, pc);
  }

  /** Waiting for a thread to stop: some thread is on its way. */
  lemma CollectProgress(s: State) returns (act: Act)
    requires Inv(s) && s.ctl == Collecting && s.collected < s.batch && s.stopped == [] && s.lock == Free
    ensures Enabled(s, act) && !act.Add? && !act.Invoke?
  {
    hide Conserved, Ordered, Modal;
    if Num(s, Removed) > 0 {
      var w := Somebody(s, Removed);
    } else if Num(s, Locked) > 0 {
      var w := Somebody(s, Locked);
    } else if Num(s, Leaving) > 0 {
      var w := Somebody(s, Leaving);
      act := Acquire(w);
    } else if Num(s, Poisoned) > 0 {
      var w := Somebody(s, Poisoned);
      act := Decrement(w);
    } else {
      assert Poisons(s.queue) > 0;
      assert s.queue != [];
      assert |s.list| > 0;
      var w :| w in s.list;
      act := WorkerProgress(s, w);
    }
  }

  /** No deadlock: while a call is under way, some thread of the pool or the caller can take a step. */
  lemma NoDeadlock(s: State) returns (act: Act)
    requires Inv(s) && !s.ctl.Ready? && !s.ctl.Finished?
    ensures Enabled(s, act) && !act.Add? && !act.Invoke?
  {
    if s.lock.Worker? {
      act := HolderProgress(s);
    } else {
      act := CallerProgress(s);
    }
  }

  lemma CallerProgress(s: State) returns (act: Act)
    requires Inv(s) && !s.ctl.Ready? && !s.ctl.Finished? && !s.lock.Worker?
    ensures Enabled(s, act) && !act.Add? && !act.Invoke?
  {
    hide Balanced, Listed, Modal, Conserved, Ordered;
    LockOf(s);
    if s.ctl.Joining? {
      JoinReady(s);
      act := JoinThread;
    } else if s.ctl == Collecting {
      CollectedAtMost(s);
      if s.collected == s.batch {
        act := Return;
      } else if s.stopped != [] {
        act := Collect;
      } else {
        act := CollectProgress(s);
      }
    } else {
      match s.ctl
      case Waiting(_) => act := Enter;
      case Setting => act := SetMode;
      case Adding => act := AddStop;
      case Poisoning(left) => act := if left > 0 then Enqueue else Release;
      case Growing(left) =>
        var w := Fresh(s.workers.Keys);
        act := if left > 0 then Spawn(w) else Release;
      case Releasing => act := Release;
    }
  }

  lemma JoinReady(s: State)
    requires Listed(s) && s.ctl.Joining? && !s.lock.Worker?
    ensures Enabled(s, JoinThread)
  {}

  lemma CollectedAtMost(s: State)
    requires Balanced(s)
    ensures s.collected <= s.batch
  {}
}
