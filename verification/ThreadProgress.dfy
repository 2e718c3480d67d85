/** Every call on the pool comes back: each step but a new task uses up part of a finite budget. */
module ThreadProgress {
  import opened ThreadPool

  /** How many steps a worker can take before it is idle again or gone. */
  function Weight(pc: Pc): nat {
    match pc
    case Exited => 0
    case Reported => 1
    case Removed => 2
    case Locked => 3
    case Leaving => 4
    case Poisoned => 5
    case Idle => 5
    case GiveBack => 6
    case Giving => 7
    case SawStop => 8
    case AtCheck => 9
    case Running(_) => 10
  }

  ghost function Load(workers: map<nat, Pc>): nat
    decreases |workers|
  {
    if workers == map[] then 0
    else
      var w :| w in workers;
      Weight(workers[w]) + Load(workers - {w})
  }

  lemma {:induction false} LoadPick(workers: map<nat, Pc>, w: nat)
    requires w in workers
    ensures Load(workers) == Weight(workers[w]) + Load(workers - {w})
    decreases |workers|
  {
    var v :| v in workers && Load(workers) == Weight(workers[v]) + Load(workers - {v});
    if v != w {
      LoadPick(workers - {v}, w);
      LoadPick(workers - {w}, v);
      assert workers - {v} - {w} == workers - {w} - {v};
    }
  }

  lemma LoadGo(workers: map<nat, Pc>, w: nat, pc: Pc)
    ensures Load(workers[w := pc]) == Load(workers) + Weight(pc) - if w in workers then Weight(workers[w]) else 0
  {
    hide Weight;
    LoadPick(workers[w := pc], w);
    if w in workers {
      LoadPick(workers, w);
      assert workers[w := pc] - {w} == workers - {w};
    } else {
      assert workers[w := pc] - {w} == workers;
    }
  }

  /** Threads the present call has still to collect. */
  function Uncollected(s: State): nat {
    if s.collected <= s.batch then s.batch - s.collected else 0
  }

  /** How many steps are left to the caller, a poison counted with what taking it costs. */
  function CallRank(s: State): nat {
    var left := 2 * Uncollected(s);
    match s.ctl
    case Ready => 0
    case Finished => 0
    case Collecting => left + 1
    case Joining(_) => left + 2
    case Releasing => left + 2
    case Poisoning(n) => left + 2 + 7 * n
    case Growing(n) => left + 2 + 6 * n
    case Adding => left + 3 + 7 * s.batch
    case Setting => left + 4 + 7 * s.batch
    case Waiting(call) => left + 5 + 9 * |s.list| + if call.Resize? then 6 * call.n else 0
  }

  ghost function Rank(s: State): nat {
    Load(s.workers) + 6 * |s.queue| + CallRank(s)
  }

  lemma SameRank(s: State, t: State)
    requires s.ctl == t.ctl && |t.list| <= |s.list| && s.batch == t.batch && s.collected == t.collected
    ensures CallRank(t) <= CallRank(s)
  {}

  /** A worker gets closer to being idle or gone, and an item taken pays for the way back. */
  lemma WorkerCosts(s: State, act: Act)
    requires Enabled(s, act) && Working(act)
    ensures var t := WorkerStep(s, act);
            && act.w in s.workers && act.w in t.workers && t.workers == s.workers[act.w := t.workers[act.w]]
            && Weight(t.workers[act.w]) + 6 * |t.queue| < Weight(s.workers[act.w]) + 6 * |s.queue|
            && t.ctl == s.ctl && t.list == s.list && t.batch == s.batch && t.collected == s.collected
  {}

  lemma WorkerRank(s: State, act: Act)
    requires Enabled(s, act) && Working(act)
    ensures Rank(WorkerStep(s, act)) < Rank(s)
  {
    hide Load, CallRank, Weight, Enabled, WorkerStep;
    WorkerCosts(s, act);
    var t := WorkerStep(s, act);
    LoadGo(s.workers, act.w, t.workers[act.w]);
    SameRank(s, t);
  }

  lemma FewerListed(list: set<nat>, w: nat)
    ensures |list - {w}| <= |list|
  {
    if w in list {
      assert |list - {w}| == |list| - 1;
    } else {
      assert list - {w} == list;
    }
  }

  lemma LeaveCosts(s: State, act: Act)
    requires Enabled(s, act) && (act.Acquire? || act.Remove? || act.Report? || act.Exit?)
    ensures var t := LeaveStep(s, act);
            && act.w in s.workers && act.w in t.workers && t.workers == s.workers[act.w := t.workers[act.w]]
            && Weight(t.workers[act.w]) < Weight(s.workers[act.w]) && t.queue == s.queue
            && t.ctl == s.ctl && |t.list| <= |s.list| && t.batch == s.batch && t.collected == s.collected
  {
    FewerListed(s.list, act.w);
  }

  lemma LeaveRank(s: State, act: Act)
    requires Enabled(s, act) && (act.Acquire? || act.Remove? || act.Report? || act.Exit?)
    ensures Rank(LeaveStep(s, act)) < Rank(s)
  {
    hide Load, CallRank, Weight, Enabled, LeaveStep;
    LeaveCosts(s, act);
    var t := LeaveStep(s, act);
    LoadGo(s.workers, act.w, t.workers[act.w]);
    SameRank(s, t);
  }

  /** What the caller's own step takes off, less what it hands to the workers. */
  lemma CallCosts(s: State, act: Act)
    requires Enabled(s, act) && !Working(act) && !act.Acquire? && !act.Remove? && !act.Report? && !act.Exit?
    requires !act.Invoke?
    ensures CallRank(ControlStep(s, act))
            + (if act.Add? then 0 else if act.Enqueue? then 7 else if act.Spawn? then 6 else 1) <= CallRank(s)
  {
    if act.Enter? {
      EnterCosts(s);
    }
  }

  lemma EnterCosts(s: State)
    requires s.ctl.Waiting?
    ensures CallRank(EnterCall(s)) < CallRank(s)
  {}

  lemma ControlRank(s: State, act: Act)
    requires Enabled(s, act) && !Working(act) && !act.Acquire? && !act.Remove? && !act.Report? && !act.Exit?
    requires !act.Invoke?
    ensures Rank(ControlStep(s, act)) + 1 <= Rank(s) + if act.Add? then 7 else 0
  {
    CallCosts(s, act);
    if act.Spawn? {
      LoadGo(s.workers, act.w, Idle);
      hide CallRank, Load;
    } else {
      ControlKeeps(s, act);
      hide CallRank, Load, ControlStep, Enabled;
    }
  }

  /** What a step costs; only a task added meanwhile raises the budget. */
  lemma StepCosts(s: State, act: Act)
    requires Enabled(s, act) && !act.Invoke?
    ensures Rank(Do(s, act)) + 1 <= Rank(s) + if act.Add? then 7 else 0
  {
    hide Rank;
    if Working(act) {
      WorkerRank(s, act);
    } else if act.Acquire? || act.Remove? || act.Report? || act.Exit? {
      LeaveRank(s, act);
    } else {
      ControlRank(s, act);
    }
  }

  function Added(acts: seq<Act>): nat {
    if acts == [] then 0 else (if acts[0].Add? then 1 else 0) + Added(acts[1..])
  }

  ghost predicate NoNewCall(acts: seq<Act>) {
    forall i :: 0 <= i < |acts| ==> !acts[i].Invoke?
  }

  /** However the threads take turns, a run with no new call is no longer than its budget. */
  lemma {:induction false} RunIsBounded(s: State, acts: seq<Act>)
    requires Run(s, acts) && NoNewCall(acts)
    ensures |acts| + Rank(After(s, acts)) <= Rank(s) + 7 * Added(acts)
    decreases |acts|
  {
    hide Rank, Enabled, Do;
    if acts != [] {
      StepCosts(s, acts[0]);
      assert NoNewCall(acts[1..]);
      RunIsBounded(Do(s, acts[0]), acts[1..]);
    }
  }

  /** A run of that length has brought the caller back, and until then some thread can always move. */
  lemma EveryCallReturns(s: State, acts: seq<Act>)
    requires Inv(s) && Run(s, acts) && NoNewCall(acts)
    ensures var t := After(s, acts);
            && (|acts| >= Rank(s) + 7 * Added(acts) ==> t.ctl.Ready? || t.ctl.Finished?)
            && (t.ctl.Ready? || t.ctl.Finished? || exists act :: Enabled(t, act) && !act.Add? && !act.Invoke?)
  {
    RunIsBounded(s, acts);
    RunKeeps(s, acts);
    var t := After(s, acts);
    hide Inv, Enabled, Run, After, Added;
    if !t.ctl.Ready? && !t.ctl.Finished? {
      var act := NoDeadlock(t);
    }
  }

  /** From every state that can be reached some order of turns, with no new task, brings the caller back. */
  lemma {:induction false} SomeRunReturns(s: State) returns (acts: seq<Act>)
    requires Inv(s)
    ensures Run(s, acts) && NoNewCall(acts) && Added(acts) == 0
    ensures var t := After(s, acts); t.ctl.Ready? || t.ctl.Finished?
    decreases Rank(s)
  {
    if s.ctl.Ready? || s.ctl.Finished? {
      acts := [];
    } else {
      hide Inv, Enabled, Do, Rank;
      var act := NoDeadlock(s);
      StepCosts(s, act);
      InvStep(s, act);
      var rest := SomeRunReturns(Do(s, act));
      acts := [act] + rest;
      assert acts[1..] == rest;
    }
  }
}
