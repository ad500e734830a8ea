/** Whole runs of the scheduler: no starvation, fair rotation, and which run states are reachable. */
module Liveness {
  import opened Words
  import opened Scheduler

  predicate Reschedules(op: Op) {
    op.OpSchedule? || op.OpExit?
  }

  /** Where the process now at position j is after op, unless op destroys it. */
  function Moved(op: Op, j: nat): nat {
    match op
    case OpCreate(_) => j + 1
    case OpFork(_) => j + 1
    case OpDestroy(k) => if k < j then j - 1 else j
    case _ => j
  }

  /** 1 while the search still has to pass the end of the list before it meets position j. */
  function Wraps(s: Sys, j: nat): nat {
    if s.cur < j then 0 else 1
  }

  /** How far the search still is from j or, before it has wrapped, from the end of the list. */
  function Ahead(s: Sys, j: nat): int {
    if s.cur < j then j - s.cur else |s.procs| - s.cur
  }

  /** The two parts of the measure together: an upper bound on the moves left if nothing is created. */
  function Distance(s: Sys, j: nat): int {
    if s.cur < j then j - s.cur else |s.procs| - s.cur + j
  }

  ghost predicate Waiting(s: Sys, j: nat) {
    j < |s.procs| && j != s.cur && s.procs[j].state.Ready?
  }

  lemma TerminateKeepsReady(s: Sys, j: nat)
    requires Inv(s) && Waiting(s, j)
    ensures Waiting(Terminate(s), j) && Terminate(s).procs[j].pid == s.procs[j].pid
    ensures Terminate(s).cur == s.cur && |Terminate(s).procs| == |s.procs|
  {
  }

  /** A call of schedule runs the waiting process or comes strictly nearer to it. */
  lemma RescheduleApproaches(s: Sys, j: nat)
    requires Inv(s) && Waiting(s, j)
    ensures var t := Reschedule(s);
      && |t.procs| == |s.procs| && t.procs[j].pid == s.procs[j].pid
      && (t.cur == j || (Waiting(t, j) && Distance(t, j) < Distance(s, j)
          && (Wraps(t, j) < Wraps(s, j) || (Wraps(t, j) == Wraps(s, j) && Ahead(t, j) < Ahead(s, j)))))
  {
    ScanIsFirstReady(s.procs, s.cur, Succ(|s.procs|, s.cur), j);
  }

  lemma CreateMeasure(s: Sys, parent: u32, dir: u32, j: nat)
    requires Waiting(s, j) && s.cur < |s.procs|
    ensures var t := Create(s, parent, dir);
      && Waiting(t, j + 1) && t.procs[j + 1].pid == s.procs[j].pid
      && Wraps(t, j + 1) == Wraps(s, j) && Ahead(t, j + 1) == Ahead(s, j) && Distance(t, j + 1) <= Distance(s, j) + 1
  {
  }

  lemma DestroyMeasure(s: Sys, k: nat, j: nat)
    requires Waiting(s, j) && s.cur < |s.procs| && k < |s.procs| && k != s.cur && k != j
    ensures var t, i := Destroy(s, k), if k < j then j - 1 else j;
      && Waiting(t, i) && t.procs[i].pid == s.procs[j].pid
      && Wraps(t, i) == Wraps(s, j) && Ahead(t, i) <= Ahead(s, j) && Distance(t, i) <= Distance(s, j)
  {
    var t := Destroy(s, k);
    assert t.procs[if k < j then j - 1 else j] == s.procs[j];
  }

  /** The effect of any step on a waiting process that the step does not destroy. */
  lemma StepMeasure(s: Sys, op: Op, j: nat)
    requires Inv(s) && Enabled(s, op) && Waiting(s, j) && op != OpDestroy(j)
    ensures var t, i := Apply(s, op), Moved(op, j);
      && i < |t.procs| && t.procs[i].pid == s.procs[j].pid
      && (t.cur == i || (
          && Waiting(t, i)
          && Distance(t, i) <= Distance(s, j) + (if op.OpCreate? || op.OpFork? then 1 else 0)
          && (Reschedules(op) ==> Distance(t, i) < Distance(s, j))
          && (|| Wraps(t, i) < Wraps(s, j)
              || (Wraps(t, i) == Wraps(s, j) && Ahead(t, i) < Ahead(s, j))
              || (!Reschedules(op) && Wraps(t, i) == Wraps(s, j) && Ahead(t, i) == Ahead(s, j)))))
  {
    match op
    case OpSchedule => RescheduleApproaches(s, j);
    case OpExit =>
      TerminateKeepsReady(s, j);
      TerminateKeepsInv(s);
      RescheduleApproaches(Terminate(s), j);
    case OpCreate(dir) => CreateMeasure(s, 0, dir, j);
    case OpFork(dir) => CreateMeasure(s, s.procs[s.cur].pid, dir, j);
    case OpDestroy(k) => DestroyMeasure(s, k, j);
    case OpSkip =>
  }

  // ----- infinite runs

  /** tr is the infinite run that performs ops one after the other. */
  ghost predicate IsRun(tr: nat -> Sys, ops: nat -> Op) {
    Inv(tr(0)) && forall t: nat ::
      Inv(tr(t)) && Enabled(tr(t), ops(t)) && tr(t + 1) == Apply(tr(t), ops(t))
  }

  ghost predicate SchedulesAt(ops: nat -> Op, u: nat) {
    Reschedules(ops(u))
  }

  ghost predicate SchedulesAfter(ops: nat -> Op, t: nat) {
    exists u :: u >= t && SchedulesAt(ops, u)
  }

  /** schedule is called again and again. */
  ghost predicate Fair(ops: nat -> Op) {
    forall t: nat :: SchedulesAfter(ops, t)
  }

  ghost predicate Listed(s: Sys, pid: u32) {
    exists j :: 0 <= j < |s.procs| && s.procs[j].pid == pid
  }

  ghost predicate CurrentAt(tr: nat -> Sys, t: nat, pid: u32) {
    tr(t).cur < |tr(t).procs| && tr(t).procs[tr(t).cur].pid == pid
  }

  /**
   No starvation. A READY process that stays in the list becomes current, whatever the other processes
   create, fork, destroy and exit meanwhile. The measure is lexicographic: has the search still to wrap,
   then the distance to the end of the list or to the process, then the time to the next call of schedule.
   */
  lemma {:induction false} NoStarvation(tr: nat -> Sys, ops: nat -> Op, t: nat, j: nat)
    requires IsRun(tr, ops) && Fair(ops)
    requires Waiting(tr(t), j)
    requires forall u :: u >= t ==> Listed(tr(u), tr(t).procs[j].pid)
    ensures exists u :: u >= t && CurrentAt(tr, u, tr(t).procs[j].pid)
  {
    assert SchedulesAfter(ops, t);
    var u :| u >= t && SchedulesAt(ops, u);
    NoStarvationUntil(tr, ops, tr(t).procs[j].pid, t, j, u);
  }

  lemma {:induction false} NoStarvationUntil(tr: nat -> Sys, ops: nat -> Op, pid: u32, t: nat, j: nat, u: nat)
    requires IsRun(tr, ops) && Fair(ops)
    requires Waiting(tr(t), j) && tr(t).procs[j].pid == pid
    requires forall v :: v >= t ==> Listed(tr(v), pid)
    requires u >= t && SchedulesAt(ops, u)
    ensures exists v :: v >= t && CurrentAt(tr, v, pid)
    decreases Wraps(tr(t), j), Ahead(tr(t), j), u - t
  {
    assert Listed(tr(t + 1), pid);
    StaysMeansNotDestroyed(tr(t), ops(t), j);
    StepMeasure(tr(t), ops(t), j);
    var i := Moved(ops(t), j);
    assert tr(t + 1) == Apply(tr(t), ops(t));
    if tr(t + 1).cur == i {
      assert CurrentAt(tr, t + 1, pid);
    } else if t == u {
      assert SchedulesAfter(ops, t + 1);
      var w :| w >= t + 1 && SchedulesAt(ops, w);
      NoStarvationUntil(tr, ops, pid, t + 1, i, w);
    } else {
      NoStarvationUntil(tr, ops, pid, t + 1, i, u);
    }
  }

  /** Pids are distinct, so a destroyed process is gone. */
  lemma StaysMeansNotDestroyed(s: Sys, op: Op, j: nat)
    requires Inv(s) && Enabled(s, op) && j < |s.procs|
    requires Listed(Apply(s, op), s.procs[j].pid)
    ensures op != OpDestroy(j)
  {
  }

  // ----- finite runs

  function CountSchedules(ops: seq<Op>): nat {
    if ops == [] then 0 else (if Reschedules(ops[0]) then 1 else 0) + CountSchedules(ops[1..])
  }

  function CountCreations(ops: seq<Op>): nat {
    if ops == [] then 0
    else (if ops[0].OpCreate? || ops[0].OpFork? then 1 else 0) + CountCreations(ops[1..])
  }

  /** pid is current somewhere on the run of ops from s. */
  ghost predicate RunsWithin(s: Sys, ops: seq<Op>, pid: u32)
    requires Inv(s) && Runs(s, ops)
    decreases |ops|
  {
    || s.procs[s.cur].pid == pid
    || (ops != [] && (ApplyKeepsInv(s, ops[0]); RunsWithin(Apply(s, ops[0]), ops[1..], pid)))
  }

  /** pid is in the list in every state of the run of ops from s. */
  ghost predicate StaysListed(s: Sys, ops: seq<Op>, pid: u32)
    requires Inv(s) && Runs(s, ops)
    decreases |ops|
  {
    && Listed(s, pid)
    && (ops != [] ==> (ApplyKeepsInv(s, ops[0]); StaysListed(Apply(s, ops[0]), ops[1..], pid)))
  }

  /** A bound: it waits at most for its distance in calls of schedule, plus one call per process created. */
  lemma {:induction false} WaitBound(s: Sys, ops: seq<Op>, j: nat)
    requires Inv(s) && Runs(s, ops) && Waiting(s, j) && StaysListed(s, ops, s.procs[j].pid)
    requires CountSchedules(ops) >= Distance(s, j) + CountCreations(ops)
    ensures RunsWithin(s, ops, s.procs[j].pid)
    decreases |ops|
  {
    if ops != [] {
      ApplyKeepsInv(s, ops[0]);
      StaysMeansNotDestroyed(s, ops[0], j);
      StepMeasure(s, ops[0], j);
      var t, i := Apply(s, ops[0]), Moved(ops[0], j);
      if t.cur != i {
        WaitBound(t, ops[1..], i);
      }
    }
  }

  // ----- a fixed list

  /** Every process but the current one is READY, and the current one is RUNNING. */
  ghost predicate AllReady(s: Sys) {
    && s.cur < |s.procs|
    && s.procs[s.cur].state.Running?
    && forall i :: 0 <= i < |s.procs| && i != s.cur ==> s.procs[i].state.Ready?
  }

  function Rotate(s: Sys, k: nat): (t: Sys)
    requires s.cur < |s.procs|
    ensures t.cur < |t.procs| == |s.procs|
  {
    if k == 0 then s else Reschedule(Rotate(s, k - 1))
  }

  function Plus(n: nat, c: nat, k: nat): nat
    requires c < n && k <= n
  {
    if c + k < n then c + k else c + k - n
  }

  lemma {:induction false} RotateAt(s: Sys, k: nat)
    requires AllReady(s) && k <= |s.procs|
    ensures AllReady(Rotate(s, k)) && Rotate(s, k).cur == Plus(|s.procs|, s.cur, k)
    ensures Rotate(s, k).nextPid == s.nextPid
    ensures forall i :: 0 <= i < |s.procs| ==>
      Rotate(s, k).procs[i].(state := Ready) == s.procs[i].(state := Ready)
  {
    if k > 0 {
      RotateAt(s, k - 1);
      RescheduleTakesNext(Rotate(s, k - 1));
    }
  }

  lemma RescheduleTakesNext(s: Sys)
    requires AllReady(s)
    ensures var t := Reschedule(s);
      && AllReady(t) && t.cur == Succ(|s.procs|, s.cur) && t.nextPid == s.nextPid && |t.procs| == |s.procs|
      && forall i :: 0 <= i < |s.procs| ==> t.procs[i].(state := Ready) == s.procs[i].(state := Ready)
  {
  }

  /**
   Fair rotation: with a fixed list of n READY and RUNNING processes, n calls of schedule run every
   process exactly once and lead back to the very state they started from.
   */
  lemma RoundRobin(s: Sys, i: nat)
    requires AllReady(s) && i < |s.procs|
    ensures Rotate(s, |s.procs|) == s
    ensures exists k :: 1 <= k <= |s.procs| && OnlyTurn(s, i, k)
  {
    var n := |s.procs|;
    RotateAt(s, n);
    SameUpToState(s, Rotate(s, n));
    var k := if i > s.cur then i - s.cur else i + n - s.cur;
    forall m | 1 <= m <= n
      ensures Rotate(s, m).cur == Plus(n, s.cur, m)
    {
      RotateAt(s, m);
    }
    assert OnlyTurn(s, i, k);
  }

  /** Of the first n calls of schedule, the k-th and no other one makes position i current. */
  ghost predicate OnlyTurn(s: Sys, i: nat, k: nat)
    requires s.cur < |s.procs|
  {
    forall m :: 1 <= m <= |s.procs| ==> (Rotate(s, m).cur == i <==> m == k)
  }

  lemma SameUpToState(s: Sys, t: Sys)
    requires AllReady(s) && AllReady(t) && s.cur == t.cur && s.nextPid == t.nextPid
    requires |s.procs| == |t.procs|
    requires forall i :: 0 <= i < |s.procs| ==> t.procs[i].(state := Ready) == s.procs[i].(state := Ready)
    ensures s == t
  {
  }

  // ----- reachable states

  /** What the operations add to Inv on runs from boot: a process that is not current is READY. */
  ghost predicate OthersReady(s: Sys) {
    forall i :: 0 <= i < |s.procs| && i != s.cur ==> s.procs[i].state.Ready?
  }

  lemma StepKeepsOthersReady(s: Sys, op: Op)
    requires Inv(s) && Enabled(s, op) && OthersReady(s)
    ensures OthersReady(Apply(s, op))
  {
    match op
    case OpDestroy(k) =>
      var r := Destroy(s, k);
      assert forall i :: 0 <= i < |r.procs| ==> r.procs[i] == s.procs[if i < k then i else i + 1];
    case OpSchedule => RescheduleKeepsOthersReady(s);
    case OpExit =>
      TerminateKeepsOthersReady(s);
      RescheduleKeepsOthersReady(Terminate(s));
    case OpSkip =>
    case _ =>
      var r := Apply(s, op);
      assert forall i :: 0 < i < |r.procs| ==> r.procs[i] == s.procs[i - 1];
  }

  lemma RescheduleKeepsOthersReady(s: Sys)
    requires s.cur < |s.procs| && OthersReady(s)
    ensures OthersReady(Reschedule(s))
  {
  }

  lemma TerminateKeepsOthersReady(s: Sys)
    requires s.cur < |s.procs| && OthersReady(s)
    ensures OthersReady(Terminate(s))
  {
  }

  lemma {:induction false} RunKeepsOthersReady(s: Sys, ops: seq<Op>)
    requires Inv(s) && OthersReady(s) && Runs(s, ops)
    ensures OthersReady(Final(s, ops))
    decreases |ops|
  {
    if ops != [] {
      ApplyKeepsInv(s, ops[0]);
      StepKeepsOthersReady(s, ops[0]);
      RunKeepsOthersReady(Apply(s, ops[0]), ops[1..]);
    }
  }

  /** Every state of every run from boot satisfies Inv, and no process that is not current is ever blocked. */
  lemma Reachable(dir: u32, ops: seq<Op>)
    requires Runs(Boot(dir), ops)
    ensures Inv(Final(Boot(dir), ops)) && OthersReady(Final(Boot(dir), ops))
  {
    RunKeepsOthersReady(Boot(dir), ops);
  }

  /**
   "A terminated process never runs again" is false of this scheduler, exactly when some other process is
   READY: then exit leaves the caller READY and, from every reachable state, as many calls of schedule as
   there are other processes make it current again.
   */
  lemma ExitedRunsAgain(s: Sys)
    requires Inv(s) && OthersReady(s)
    ensures Exit(s).procs[s.cur].state.Ready? <==> |s.procs| > 1
    ensures |s.procs| == 1 ==> Exit(s).procs[s.cur].state.Terminated? && Exit(s).cur == s.cur
    ensures |s.procs| > 1 ==> Exit(s).cur == Succ(|s.procs|, s.cur) && AllReady(Exit(s))
    ensures |s.procs| > 1 ==> Rotate(Exit(s), |s.procs| - 1).cur == s.cur
  {
    var t := Exit(s);
    if |s.procs| > 1 {
      assert AllReady(t);
      RotateAt(t, |s.procs| - 1);
    }
  }

  /** A chain of list positions from a process to its parent, to the parent's parent, and so on. */
  predicate Ancestors(s: Sys, path: seq<nat>) {
    path != [] ==>
      && path[0] < |s.procs| && Ancestors(s, path[1..])
      && (|path| > 1 ==> s.procs[path[0]].parent == s.procs[path[1]].pid)
  }

  /**
   Ancestry is acyclic: going from child to parent leads strictly down the list, so no chain is longer than the list.
   */
  lemma {:induction false} AncestryIsAcyclic(s: Sys, path: seq<nat>)
    requires Inv(s) && Ancestors(s, path) && path != []
    ensures path[0] + |path| <= |s.procs|
    ensures forall j :: 0 < j < |path| ==> path[0] < path[j] < |s.procs| && s.procs[path[j]].pid < s.procs[path[0]].pid
  {
    if |path| > 1 {
      AncestryIsAcyclic(s, path[1..]);
      assert forall j :: 1 < j < |path| ==> path[j] == path[1..][j - 1];
    }
  }

  /** The ancestors of a new child are its parent and the parent's ancestors, and nobody else's ancestors change. */
  lemma ForkExtendsAncestry(s: Sys, dir: u32, path: seq<nat>)
    requires Inv(s) && Enabled(s, OpFork(dir))
    ensures var t := Fork(s, dir);
      && (Ancestors(t, [0] + path) <==> path == [] || (path[0] == t.cur && Ancestors(t, path)))
      && (Ancestors(t, Shifted(path)) <==> Ancestors(s, path))
  {
    hide Ancestors, Fork;
    var t := Fork(s, dir);
    ApplyKeepsInv(s, OpFork(dir));
    ForkLinks(s, dir);
    ChildChain(t, path);
    ShiftedAncestors(s, t, path);
  }

  /** The child is the new head and points to its parent; the old list lies behind it. */
  lemma ForkLinks(s: Sys, dir: u32)
    requires s.cur < |s.procs|
    ensures var t := Fork(s, dir);
      && t.cur < |t.procs| == |s.procs| + 1 && t.procs[0].parent == t.procs[t.cur].pid
      && forall i :: 0 <= i < |s.procs| ==> t.procs[i + 1] == s.procs[i]
  {
    assert Fork(s, dir).procs[s.cur + 1] == s.procs[s.cur];
  }

  lemma ChildChain(t: Sys, path: seq<nat>)
    requires Inv(t) && t.cur < |t.procs| && t.procs[0].parent == t.procs[t.cur].pid
    ensures Ancestors(t, [0] + path) <==> path == [] || (path[0] == t.cur && Ancestors(t, path))
  {
    hide Ancestors, Inv;
    ChainFront(t, 0, path);
    if path == [] {
      ChainFront(t, 0, []);
      NoChain(t);
    } else if path[0] < |t.procs| {
      SolePid(t, path[0], t.cur);
    }
  }

  lemma NoChain(s: Sys)
    ensures Ancestors(s, [])
  {
  }

  lemma ChainFront(s: Sys, i: nat, path: seq<nat>)
    ensures Ancestors(s, [i] + path) <==>
      && i < |s.procs| && Ancestors(s, path)
      && (path != [] ==> path[0] < |s.procs| && s.procs[i].parent == s.procs[path[0]].pid)
    ensures Ancestors(s, path) && path != [] ==> path[0] < |s.procs|
  {
    assert ([i] + path)[1..] == path;
  }

  lemma SolePid(s: Sys, i: nat, j: nat)
    requires Inv(s) && i < |s.procs| && j < |s.procs|
    ensures s.procs[i].pid == s.procs[j].pid <==> i == j
  {
  }

  /** The positions one further down the list. */
  function Shifted(path: seq<nat>): (r: seq<nat>)
    ensures |r| == |path| && forall k :: 0 <= k < |path| ==> r[k] == path[k] + 1
  {
    if path == [] then [] else [path[0] + 1] + Shifted(path[1..])
  }

  lemma {:induction false} ShiftedAncestors(s: Sys, t: Sys, path: seq<nat>)
    requires |t.procs| == |s.procs| + 1 && forall i :: 0 <= i < |s.procs| ==> t.procs[i + 1] == s.procs[i]
    ensures Ancestors(t, Shifted(path)) <==> Ancestors(s, path)
  {
    if path != [] {
      ShiftedAncestors(s, t, path[1..]);
      assert Shifted(path)[1..] == Shifted(path[1..]);
    }
  }
}
