/**
 The process list as a value: what each process operation does to the list, the current process and
 the pid counter. Class `Processes.ProcessTable` is the linked structure that implements these functions.
 */
module Scheduler {
  import opened Words

  datatype RunState = Running | Ready | Blocked | Terminated

  /** One record of the list. `parent` is the pid of the forking process, 0 if there is none. */
  datatype Proc = Proc(pid: u32, parent: u32, state: RunState, dir: u32)

  /** The list from its head, the position of the current process in it, and the next pid. */
  datatype Sys = Sys(procs: seq<Proc>, cur: nat, nextPid: u32)

  /** What holds in every state the kernel reaches. */
  ghost predicate Inv(s: Sys) {
    && s.cur < |s.procs|
    && (forall i, j :: 0 <= i < j < |s.procs| ==> s.procs[i].pid > s.procs[j].pid)
    && (forall i :: 0 <= i < |s.procs| ==> 0 < s.procs[i].pid < s.nextPid)
    && (forall i :: 0 <= i < |s.procs| ==> s.procs[i].parent < s.procs[i].pid)
    && (forall i :: 0 <= i < |s.procs| && s.procs[i].state.Running? ==> i == s.cur)
    && (s.procs[s.cur].state.Running? || s.procs[s.cur].state.Terminated?)
  }

  // ----- the operations

  /** The list position after i, going back to the head at the end. */
  function Succ(n: nat, i: nat): (j: nat)
    requires i < n
    ensures j < n
  {
    if i + 1 < n then i + 1 else 0
  }

  /** How many moves of Succ lead from i to target. */
  function Gap(n: nat, i: nat, target: nat): nat
    requires i < n && target < n
  {
    if i <= target then target - i else n - i + target
  }

  /** The wrap-around search of schedule, from position i. */
  function Scan(procs: seq<Proc>, cur: nat, i: nat): (j: nat)
    requires cur < |procs| && i < |procs|
    ensures j < |procs|
    ensures j == cur || procs[j].state.Ready?
    decreases Gap(|procs|, i, cur)
  {
    if procs[i].state.Ready? || i == cur then i else Scan(procs, cur, Succ(|procs|, i))
  }

  /** switch_task: process j is RUNNING and current. */
  function Switch(s: Sys, j: nat): Sys
    requires j < |s.procs|
  {
    Sys(s.procs[j := s.procs[j].(state := Running)], j, s.nextPid)
  }

  /** schedule: the outgoing process becomes READY whatever it was. */
  function Reschedule(s: Sys): (t: Sys)
    requires s.cur < |s.procs|
    ensures t.cur < |t.procs| == |s.procs|
  {
    var j := Scan(s.procs, s.cur, Succ(|s.procs|, s.cur));
    if j == s.cur then s
    else Switch(s.(procs := s.procs[s.cur := s.procs[s.cur].(state := Ready)]), j)
  }

  /** The part of create_process that concerns the list: a READY record pushed at the head. */
  function Create(s: Sys, parent: u32, dir: u32): Sys {
    Sys([Proc(s.nextPid, parent, Ready, dir)] + s.procs, s.cur + 1, Add32(s.nextPid, 1))
  }

  function Fork(s: Sys, dir: u32): Sys
    requires s.cur < |s.procs|
  {
    Create(s, s.procs[s.cur].pid, dir)
  }

  /** destroy_process of a process other than the current one. */
  function Destroy(s: Sys, k: nat): Sys
    requires k < |s.procs|
  {
    Sys(s.procs[..k] + s.procs[k + 1..], if k < s.cur then s.cur - 1 else s.cur, s.nextPid)
  }

  /** Wakes every BLOCKED process with this pid: there is at most one. */
  function Wake(procs: seq<Proc>, pid: u32): (r: seq<Proc>)
    ensures |r| == |procs|
    ensures forall i :: 0 <= i < |procs| ==>
      r[i] == if procs[i].pid == pid && procs[i].state.Blocked? then procs[i].(state := Ready) else procs[i]
  {
    seq(|procs|, i requires 0 <= i < |procs| =>
      if procs[i].pid == pid && procs[i].state.Blocked? then procs[i].(state := Ready) else procs[i])
  }

  /** exit, before it calls schedule. */
  function Terminate(s: Sys): (t: Sys)
    requires s.cur < |s.procs|
    ensures t.cur == s.cur && |t.procs| == |s.procs|
  {
    var me := s.procs[s.cur];
    s.(procs := Wake(s.procs[s.cur := me.(state := Terminated)], me.parent))
  }

  function Exit(s: Sys): (t: Sys)
    requires s.cur < |s.procs|
    ensures t.cur < |t.procs| == |s.procs|
  {
    Reschedule(Terminate(s))
  }

  /** The state process_init leaves when the list was empty. */
  function Boot(dir: u32): Sys {
    Sys([Proc(1, 0, Running, dir)], 0, 2)
  }

  // ----- runs

  /** OpSkip is a step that leaves the list alone: a creation that fails, or an operation on the memory. */
  datatype Op = OpCreate(dir: u32) | OpFork(dir: u32) | OpDestroy(k: nat) | OpSchedule | OpExit | OpSkip

  predicate Enabled(s: Sys, op: Op) {
    match op
    case OpCreate(_) => s.nextPid < WORD - 1
    case OpFork(_) => s.nextPid < WORD - 1
    case OpDestroy(k) => k < |s.procs| && k != s.cur
    case _ => true
  }

  function Apply(s: Sys, op: Op): Sys
    requires s.cur < |s.procs| && Enabled(s, op)
  {
    match op
    case OpCreate(dir) => Create(s, 0, dir)
    case OpFork(dir) => Fork(s, dir)
    case OpDestroy(k) => Destroy(s, k)
    case OpSchedule => Reschedule(s)
    case OpExit => Exit(s)
    case OpSkip => s
  }

  /** Every operation of ops, performed in order from s, is enabled when its turn comes. */
  ghost predicate Runs(s: Sys, ops: seq<Op>)
    requires Inv(s)
    decreases |ops|
  {
    ops != [] ==> Enabled(s, ops[0]) && (ApplyKeepsInv(s, ops[0]); Runs(Apply(s, ops[0]), ops[1..]))
  }

  ghost function Final(s: Sys, ops: seq<Op>): (f: Sys)
    requires Inv(s) && Runs(s, ops)
    ensures Inv(f)
    decreases |ops|
  {
    if ops == [] then s else (ApplyKeepsInv(s, ops[0]); Final(Apply(s, ops[0]), ops[1..]))
  }

  // ----- the scan

  /** Scan returns the first READY process met on the way to cur, and cur only if there is none. */
  lemma {:induction false} ScanIsFirstReady(procs: seq<Proc>, cur: nat, i: nat, k: nat)
    requires cur < |procs| && i < |procs| && k < |procs|
    requires procs[k].state.Ready? && Gap(|procs|, i, k) <= Gap(|procs|, i, cur)
    ensures Gap(|procs|, i, Scan(procs, cur, i)) <= Gap(|procs|, i, k)
    decreases Gap(|procs|, i, cur)
  {
    if procs[i].state.Ready? || i == cur {
    } else {
      ScanIsFirstReady(procs, cur, Succ(|procs|, i), k);
    }
  }

  lemma RescheduleKeepsInv(s: Sys)
    requires Inv(s)
    ensures Inv(Reschedule(s))
  {
  }

  lemma TerminateKeepsInv(s: Sys)
    requires Inv(s)
    ensures Inv(Terminate(s))
  {
  }

  /** A parent that was BLOCKED when its child exits is READY afterwards, or already runs. */
  lemma ExitWakesParent(s: Sys, k: nat)
    requires s.cur < |s.procs| && k < |s.procs| && k != s.cur
    requires s.procs[k].pid == s.procs[s.cur].parent && s.procs[k].state.Blocked?
    ensures var t := Exit(s);
      if t.cur == k then t.procs[k].state == Running else t.procs[k].state == Ready
  {
  }

  /** A process that neither runs, nor is chosen, nor waits as a parent, keeps its state when another one exits. */
  lemma ExitSparesOthers(s: Sys, k: nat)
    requires s.cur < |s.procs| && k < |s.procs| && k != s.cur && k != Exit(s).cur
    requires s.procs[k].pid == s.procs[s.cur].parent ==> !s.procs[k].state.Blocked?
    ensures Exit(s).procs[k] == s.procs[k]
  {
  }

  lemma CreateKeepsInv(s: Sys, parent: u32, dir: u32)
    requires Inv(s) && s.nextPid < WORD - 1 && parent < s.nextPid
    ensures Inv(Create(s, parent, dir))
  {
    var r := Create(s, parent, dir);
    forall i | 0 < i < |r.procs|
      ensures r.procs[i] == s.procs[i - 1]
    {
    }
  }

  lemma DestroyKeepsInv(s: Sys, k: nat)
    requires Inv(s) && k < |s.procs| && k != s.cur
    ensures Inv(Destroy(s, k))
  {
    var r := Destroy(s, k);
    forall i | 0 <= i < |r.procs|
      ensures r.procs[i] == s.procs[if i < k then i else i + 1]
    {
    }
  }

  /** Only a creation takes a pid. */
  lemma PidMoves(s: Sys, op: Op)
    requires s.cur < |s.procs| && Enabled(s, op)
    ensures Apply(s, op).nextPid == s.nextPid + (if op.OpCreate? || op.OpFork? then 1 else 0)
  {
  }

  /** One step of any operation keeps the invariant, as long as the pid counter has not wrapped. */
  lemma ApplyKeepsInv(s: Sys, op: Op)
    requires Inv(s) && Enabled(s, op)
    ensures Inv(Apply(s, op))
  {
    match op
    case OpCreate(dir) => CreateKeepsInv(s, 0, dir);
    case OpFork(dir) => CreateKeepsInv(s, s.procs[s.cur].pid, dir);
    case OpDestroy(k) => DestroyKeepsInv(s, k);
    case OpSchedule => RescheduleKeepsInv(s);
    case OpExit =>
      TerminateKeepsInv(s);
      RescheduleKeepsInv(Terminate(s));
    case OpSkip =>
  }
}
