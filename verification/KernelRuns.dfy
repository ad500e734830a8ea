/**
 The scheduling theorems on runs of the whole kernel, where a creation can fail and memory operations happen in
 between, and the identity map of low memory on the same runs.
 */
module KernelRuns {
  import opened Words
  import Heap
  import Kernel
  import Liveness
  import PageTables
  import Scheduler
  import VirtualMemory

  type State = Kernel.State

  // ----- what a step of the kernel does to the list

  /** The step of the list behind a step of the kernel. */
  ghost function ListOp(k: State, op: Kernel.Op, kd: u32): Scheduler.Op {
    match op
    case Spawn(user) =>
      if !VirtualMemory.Valid(k.vm) || Kernel.Blocks(k.vm).0 == 0 then Scheduler.OpSkip
      else Scheduler.OpCreate(Kernel.Prepare(k.vm, user, kd).0)
    case Fork =>
      if !VirtualMemory.Valid(k.vm) || Kernel.Blocks(k.vm).0 == 0 then Scheduler.OpSkip
      else Scheduler.OpFork(Kernel.Prepare(k.vm, true, kd).0)
    case Destroy(i) => Scheduler.OpDestroy(i)
    case Schedule => Scheduler.OpSchedule
    case Exit => Scheduler.OpExit
    case Memory(_) => Scheduler.OpSkip
  }

  lemma StepOnList(k: State, op: Kernel.Op, kd: u32)
    requires Kernel.Inv(k, kd) && Kernel.Enabled(k, op)
    ensures Scheduler.Inv(k.sys) && Scheduler.Enabled(k.sys, ListOp(k, op, kd))
    ensures Kernel.Apply(k, op, kd).sys == Scheduler.Apply(k.sys, ListOp(k, op, kd))
    ensures Liveness.Reschedules(ListOp(k, op, kd)) <==> op.Schedule? || op.Exit?
  {
    Kernel.PidsNeverRunOut(k, kd);
  }

  // ----- no starvation

  /** tr is the infinite run of the kernel that performs ops one after the other. */
  ghost predicate IsRun(tr: nat -> State, ops: nat -> Kernel.Op, kd: u32) {
    forall t: nat ::
      Kernel.Inv(tr(t), kd) && Kernel.Enabled(tr(t), ops(t)) && tr(t + 1) == Kernel.Apply(tr(t), ops(t), kd)
  }

  ghost predicate SchedulesAt(ops: nat -> Kernel.Op, u: nat) {
    ops(u).Schedule? || ops(u).Exit?
  }

  ghost predicate SchedulesAfter(ops: nat -> Kernel.Op, t: nat) {
    exists u :: u >= t && SchedulesAt(ops, u)
  }

  /** schedule is called again and again. */
  ghost predicate Fair(ops: nat -> Kernel.Op) {
    forall t: nat :: SchedulesAfter(ops, t)
  }

  ghost predicate CurrentAt(tr: nat -> State, t: nat, pid: u32) {
    var s := tr(t).sys;
    s.cur < |s.procs| && s.procs[s.cur].pid == pid
  }

  /**
   No starvation in the kernel: a READY process that stays listed becomes current, whatever the others create, fork,
   destroy, exit, map, unmap and allocate meanwhile, and whether or not the heap can serve them.
   */
  lemma NoStarvation(tr: nat -> State, ops: nat -> Kernel.Op, kd: u32, t: nat, j: nat)
    requires IsRun(tr, ops, kd) && Fair(ops)
    requires Liveness.Waiting(tr(t).sys, j)
    requires forall u :: u >= t ==> Liveness.Listed(tr(u).sys, tr(t).sys.procs[j].pid)
    ensures exists u :: u >= t && CurrentAt(tr, u, tr(t).sys.procs[j].pid)
  {
    hide Kernel.Inv, Kernel.Enabled, Kernel.Apply, Scheduler.Enabled, Scheduler.Apply, ListOp;
    ghost var lists: nat -> Scheduler.Sys := (u: nat) => tr(u).sys;
    ghost var steps: nat -> Scheduler.Op := (u: nat) => ListOp(tr(u), ops(u), kd);
    forall u: nat
      ensures Scheduler.Inv(lists(u)) && Scheduler.Enabled(lists(u), steps(u))
      ensures lists(u + 1) == Scheduler.Apply(lists(u), steps(u))
      ensures Liveness.SchedulesAt(steps, u) <==> SchedulesAt(ops, u)
    {
      StepOnList(tr(u), ops(u), kd);
    }
    forall u: nat ensures Liveness.SchedulesAfter(steps, u) {
      assert SchedulesAfter(ops, u);
      var w :| w >= u && SchedulesAt(ops, w);
      assert Liveness.SchedulesAt(steps, w);
    }
    Liveness.NoStarvation(lists, steps, t, j);
    var u :| u >= t && Liveness.CurrentAt(lists, u, tr(t).sys.procs[j].pid);
    assert CurrentAt(tr, u, tr(t).sys.procs[j].pid);
  }

  // ----- finite runs

  /** The steps of the list behind a run. */
  ghost function ListOps(k: State, ops: seq<Kernel.Op>, kd: u32): (r: seq<Scheduler.Op>)
    requires Kernel.Inv(k, kd) && Kernel.Runs(k, ops, kd)
    ensures |r| == |ops|
    decreases |ops|
  {
    if ops == [] then []
    else
      Kernel.ApplyKeepsInv(k, ops[0], kd);
      [ListOp(k, ops[0], kd)] + ListOps(Kernel.Apply(k, ops[0], kd), ops[1..], kd)
  }

  lemma {:induction false} RunOnList(k: State, ops: seq<Kernel.Op>, kd: u32)
    requires Kernel.Inv(k, kd) && Kernel.Runs(k, ops, kd)
    ensures Scheduler.Inv(k.sys) && Scheduler.Runs(k.sys, ListOps(k, ops, kd))
    ensures Kernel.Final(k, ops, kd).sys == Scheduler.Final(k.sys, ListOps(k, ops, kd))
    decreases |ops|
  {
    hide Kernel.Enabled, Kernel.Apply, Scheduler.Inv, Scheduler.Enabled, Scheduler.Apply, ListOp;
    if ops != [] {
      StepOnList(k, ops[0], kd);
      Kernel.ApplyKeepsInv(k, ops[0], kd);
      RunOnList(Kernel.Apply(k, ops[0], kd), ops[1..], kd);
      assert ListOps(k, ops, kd)[1..] == ListOps(Kernel.Apply(k, ops[0], kd), ops[1..], kd);
    }
  }

  /** On every run of the kernel from boot a process that is not current is READY. */
  lemma OthersStayReady(vm: VirtualMemory.Vm, kd: u32, ops: seq<Kernel.Op>)
    requires VirtualMemory.Valid(vm) && vm.current == kd
    ensures Kernel.Inv(Kernel.State(Scheduler.Boot(kd), vm), kd)
    ensures Kernel.Runs(Kernel.State(Scheduler.Boot(kd), vm), ops, kd) ==>
      Liveness.OthersReady(Kernel.Final(Kernel.State(Scheduler.Boot(kd), vm), ops, kd).sys)
  {
    var k := Kernel.State(Scheduler.Boot(kd), vm);
    Kernel.ReachableFromBoot(vm, kd, ops);
    if Kernel.Runs(k, ops, kd) {
      RunOnList(k, ops, kd);
      Liveness.Reachable(kd, ListOps(k, ops, kd));
    }
  }

  /** How often the run calls schedule, and how many processes it does create. */
  function CountSchedules(ops: seq<Kernel.Op>): nat {
    if ops == [] then 0 else (if ops[0].Schedule? || ops[0].Exit? then 1 else 0) + CountSchedules(ops[1..])
  }

  /** The process with this pid is current somewhere on the run. */
  ghost predicate RunsWithin(k: State, ops: seq<Kernel.Op>, kd: u32, pid: u32)
    requires Kernel.Inv(k, kd) && Kernel.Runs(k, ops, kd)
    decreases |ops|
  {
    || k.sys.procs[k.sys.cur].pid == pid
    || (ops != [] && (Kernel.ApplyKeepsInv(k, ops[0], kd); RunsWithin(Kernel.Apply(k, ops[0], kd), ops[1..], kd, pid)))
  }

  /** It is listed in every state of the run. */
  ghost predicate StaysListed(k: State, ops: seq<Kernel.Op>, kd: u32, pid: u32)
    requires Kernel.Inv(k, kd) && Kernel.Runs(k, ops, kd)
    decreases |ops|
  {
    && Liveness.Listed(k.sys, pid)
    && (ops != [] ==>
          (Kernel.ApplyKeepsInv(k, ops[0], kd); StaysListed(Kernel.Apply(k, ops[0], kd), ops[1..], kd, pid)))
  }

  /**
   The bound in the kernel: a waiting process runs after as many calls of schedule as its distance, plus one for each
   process created meanwhile, which is what the pid counter has moved.
   */
  lemma WaitBound(k: State, ops: seq<Kernel.Op>, kd: u32, j: nat)
    requires Kernel.Inv(k, kd) && Kernel.Runs(k, ops, kd) && Liveness.Waiting(k.sys, j)
    requires StaysListed(k, ops, kd, k.sys.procs[j].pid)
    requires CountSchedules(ops) >=
             Liveness.Distance(k.sys, j) + (Kernel.Final(k, ops, kd).sys.nextPid - k.sys.nextPid)
    ensures RunsWithin(k, ops, kd, k.sys.procs[j].pid)
  {
    RunOnList(k, ops, kd);
    CountsOnList(k, ops, kd, k.sys.procs[j].pid);
    Liveness.WaitBound(k.sys, ListOps(k, ops, kd), j);
  }

  lemma {:induction false} CountsOnList(k: State, ops: seq<Kernel.Op>, kd: u32, pid: u32)
    requires Kernel.Inv(k, kd) && Kernel.Runs(k, ops, kd)
    ensures Scheduler.Inv(k.sys) && Scheduler.Runs(k.sys, ListOps(k, ops, kd))
    ensures Liveness.CountSchedules(ListOps(k, ops, kd)) == CountSchedules(ops)
    ensures k.sys.nextPid + Liveness.CountCreations(ListOps(k, ops, kd)) == Kernel.Final(k, ops, kd).sys.nextPid
    ensures StaysListed(k, ops, kd, pid) ==> Liveness.StaysListed(k.sys, ListOps(k, ops, kd), pid)
    ensures Liveness.RunsWithin(k.sys, ListOps(k, ops, kd), pid) ==> RunsWithin(k, ops, kd, pid)
    decreases |ops|
  {
    hide Kernel.Enabled, Kernel.Apply, Scheduler.Inv, Scheduler.Enabled, Scheduler.Apply, ListOp;
    RunOnList(k, ops, kd);
    if ops != [] {
      var next := Kernel.Apply(k, ops[0], kd);
      StepOnList(k, ops[0], kd);
      PidStep(k, ops[0], kd);
      Kernel.ApplyKeepsInv(k, ops[0], kd);
      CountsOnList(next, ops[1..], kd, pid);
      assert ListOps(k, ops, kd)[1..] == ListOps(next, ops[1..], kd);
    }
  }

  lemma PidStep(k: State, op: Kernel.Op, kd: u32)
    requires Kernel.Inv(k, kd) && Kernel.Enabled(k, op)
    ensures Kernel.Apply(k, op, kd).sys.nextPid ==
      k.sys.nextPid + (var o := ListOp(k, op, kd); if o.OpCreate? || o.OpFork? then 1 else 0)
  {
    hide Kernel.Inv, Kernel.Enabled, Kernel.Apply, Scheduler.Enabled, Scheduler.Apply, ListOp;
    StepOnList(k, op, kd);
    Scheduler.PidMoves(k.sys, ListOp(k, op, kd));
  }

  // ----- the identity map of low memory

  /** Memory operations of the run spare the pages below 8 MB while the kernel directory is current. */
  ghost predicate SparesLow(k: State, ops: seq<Kernel.Op>, kd: u32)
    requires Kernel.Inv(k, kd) && Kernel.Runs(k, ops, kd)
    decreases |ops|
  {
    ops != [] ==>
      && (k.vm.current == kd && ops[0].Memory? ==> SparesLowOp(ops[0].op))
      && (Kernel.ApplyKeepsInv(k, ops[0], kd); SparesLow(Kernel.Apply(k, ops[0], kd), ops[1..], kd))
  }

  predicate SparesLowOp(op: VirtualMemory.VmOp) {
    op.MapOp? || op.UnmapOp? || op.AllocOp? ==> op.va >= 0x80_0000
  }

  /** create_process maps the user stack only; no other process operation maps anything. */
  lemma StepKeepsIdentity(k: State, op: Kernel.Op, kd: u32)
    requires Kernel.Inv(k, kd) && Kernel.Enabled(k, op) && VirtualMemory.IdentityBelow8M(k.vm.spaces[kd])
    requires k.vm.current == kd && op.Memory? ==> SparesLowOp(op.op)
    ensures kd in Kernel.Apply(k, op, kd).vm.spaces
    ensures VirtualMemory.IdentityBelow8M(Kernel.Apply(k, op, kd).vm.spaces[kd])
  {
    match op
    case Spawn(user) => CreateKeepsIdentity(k, 0, user, kd);
    case Fork => CreateKeepsIdentity(k, k.sys.procs[k.sys.cur].pid, true, kd);
    case Memory(m) =>
      VirtualMemory.StepKeepsValid(k.vm, m);
      if k.vm.current == kd {
        VirtualMemory.StepIdentity(k.vm, m);
      } else {
        VirtualMemory.StepIsolates(k.vm, m, kd);
      }
    case _ =>
  }

  lemma CreateKeepsIdentity(k: State, parent: u32, user: bool, kd: u32)
    requires Kernel.Inv(k, kd) && (user ==> Kernel.CanAllocate(k.vm))
    requires VirtualMemory.IdentityBelow8M(k.vm.spaces[kd])
    ensures var r := Kernel.Create(k, parent, user, kd);
      kd in r.vm.spaces && VirtualMemory.IdentityBelow8M(r.vm.spaces[kd])
  {
    if Kernel.Blocks(k.vm).0 != 0 {
      Kernel.Prepared(k.vm, user, kd);
      if user {
        Kernel.FreshDirectory(k.vm);
        var m := Kernel.Blocks(k.vm).2;
        VirtualMemory.NewKeepsValid(m);
        var n := VirtualMemory.NewDirectory(m).1;
        var op := VirtualMemory.AllocOp(Kernel.USER_STACK - 4096, false, true);
        if k.vm.current == kd {
          VirtualMemory.StepIdentity(n, op);
        } else {
          VirtualMemory.StepIsolates(n, op, kd);
        }
      }
    }
  }

  /** So the kernel directory maps low memory to itself in every state of such a run. */
  lemma {:induction false} IdentityStays(k: State, ops: seq<Kernel.Op>, kd: u32)
    requires Kernel.Inv(k, kd) && Kernel.Runs(k, ops, kd) && SparesLow(k, ops, kd)
    requires VirtualMemory.IdentityBelow8M(k.vm.spaces[kd])
    ensures kd in Kernel.Final(k, ops, kd).vm.spaces
    ensures VirtualMemory.IdentityBelow8M(Kernel.Final(k, ops, kd).vm.spaces[kd])
    decreases |ops|
  {
    hide Kernel.Enabled, Kernel.Apply, VirtualMemory.IdentityBelow8M;
    if ops != [] {
      Kernel.ApplyKeepsInv(k, ops[0], kd);
      StepKeepsIdentity(k, ops[0], kd);
      IdentityStays(Kernel.Apply(k, ops[0], kd), ops[1..], kd);
    }
  }

  /**
   The allocator's assumption, on runs of the kernel: every byte of every block that the heap hands out after such a
   run translates to itself in the kernel directory.
   */
  lemma HeapBlocksAreIdentity(k: State, ops: seq<Kernel.Op>, kd: u32, r: Heap.Request, a: u32)
    requires Kernel.Inv(k, kd) && Kernel.Runs(k, ops, kd) && SparesLow(k, ops, kd)
    requires VirtualMemory.IdentityBelow8M(k.vm.spaces[kd]) && r.size <= 0xFF7F_FFFC
    ensures var end := Kernel.Final(k, ops, kd);
      && kd in end.vm.spaces && |end.vm.spaces[kd]| == PageTables.PAGES
      && var (block, _) := Heap.Serve(end.vm.brk, r);
        (block != 0 && block <= a < block + r.size ==> VirtualMemory.Translate(end.vm.spaces[kd], a) == a)
  {
    IdentityStays(k, ops, kd);
    VirtualMemory.BlockIsIdentity(Kernel.Final(k, ops, kd).vm, kd, r, a);
  }
}
