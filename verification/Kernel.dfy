/**
 Processes and their address spaces together: the process list of `Scheduler` beside the memory of
 `VirtualMemory`. Class `Processes.ProcessTable` implements these operations.
 */
module Kernel {
  import opened Words
  import opened Heap
  import PageTables
  import VirtualMemory
  import FrameRuns
  import Scheduler

  const RECORD_BYTES: u32 := 136         // sizeof(process_t)
  const STACK_BYTES: u32 := 8192
  const USER_STACK: u32 := 0xC000_0000

  type Sys = Scheduler.Sys
  type Vm = VirtualMemory.Vm

  datatype State = State(sys: Sys, vm: Vm)

  /**
   The processes are in order, the memory is in order, and the two fit: the current directory is that of the
   current process, every process has a live directory, and only the kernel directory is shared. Every pid issued
   has cost a record of heap.
   */
  ghost predicate Inv(k: State, kd: u32) {
    && Scheduler.Inv(k.sys) && VirtualMemory.Valid(k.vm) && kd in k.vm.spaces
    && k.sys.procs[k.sys.cur].dir == k.vm.current
    && (forall i :: 0 <= i < |k.sys.procs| ==> k.sys.procs[i].dir in k.vm.spaces)
    && (forall i, j :: 0 <= i < j < |k.sys.procs| && k.sys.procs[i].dir == k.sys.procs[j].dir ==>
          k.sys.procs[i].dir == kd)
    && PidsPaid(k)
  }

  /** The first process has pid 1; every later pid was taken only after a record had been allocated. */
  ghost predicate PidsPaid(k: State) {
    HEAP_START + RECORD_BYTES * (k.sys.nextPid - 2) <= k.vm.brk
  }

  /** The pid counter never wraps: the heap holds fewer records than there are pids. */
  lemma PidsNeverRunOut(k: State, kd: u32)
    requires Inv(k, kd)
    ensures k.sys.nextPid <= 38552 < WORD - 1
  {
  }

  // ----- operations

  /** The two heap blocks every process gets: its record, 0 if there is no room, and its kernel stack. */
  function Blocks(vm: Vm): (u32, u32, Vm) {
    var (record, b) := Alloc(vm.brk, RECORD_BYTES);
    if record == 0 then (0, 0, vm)
    else
      var (stack, c) := Alloc(b, STACK_BYTES);
      (record, stack, vm.(brk := c))
  }

  /**
   A record of 136 bytes and, behind it, a kernel stack of 8 KB: both while the heap has room for both, the record
   alone while it has room for one, and nothing behind that.
   */
  lemma BlocksExactly(vm: Vm)
    requires Break(vm.brk)
    ensures var (record, stack, r) := Blocks(vm);
      && r == vm.(brk := r.brk)
      && (vm.brk + 136 + 8192 < 0x80_0000 ==>
            record == vm.brk && stack == vm.brk + 136 && r.brk == vm.brk + 136 + 8192)
      && (vm.brk + 136 < 0x80_0000 <= vm.brk + 136 + 8192 ==> record == vm.brk && stack == 0 && r.brk == vm.brk + 136)
      && (vm.brk + 136 >= 0x80_0000 ==> record == 0 && r == vm)
  {
  }

  /** The memory side of create_process: the directory of the new process, and the memory after it. */
  ghost function Prepare(vm: Vm, user: bool, kd: u32): (u32, Vm)
    requires VirtualMemory.Valid(vm)
  {
    FreshDirectory(vm);
    PrepareFrom(Blocks(vm).2, user, kd)
  }

  ghost function PrepareFrom(vm: Vm, user: bool, kd: u32): (u32, Vm)
    requires VirtualMemory.Valid(vm)
  {
    if !user then (kd, vm)
    else
      VirtualMemory.NewKeepsValid(vm);
      var (dir, n) := VirtualMemory.NewDirectory(vm);
      (dir, VirtualMemory.AllocFrame(n, USER_STACK - 4096, false, true))
  }

  /** create_process, with the parent fork fills in afterwards (0 when called directly). */
  ghost function Create(k: State, parent: u32, user: bool, kd: u32): State
    requires VirtualMemory.Valid(k.vm)
  {
    if Blocks(k.vm).0 == 0 then k
    else
      var (dir, vm) := Prepare(k.vm, user, kd);
      State(Scheduler.Create(k.sys, parent, dir), vm)
  }

  lemma CreateUnfolds(k: State, user: bool, kd: u32, dir: u32, vm: Vm)
    requires VirtualMemory.Valid(k.vm) && Blocks(k.vm).0 != 0
    requires VirtualMemory.Valid(Blocks(k.vm).2) && (dir, vm) == PrepareFrom(Blocks(k.vm).2, user, kd)
    ensures Create(k, 0, user, kd) == State(Scheduler.Create(k.sys, 0, dir), vm)
  {
  }

  lemma NothingCreated(k: State, user: bool, kd: u32)
    requires VirtualMemory.Valid(k.vm) && Blocks(k.vm).0 == 0
    ensures Create(k, 0, user, kd) == k && CanAllocate(k.vm) && Blocks(k.vm).2 == k.vm
  {
  }

  /** A kernel process changes no address space. */
  lemma KernelCreated(k: State, kd: u32)
    requires VirtualMemory.Valid(k.vm)
    ensures var r := Create(k, 0, false, kd);
      && r.vm.spaces == k.vm.spaces
      && r.sys == if Blocks(k.vm).0 == 0 then k.sys else Scheduler.Create(k.sys, 0, kd)
  {
  }

  /** fork is create_process with the parent filled in afterwards. */
  lemma ForkUnfolds(k: State, parent: u32, kd: u32)
    requires VirtualMemory.Valid(k.vm) && Blocks(k.vm).0 != 0
    ensures var c := Create(k, 0, true, kd);
      && c.sys.procs != []
      && Create(k, parent, true, kd) ==
        State(c.sys.(procs := c.sys.procs[0 := c.sys.procs[0].(parent := parent)]), c.vm)
  {
  }

  /** switch_page_directory of the current process, as switch_task does. */
  function Follow(sys: Sys, vm: Vm): State
    requires sys.cur < |sys.procs|
  {
    State(sys, VirtualMemory.Switch(vm, sys.procs[sys.cur].dir))
  }

  datatype Op =
    | Spawn(user: bool)
    | Fork
    | Destroy(i: nat)
    | Schedule
    | Exit
    | Memory(op: VirtualMemory.VmOp)      // by the current process, or by the kernel on its behalf

  /** The current process is not destroyed, a new directory fits the heap, and only switch_task switches spaces. */
  predicate Enabled(k: State, op: Op) {
    match op
    case Spawn(user) => user ==> CanAllocate(k.vm)
    case Fork => CanAllocate(k.vm)
    case Destroy(i) => i < |k.sys.procs| && i != k.sys.cur
    case Memory(op) => VirtualMemory.Enabled(k.vm, op) && !op.SwitchOp?
    case _ => true
  }

  /** A user process can be given a directory, or not even a record. */
  predicate CanAllocate(vm: Vm) {
    Blocks(vm).0 != 0 ==> VirtualMemory.NewDirectory(Blocks(vm).2).0 != 0
  }

  /** The list of s as an operation that creates nothing leaves it. */
  function ListAfter(s: Sys, op: Op): Sys
    requires s.cur < |s.procs|
  {
    match op
    case Destroy(i) => if i < |s.procs| then Scheduler.Destroy(s, i) else s
    case Schedule => Scheduler.Reschedule(s)
    case Exit => Scheduler.Exit(s)
    case _ => s
  }

  lemma FreshDirectory(vm: Vm)
    requires VirtualMemory.Valid(vm)
    ensures VirtualMemory.Valid(Blocks(vm).2)
    ensures VirtualMemory.NewDirectory(Blocks(vm).2).0 !in vm.spaces
  {
    ServeStep(vm.brk, Request(Plain, RECORD_BYTES));
    ServeStep(Alloc(vm.brk, RECORD_BYTES).1, Request(Plain, STACK_BYTES));
    VirtualMemory.NewKeepsValid(Blocks(vm).2);
    if VirtualMemory.NewDirectory(Blocks(vm).2).0 == 0 {
      assert 0 !in vm.spaces;
    }
  }

  ghost function Apply(k: State, op: Op, kd: u32): State
    requires Inv(k, kd) && Enabled(k, op)
  {
    match op
    case Spawn(user) => Create(k, 0, user, kd)
    case Fork => Create(k, k.sys.procs[k.sys.cur].pid, true, kd)
    case Memory(op) => State(k.sys, VirtualMemory.Apply(k.vm, op))
    case _ => Follow(ListAfter(k.sys, op), k.vm)
  }

  // ----- the invariant

  lemma BlocksCost(vm: Vm)
    requires VirtualMemory.Valid(vm) && Blocks(vm).0 != 0
    ensures vm.brk + RECORD_BYTES <= Blocks(vm).2.brk
  {
    ServeStep(vm.brk, Request(Plain, RECORD_BYTES));
    ServeStep(Alloc(vm.brk, RECORD_BYTES).1, Request(Plain, STACK_BYTES));
  }

  /** create_process gives a user process an empty address space; its stack goes to the creator's space. */
  lemma Prepared(vm: Vm, user: bool, kd: u32)
    requires VirtualMemory.Valid(vm) && (user ==> CanAllocate(vm)) && Blocks(vm).0 != 0
    ensures var (dir, r) := Prepare(vm, user, kd);
      && VirtualMemory.Valid(r) && r.current == vm.current
      && (user ==> dir !in vm.spaces && dir in r.spaces && r.spaces[dir] == seq(PageTables.PAGES, p => 0))
      && (!user ==> dir == kd && r.spaces == vm.spaces)
      && vm.spaces.Keys <= r.spaces.Keys
      && (forall d :: d in vm.spaces && d != vm.current ==> r.spaces[d] == vm.spaces[d])
      && vm.brk + RECORD_BYTES <= r.brk
  {
    BlocksCost(vm);
    FreshDirectory(vm);
    var m := Blocks(vm).2;
    if user {
      VirtualMemory.NewKeepsValid(m);
      var (dir, n) := VirtualMemory.NewDirectory(m);
      VirtualMemory.AllocKeepsValid(n, USER_STACK - 4096, false, true);
      var op := VirtualMemory.AllocOp(USER_STACK - 4096, false, true);
      forall d | d in n.spaces && d != n.current
        ensures VirtualMemory.Apply(n, op).spaces[d] == n.spaces[d]
      {
        VirtualMemory.StepIsolates(n, op, d);
      }
    }
  }

  /** There is a free frame for the stack, and a page table for its page or room for one. */
  ghost predicate StackFits(vm: Vm)
    requires VirtualMemory.Valid(vm)
  {
    FreshDirectory(vm);
    VirtualMemory.NewKeepsValid(Blocks(vm).2);
    |vm.used| < 4096 && VirtualMemory.Mapped(VirtualMemory.NewDirectory(Blocks(vm).2).1, 0xBFFF_F000)
  }

  /**
   The stack of a user process is a free frame at 0xBFFFF000 of the creator's space, present, writable and open to user
   code.
   */
  lemma StackGoesToCreator(vm: Vm, kd: u32)
    requires VirtualMemory.Valid(vm) && CanAllocate(vm) && Blocks(vm).0 != 0 && StackFits(vm)
    ensures var r := Prepare(vm, true, kd).1;
      && vm.current in r.spaces && |r.spaces[vm.current]| == PageTables.PAGES
      && var e := r.spaces[vm.current][0xBFFFF]; e % 4096 == 7 && e / 4096 !in vm.used && e / 4096 in r.used
  {
    hide VirtualMemory.AllocFrame, VirtualMemory.Valid, VirtualMemory.Mapped;
    FreshDirectory(vm);
    VirtualMemory.NewKeepsValid(Blocks(vm).2);
    var n := VirtualMemory.NewDirectory(Blocks(vm).2).1;
    FrameRuns.AllocAt(n, 0xBFFF_F000, false, true);
    FrameRuns.AllocPermissions(n, 0xBFFF_F000, false, true);
  }

  lemma SpawnKeepsInv(k: State, parent: u32, user: bool, kd: u32)
    requires Inv(k, kd) && (user ==> CanAllocate(k.vm)) && parent < k.sys.nextPid
    ensures Inv(Create(k, parent, user, kd), kd)
  {
    FreshDirectory(k.vm);
    if Blocks(k.vm).0 != 0 {
      Prepared(k.vm, user, kd);
      var (dir, vm) := Prepare(k.vm, user, kd);
      PidsNeverRunOut(k, kd);
      Scheduler.CreateKeepsInv(k.sys, parent, dir);
      PushKeepsInv(k, parent, dir, vm, kd);
    }
  }

  /** Exactly then: a user process without a directory of its own breaks the invariant. */
  lemma SpawnKeepsInvExactly(k: State, parent: u32, user: bool, kd: u32)
    requires Inv(k, kd) && parent < k.sys.nextPid
    ensures Inv(Create(k, parent, user, kd), kd) <==> !user || CanAllocate(k.vm)
  {
    if !user || CanAllocate(k.vm) {
      SpawnKeepsInv(k, parent, user, kd);
    } else {
      NullDirectory(k, parent, kd);
    }
  }

  lemma NullDirectory(k: State, parent: u32, kd: u32)
    requires VirtualMemory.Valid(k.vm) && !CanAllocate(k.vm)
    ensures var r := Create(k, parent, true, kd); r.sys.procs != [] && r.sys.procs[0].dir == 0 && 0 !in r.vm.spaces
  {
    FreshDirectory(k.vm);
    var m := Blocks(k.vm).2;
    VirtualMemory.NewKeepsValid(m);
    VirtualMemory.AllocKeepsValid(VirtualMemory.NewDirectory(m).1, USER_STACK - 4096, false, true);
  }

  /** A machine with one kernel process and 12 KB of heap left: there is room for a record, and none for a directory. */
  function NearlyFull(): State {
    var vm := VirtualMemory.Vm(map[HEAP_START := seq(PageTables.PAGES, p => 0)], map[HEAP_START := {}],
                               HEAP_START, {}, HEAP_END - 0x3000);
    State(Scheduler.Boot(HEAP_START), vm)
  }

  lemma DirectoryCanFail()
    ensures Inv(NearlyFull(), HEAP_START) && Blocks(NearlyFull().vm).0 != 0 && !CanAllocate(NearlyFull().vm)
    ensures !Inv(Create(NearlyFull(), 0, true, HEAP_START), HEAP_START)
  {
    hide Create, Blocks, CanAllocate;
    NearlyFullIsSound();
    NoRoom(NearlyFull().vm);
    SpawnKeepsInvExactly(NearlyFull(), 0, true, HEAP_START);
  }

  lemma NearlyFullIsSound()
    ensures Inv(NearlyFull(), HEAP_START)
  {
  }

  lemma NoRoom(vm: Vm)
    requires vm.brk == HEAP_END - 0x3000
    ensures Blocks(vm).0 != 0 && !CanAllocate(vm)
  {
    assert Alloc(vm.brk, RECORD_BYTES) == (vm.brk, vm.brk + RECORD_BYTES);
    assert Alloc(vm.brk + RECORD_BYTES, STACK_BYTES).1 == vm.brk + RECORD_BYTES + STACK_BYTES;
    assert RoundUpPage(vm.brk + RECORD_BYTES + STACK_BYTES) == HEAP_END;
  }

  lemma PushKeepsInv(k: State, parent: u32, dir: u32, vm: Vm, kd: u32)
    requires Inv(k, kd) && VirtualMemory.Valid(vm) && vm.current == k.vm.current && k.vm.spaces.Keys <= vm.spaces.Keys
    requires Scheduler.Inv(Scheduler.Create(k.sys, parent, dir))
    requires dir in vm.spaces && (dir == kd || dir !in k.vm.spaces) && k.vm.brk + RECORD_BYTES <= vm.brk
    ensures Inv(State(Scheduler.Create(k.sys, parent, dir), vm), kd)
  {
  }

  /** Each position of t holds the process, with its directory, that s held at the position origin gives. */
  ghost predicate From(s: Sys, t: Sys, origin: seq<nat>) {
    && |origin| == |t.procs| && t.nextPid == s.nextPid
    && (forall i :: 0 <= i < |origin| ==> origin[i] < |s.procs|)
    && (forall i :: 0 <= i < |origin| ==>
          t.procs[i].pid == s.procs[origin[i]].pid && t.procs[i].dir == s.procs[origin[i]].dir)
    && (forall i, j :: 0 <= i < j < |origin| ==> origin[i] < origin[j])
  }

  /** The positions of a list of n records, but for position i. */
  function Without(n: nat, i: nat): (r: seq<nat>)
    requires i <= n
    ensures |r| == if i < n then n - 1 else n
    ensures forall x :: 0 <= x < |r| ==> r[x] == if x < i then x else x + 1
  {
    seq(if i < n then n - 1 else n, x requires 0 <= x => if x < i then x else x + 1)
  }

  lemma RescheduledFrom(s: Sys)
    requires s.cur < |s.procs|
    ensures From(s, Scheduler.Reschedule(s), Without(|s.procs|, |s.procs|))
  {
  }

  lemma ExitedFrom(s: Sys)
    requires s.cur < |s.procs|
    ensures From(s, Scheduler.Exit(s), Without(|s.procs|, |s.procs|))
  {
  }

  lemma DestroyedFrom(s: Sys, i: nat)
    requires i < |s.procs|
    ensures From(s, Scheduler.Destroy(s, i), Without(|s.procs|, i))
  {
  }

  lemma ListStaysOrdered(s: Sys, op: Op)
    requires Scheduler.Inv(s) && (op.Destroy? ==> op.i < |s.procs| && op.i != s.cur)
    ensures Scheduler.Inv(ListAfter(s, op))
  {
    match op
    case Destroy(i) => Scheduler.DestroyKeepsInv(s, i);
    case Schedule => Scheduler.RescheduleKeepsInv(s);
    case Exit =>
      Scheduler.TerminateKeepsInv(s);
      Scheduler.RescheduleKeepsInv(Scheduler.Terminate(s));
    case _ =>
  }

  /** destroy, schedule and exit only remove and relabel records. */
  function Origin(s: Sys, op: Op): seq<nat> {
    Without(|s.procs|, if op.Destroy? && op.i < |s.procs| then op.i else |s.procs|)
  }

  lemma ListOrigin(s: Sys, op: Op)
    requires s.cur < |s.procs|
    ensures From(s, ListAfter(s, op), Origin(s, op))
  {
    match op
    case Destroy(i) => if i < |s.procs| { DestroyedFrom(s, i); }
    case Schedule => RescheduledFrom(s);
    case Exit => ExitedFrom(s);
    case _ =>
  }

  lemma ListKeepsInv(k: State, t: Sys, kd: u32, origin: seq<nat>)
    requires Inv(k, kd) && Scheduler.Inv(t) && From(k.sys, t, origin)
    ensures Inv(Follow(t, k.vm), kd)
  {
  }

  lemma MemoryKeepsInv(k: State, op: VirtualMemory.VmOp, kd: u32)
    requires Inv(k, kd) && VirtualMemory.Enabled(k.vm, op) && !op.SwitchOp?
    ensures Inv(State(k.sys, VirtualMemory.Apply(k.vm, op)), kd)
  {
    hide VirtualMemory.Apply, VirtualMemory.Valid, Scheduler.Inv;
    VirtualMemory.StepKeepsValid(k.vm, op);
  }

  lemma ApplyKeepsInv(k: State, op: Op, kd: u32)
    requires Inv(k, kd) && Enabled(k, op)
    ensures Inv(Apply(k, op, kd), kd)
  {
    match op
    case Spawn(user) => SpawnKeepsInv(k, 0, user, kd);
    case Fork => SpawnKeepsInv(k, k.sys.procs[k.sys.cur].pid, true, kd);
    case Memory(op) => MemoryKeepsInv(k, op, kd);
    case _ =>
      ListStaysOrdered(k.sys, op);
      ListOrigin(k.sys, op);
      ListKeepsInv(k, ListAfter(k.sys, op), kd, Origin(k.sys, op));
  }

  // ----- runs

  ghost predicate Runs(k: State, ops: seq<Op>, kd: u32)
    requires Inv(k, kd)
    decreases |ops|
  {
    ops != [] ==> Enabled(k, ops[0]) && (ApplyKeepsInv(k, ops[0], kd); Runs(Apply(k, ops[0], kd), ops[1..], kd))
  }

  ghost function Final(k: State, ops: seq<Op>, kd: u32): (r: State)
    requires Inv(k, kd) && Runs(k, ops, kd)
    ensures Inv(r, kd)
    decreases |ops|
  {
    if ops == [] then k else (ApplyKeepsInv(k, ops[0], kd); Final(Apply(k, ops[0], kd), ops[1..], kd))
  }

  /**
   Every state of every run from boot: the list is strictly decreasing in pid, at most one process is RUNNING
   and it is the current one, whose directory is the current directory; only the kernel directory is shared. And
   the pid counter has not wrapped, however long the run.
   */
  lemma ReachableFromBoot(vm: Vm, kd: u32, ops: seq<Op>)
    requires VirtualMemory.Valid(vm) && vm.current == kd
    ensures Inv(State(Scheduler.Boot(kd), vm), kd)
    ensures Runs(State(Scheduler.Boot(kd), vm), ops, kd) ==>
      var r := Final(State(Scheduler.Boot(kd), vm), ops, kd);
      Inv(r, kd) && r.sys.nextPid <= 38552
  {
    if Runs(State(Scheduler.Boot(kd), vm), ops, kd) {
      PidsNeverRunOut(Final(State(Scheduler.Boot(kd), vm), ops, kd), kd);
    }
  }

  /** Directory d belongs to the process with this pid, or to nobody any more. */
  ghost predicate BelongsTo(k: State, d: u32, pid: u32) {
    d in k.vm.spaces && forall i :: 0 <= i < |k.sys.procs| && k.sys.procs[i].dir == d ==> k.sys.procs[i].pid == pid
  }

  /** The process with this pid is not current when any operation of the run starts. */
  ghost predicate Away(k: State, ops: seq<Op>, kd: u32, pid: u32)
    requires Inv(k, kd) && Runs(k, ops, kd)
    decreases |ops|
  {
    ops != [] ==>
      && k.sys.procs[k.sys.cur].pid != pid
      && (ApplyKeepsInv(k, ops[0], kd); Away(Apply(k, ops[0], kd), ops[1..], kd, pid))
  }

  lemma SpawnSparesOthers(k: State, parent: u32, user: bool, kd: u32, d: u32, pid: u32)
    requires Inv(k, kd) && (user ==> CanAllocate(k.vm))
    requires BelongsTo(k, d, pid) && d != kd && k.vm.current != d
    ensures var r := Create(k, parent, user, kd); BelongsTo(r, d, pid) && r.vm.spaces[d] == k.vm.spaces[d]
  {
    FreshDirectory(k.vm);
    if Blocks(k.vm).0 != 0 {
      Prepared(k.vm, user, kd);
      var r := Scheduler.Create(k.sys, parent, Prepare(k.vm, user, kd).0);
      assert forall i :: 0 < i < |r.procs| ==> r.procs[i] == k.sys.procs[i - 1];
    }
  }

  lemma ListSparesOthers(k: State, t: Sys, origin: seq<nat>, d: u32, pid: u32)
    requires BelongsTo(k, d, pid) && From(k.sys, t, origin) && t.cur < |t.procs|
    ensures BelongsTo(Follow(t, k.vm), d, pid)
  {
  }

  lemma StepSparesOthers(k: State, op: Op, kd: u32, d: u32, pid: u32)
    requires Inv(k, kd) && Enabled(k, op) && BelongsTo(k, d, pid) && d != kd
    requires k.sys.procs[k.sys.cur].pid != pid
    ensures var r := Apply(k, op, kd); BelongsTo(r, d, pid) && r.vm.spaces[d] == k.vm.spaces[d]
  {
    match op
    case Spawn(user) => SpawnSparesOthers(k, 0, user, kd, d, pid);
    case Fork => SpawnSparesOthers(k, k.sys.procs[k.sys.cur].pid, true, kd, d, pid);
    case Memory(op) => VirtualMemory.StepIsolates(k.vm, op, d);
    case _ =>
      ListStaysOrdered(k.sys, op);
      ListOrigin(k.sys, op);
      ListSparesOthers(k, ListAfter(k.sys, op), Origin(k.sys, op), d, pid);
  }

  /**
   Isolation of processes. While a user process is not current, nothing the others do, and no creation,
   destruction or switch of processes, changes any translation of its address space.
   */
  lemma {:induction false} ProcessesAreIsolated(k: State, ops: seq<Op>, kd: u32, d: u32, pid: u32)
    requires Inv(k, kd) && Runs(k, ops, kd) && Away(k, ops, kd, pid)
    requires BelongsTo(k, d, pid) && d != kd
    ensures BelongsTo(Final(k, ops, kd), d, pid)
    ensures Final(k, ops, kd).vm.spaces[d] == k.vm.spaces[d]
    decreases |ops|
  {
    if ops != [] {
      ApplyKeepsInv(k, ops[0], kd);
      StepSparesOthers(k, ops[0], kd, d, pid);
      ProcessesAreIsolated(Apply(k, ops[0], kd), ops[1..], kd, d, pid);
    }
  }

  /**
   So for every listed process but the current one, unless it uses the kernel directory: while it is away, the
   software walk of its address space answers the same for every address.
   */
  lemma TranslationsStay(k: State, ops: seq<Op>, kd: u32, i: nat, va: u32)
    requires Inv(k, kd) && Runs(k, ops, kd) && i < |k.sys.procs| && k.sys.procs[i].dir != kd
    requires Away(k, ops, kd, k.sys.procs[i].pid)
    ensures var d, r := k.sys.procs[i].dir, Final(k, ops, kd);
      && d in r.vm.spaces && |r.vm.spaces[d]| == PageTables.PAGES
      && VirtualMemory.Translate(r.vm.spaces[d], va) == VirtualMemory.Translate(k.vm.spaces[d], va)
  {
    hide Scheduler.Inv;
    ProcessesAreIsolated(k, ops, kd, k.sys.procs[i].dir, k.sys.procs[i].pid);
  }

  // ----- what create_process does not do

  /**
   A new user process starts with nothing mapped, its own stack included: alloc_frame maps the stack page in
   the creator's directory.
   */
  lemma NewProcessHasNoStack(k: State, kd: u32, va: u32)
    requires Inv(k, kd) && Enabled(k, Spawn(true)) && Blocks(k.vm).0 != 0
    ensures var r := Create(k, 0, true, kd);
      && r.sys.procs[0].pid == k.sys.nextPid
      && r.sys.procs[0].dir in r.vm.spaces
      && |r.vm.spaces[r.sys.procs[0].dir]| == PageTables.PAGES
      && VirtualMemory.Translate(r.vm.spaces[r.sys.procs[0].dir], va) == 0
  {
    hide Scheduler.Inv, VirtualMemory.Valid, PrepareFrom, CanAllocate, Blocks;
    Prepared(k.vm, true, kd);
  }
}
