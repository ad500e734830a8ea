/** The process table as the kernel keeps it: the records, the list head, the current process and the pid counter. */
module Processes {
  import opened Words
  import opened Heap
  import opened ProcessRecords
  import PageTables
  import VirtualMemory
  import Paging
  import Scheduler
  import Kernel

  class ProcessTable {
    var store: Store
    var currentProcess: u32
    var processList: u32
    var nextPid: u32
    ghost var procs: seq<u32>       // the list from its head
    ghost var cur: nat              // where the current process is in it
    ghost var brk: u32              // all records and stacks lie below this address

    ghost predicate Formed()
      reads this
    {
      && (forall i :: 0 <= i < |procs| ==> procs[i] in store)
      && ProcessRecords.Formed(store, processList, procs, nextPid, brk)
      && (currentProcess != 0 ==> cur < |procs| && procs[cur] == currentProcess)
    }

    /** The table stands beside this memory: its blocks are allocated, paging owns no word of them, and it knows of no
        directory but those that exist and NULL. */
    ghost predicate Beside(pager: Paging.Pager)
      reads this, pager, pager.heap, pager.ram
    {
      && pager.Sound() && brk <= pager.heap.current
      && Unowned(store, pager.owner) && DirectoriesKnown(store, pager.dirs)
    }

    /** And every process has a directory that exists. */
    ghost predicate Fits(pager: Paging.Pager)
      reads this, pager, pager.heap, pager.ram
    {
      Beside(pager) && DirectoriesLive(store, pager.dirs)
    }

    /** After process_init there is a current process. */
    ghost predicate Running()
      reads this
    {
      Formed() && currentProcess != 0
    }

    ghost function View(): (s: Scheduler.Sys)
      reads this
      requires Formed()
      ensures |s.procs| == |procs| && (currentProcess != 0 ==> s.cur < |s.procs|)
    {
      ListView(store, procs, cur, nextPid)
    }

    ghost function State(pager: Paging.Pager): (k: Kernel.State)
      reads this, pager, pager.heap, pager.ram
      requires Formed() && pager.Valid()
      ensures VirtualMemory.Valid(k.vm) && k.sys == View() && k.vm == pager.View()
    {
      Kernel.State(View(), pager.View())
    }

    /** The globals as the loader leaves them. */
    constructor ()
      ensures Formed() && currentProcess == 0 && procs == [] && nextPid == 1 && brk == HEAP_START && store == map[]
    {
      store, currentProcess, processList, nextPid := map[], 0, 0, 1;
      procs, cur, brk := [], 0, HEAP_START;
    }

    // ----- creation

    /**
     Returns NULL, and changes nothing, when there is no room for the record. A user process for which there is no
     room for a directory is created all the same, with the directory NULL.
     */
    method CreateProcess(pager: Paging.Pager, entryPoint: u32, kernelMode: bool) returns (proc: u32)
      requires Formed() && Beside(pager) && pager.Valid()
      requires kernelMode ==> pager.kernelDirectory in pager.dirs
      modifies this, pager, pager.heap, pager.ram
      ensures Formed() && Beside(pager) && pager.Valid() && proc == Kernel.Blocks(old(pager.View())).0
      ensures Fits(pager) <==> old(Fits(pager)) && (kernelMode || Kernel.CanAllocate(old(pager.View())))
      ensures pager.SparesUnowned()
      ensures State(pager) == Kernel.Create(old(State(pager)), 0, !kernelMode, pager.kernelDirectory)
      ensures proc == 0 ==> unchanged(this)
      ensures proc != 0 ==> procs == [proc] + old(procs) && cur == old(cur) + 1 && IsNew(old(store), store, proc)
      ensures proc != 0 ==>
        var r := store[proc];
        && r.kernelStack == Add32(Kernel.Blocks(old(pager.View())).1, 8192)
        && r.userStack == (if kernelMode then 0 else 0xC000_0000)
        && r.cpu.cs == (if kernelMode then 0x08 else 0x1B) && r.cpu.ss == (if kernelMode then 0x10 else 0x23)
        && r.cpu.esp == (if kernelMode then r.kernelStack else r.userStack)
        && r.cpu.eip == entryPoint && r.cpu.eflags == 0x202
        && PageTables.InRam(r.pageDirectory) && r.cpu.cr3 == pager.PhysicalAddr(r.pageDirectory)
      ensures currentProcess == old(currentProcess)
      ensures pager.kernelDirectory == old(pager.kernelDirectory)
      ensures pager.currentDirectory == old(pager.currentDirectory)
    {
      hide ProcessRecords.Formed, StartingCpu, Unowned, FreeFrom, DirectoriesLive, Kernel.Create, Kernel.PrepareFrom;
      ghost var k := State(pager);
      var kernelStack;
      proc, kernelStack := AllocateBlocks(pager);
      if proc == 0 {
        Kernel.NothingCreated(k, !kernelMode, pager.kernelDirectory);
        return;
      }
      ghost var dir := FillRecord(pager, proc, kernelStack, entryPoint, kernelMode);
      Kernel.CreateUnfolds(k, !kernelMode, pager.kernelDirectory, dir, pager.View());
      StartingRegisters(kernelMode, entryPoint, kernelStack, pager.PhysicalAddr(store[proc].pageDirectory));
    }

    /** The rest of create_process, for a record at proc and a kernel stack that ends at kernelStack. */
    method FillRecord(pager: Paging.Pager, proc: u32, kernelStack: u32, entryPoint: u32, kernelMode: bool)
      returns (ghost dir: u32)
      requires Formed() && Beside(pager) && pager.Valid()
      requires kernelMode ==> pager.kernelDirectory in pager.dirs
      requires brk <= proc && HEAP_START <= proc && FreeFrom(pager.owner, proc) && pager.heap.current <= HEAP_END
      requires proc + Kernel.RECORD_BYTES <= pager.heap.current
      requires || kernelStack == Kernel.STACK_BYTES
               || kernelStack == proc + Kernel.RECORD_BYTES + Kernel.STACK_BYTES <= pager.heap.current
      modifies this, pager, pager.heap, pager.ram
      ensures Formed() && Beside(pager) && pager.Valid() && pager.SparesUnowned()
      ensures Fits(pager) <==>
        old(Fits(pager)) && (kernelMode || VirtualMemory.NewDirectory(old(pager.View())).0 != 0)
      ensures (dir, pager.View()) == Kernel.PrepareFrom(old(pager.View()), !kernelMode, pager.kernelDirectory)
      ensures View() == Scheduler.Create(old(View()), 0, dir)
      ensures procs == [proc] + old(procs) && cur == old(cur) + 1 && IsNew(old(store), store, proc)
      ensures var r := store[proc];
        && r.kernelStack == kernelStack && r.userStack == (if kernelMode then 0 else Kernel.USER_STACK)
        && PageTables.InRam(r.pageDirectory)
        && r.cpu == StartingCpu(kernelMode, entryPoint, r.kernelStack, pager.PhysicalAddr(r.pageDirectory))
      ensures currentProcess == old(currentProcess)
      ensures pager.kernelDirectory == old(pager.kernelDirectory)
      ensures pager.currentDirectory == old(pager.currentDirectory)
    {
      hide ProcessRecords.Formed, StartingCpu, Unowned, FreeFrom, StillFree, Kernel.PrepareFrom, VirtualMemory.Valid;
      hide DirectoriesKnown, DirectoriesLive, PageTables.Layout;
      ghost var owner, high, known := pager.owner, pager.heap.current, pager.dirs;
      var d := PrepareSpace(pager, kernelMode);
      dir := d;
      var userStack := if kernelMode then 0 else Kernel.USER_STACK;
      var cpu := StartingCpu(kernelMode, entryPoint, kernelStack, pager.PhysicalAddr(d));
      var record := Record(nextPid, 0, Scheduler.Ready, cpu, d, kernelStack, userStack, processList, 0);
      NewIsAbove(store, processList, procs, nextPid, brk, proc);
      UnownedPushed(store, processList, procs, nextPid, brk, owner, pager.owner, high, proc, record);
      PageTables.NoNullDirectory(pager.ram[..], pager.owner, pager.dirs, pager.frames, pager.heap.current);
      DirectoriesPushed(store, proc, record, known, pager.dirs);
      Push(proc, record, pager.heap.current);
    }

    /** The two calls of kmalloc, for the record and for the kernel stack, of which the top is returned. */
    method AllocateBlocks(pager: Paging.Pager) returns (record: u32, kernelStack: u32)
      requires pager.Valid()
      modifies pager.heap
      ensures pager.Valid() && VirtualMemory.Valid(pager.View())
      ensures var (r, s, vm) := Kernel.Blocks(old(pager.View())); record == r && pager.View() == vm
      ensures record == 0 ==> pager.heap.current == old(pager.heap.current)
      ensures record != 0 ==> kernelStack == Add32(Kernel.Blocks(old(pager.View())).1, Kernel.STACK_BYTES)
      ensures record != 0 ==> FreeFrom(pager.owner, record) && pager.heap.current <= HEAP_END
      ensures record != 0 ==>
        && record == old(pager.heap.current) && HEAP_START <= record
        && record + Kernel.RECORD_BYTES <= pager.heap.current
        && (|| kernelStack == Kernel.STACK_BYTES
            || kernelStack == record + Kernel.RECORD_BYTES + Kernel.STACK_BYTES <= pager.heap.current)
    {
      ghost var brk := pager.heap.current;
      PageTables.NobodysWords(pager.ram[..], pager.owner, pager.dirs, pager.frames, brk);
      kernelStack := 0;
      record := pager.Kmalloc(Kernel.RECORD_BYTES);
      if record != 0 {
        StackFollowsRecord(brk);
        var stack := pager.Kmalloc(Kernel.STACK_BYTES);
        kernelStack := Add32(stack, Kernel.STACK_BYTES);
      }
    }

    /** The branch of create_process that gives the process its address space. */
    method PrepareSpace(pager: Paging.Pager, kernelMode: bool) returns (dir: u32)
      requires pager.Valid()
      requires kernelMode ==> pager.kernelDirectory in pager.dirs
      modifies pager, pager.heap, pager.ram
      ensures pager.Valid() && pager.SparesUnowned() && PageTables.InRam(dir)
      ensures StillFree(old(pager.owner), pager.owner, old(pager.heap.current))
      ensures dir in pager.dirs || dir == 0
      ensures dir in pager.dirs <==> kernelMode || VirtualMemory.NewDirectory(old(pager.View())).0 != 0
      ensures (dir, pager.View()) == Kernel.PrepareFrom(old(pager.View()), !kernelMode, pager.kernelDirectory)
      ensures pager.heap.current >= old(pager.heap.current) && old(pager.dirs) <= pager.dirs
      ensures pager.kernelDirectory == old(pager.kernelDirectory)
      ensures pager.currentDirectory == old(pager.currentDirectory)
    {
      if !kernelMode {
        dir := pager.CreatePageDirectory();
        pager.AllocFrame(Kernel.USER_STACK - 4096, false, true);
      } else {
        dir := pager.kernelDirectory;
      }
    }

    /** Stores the new record and links it at the head of the list. */
    method Push(proc: u32, record: Record, ghost end: u32)
      requires Formed() && brk <= proc && HEAP_START <= proc
      requires record.pid == nextPid && record.ppid == 0 && record.parent == 0 && record.state.Ready?
      requires record.next == processList && proc + Kernel.RECORD_BYTES <= end
      requires || record.kernelStack == Kernel.STACK_BYTES
               || record.kernelStack == proc + Kernel.RECORD_BYTES + Kernel.STACK_BYTES <= end
      modifies this
      ensures Formed() && View() == Scheduler.Create(old(View()), 0, record.pageDirectory)
      ensures procs == [proc] + old(procs) && cur == old(cur) + 1 && brk == end
      ensures IsNew(old(store), store, proc) && store[proc] == record
      ensures currentProcess == old(currentProcess)
    {
      hide ProcessRecords.Formed;
      Pushed(store, processList, procs, nextPid, brk, cur, proc, record, end);
      store := store[proc := record];
      nextPid := Add32(nextPid, 1);
      processList := proc;
      procs, cur, brk := [proc] + procs, cur + 1, end;
    }

    /**
     Called once, at boot: the first process is the current one. Without room for its record there is no process, and
     the write of its state goes to the bytes at NULL.
     */
    method ProcessInit(pager: Paging.Pager)
      requires Formed() && Fits(pager) && pager.Valid() && currentProcess == 0 && procs == [] && nextPid == 1
      requires pager.currentDirectory == pager.kernelDirectory
      modifies this, pager, pager.heap, pager.ram
      ensures Formed() && Fits(pager) && pager.Valid()
      ensures currentProcess == 0 <==> Kernel.Blocks(old(pager.View())).0 == 0
      ensures currentProcess == 0 ==> procs == [] && nextPid == 1
      ensures currentProcess != 0 ==> View() == Scheduler.Boot(pager.kernelDirectory)
      ensures pager.View().spaces == old(pager.View()).spaces
      ensures pager.currentDirectory == pager.kernelDirectory == old(pager.kernelDirectory)
    {
      hide ProcessRecords.Formed, Unowned, StartingCpu, DirectoriesLive;
      hide Kernel.Create, Kernel.Blocks, Kernel.CanAllocate;
      Kernel.KernelCreated(State(pager), pager.kernelDirectory);
      var first := CreateProcess(pager, 0, true);
      if first != 0 {
        RunFirst(pager, first);
      }
      HeadFacts(store, processList, procs, nextPid, brk);
      processList := first;
    }

    /** current_process = first, with its state. */
    method RunFirst(pager: Paging.Pager, first: u32)
      requires Formed() && Fits(pager) && procs == [first] && first != 0
      modifies this`store, this`cur, this`currentProcess
      ensures Formed() && Fits(pager) && currentProcess == first && processList == first
      ensures var v := old(View()); View() == Scheduler.Switch(v, 0)
    {
      hide ProcessRecords.Formed, Unowned, SameHousing, DirectoriesKnown, DirectoriesLive;
      ghost var was := store;
      currentProcess, cur := first, 0;
      SetState(currentProcess, 0, Scheduler.Running);
      HousingStays(was, store, pager.dirs, pager.owner);
      HeadFacts(store, processList, procs, nextPid, brk);
    }

    /** p->state = state, for the record at position k of the list. */
    method SetState(p: u32, ghost k: nat, state: RunState)
      requires Formed() && k < |procs| && p == procs[k]
      modifies this`store
      ensures Formed() && store == old(store)[p := old(store)[p].(state := state)] && SameHousing(old(store), store)
      ensures var v := old(View()); View() == v.(procs := v.procs[k := v.procs[k].(state := state)])
    {
      hide ProcessRecords.Formed;
      RelabelledAt(store, processList, procs, nextPid, brk, cur, k, state);
      store := store[p := store[p].(state := state)];
    }

    /** Returns -1 as an unsigned word when it fails, otherwise the pid of the child. */
    method Fork(pager: Paging.Pager) returns (pid: u32)
      requires Formed() && Beside(pager) && pager.Valid()
      modifies this, pager, pager.heap, pager.ram
      ensures Formed() && Beside(pager) && pager.Valid() && currentProcess == old(currentProcess)
      ensures Fits(pager) <==> old(Fits(pager)) && (currentProcess == 0 || Kernel.CanAllocate(old(pager.View())))
      ensures pager.SparesUnowned()
      ensures currentProcess == 0 ==> pid == WORD - 1 && unchanged(this) && unchanged(pager)
      ensures currentProcess != 0 ==>
        && pid == (if Kernel.Blocks(old(pager.View())).0 == 0 then WORD - 1 else old(nextPid))
        && State(pager) ==
          Kernel.Create(old(State(pager)), old(View().procs[cur].pid), true, pager.kernelDirectory)
      ensures currentProcess != 0 && pid != WORD - 1 ==>
        && procs != [] && currentProcess in old(store) && store[procs[0]].parent == currentProcess
        && store[procs[0]].cpu == old(store)[currentProcess].cpu
      ensures pager.currentDirectory == old(pager.currentDirectory)
    {
      hide ProcessRecords.Formed, StartingCpu, Kernel.Blocks, Unowned, SameHousing, DirectoriesKnown, DirectoriesLive;
      if currentProcess == 0 {
        return WORD - 1;
      }
      ghost var k := State(pager);
      var child := CreateProcess(pager, 0, false);
      if child == 0 {
        return WORD - 1;
      }
      ghost var was := store;
      pid := Adopt(child);
      HousingStays(was, store, pager.dirs, pager.owner);
      Kernel.ForkUnfolds(k, old(View().procs[cur].pid), pager.kernelDirectory);
    }

    /** The part of fork behind create_process. */
    method Adopt(child: u32) returns (pid: u32)
      requires Running() && procs[0] == child && cur > 0
      modifies this`store
      ensures Formed() && pid == View().procs[0].pid == old(View()).procs[0].pid
      ensures var v := old(View()); View() == v.(procs := v.procs[0 := v.procs[0].(parent := v.procs[cur].pid)])
      ensures currentProcess in old(store) && store[child].parent == currentProcess
      ensures store[child].cpu == old(store)[currentProcess].cpu
      ensures SameHousing(old(store), store)
    {
      hide ProcessRecords.Formed;
      ListFacts(store, processList, procs, nextPid, brk, cur);
      AdoptedView(store, processList, procs, nextPid, brk, cur, currentProcess);
      store := Adopted(store, child, currentProcess);
      return store[child].pid;
    }

    // ----- destruction

    /** proc is NULL or any record, in the list or not. */
    method DestroyProcess(proc: u32)
      requires Running() && proc != currentProcess
      modifies this
      ensures Running() && currentProcess == old(currentProcess) && brk == old(brk) && SameHousing(old(store), store)
      ensures proc !in old(procs) ==> unchanged(this)
      ensures forall k :: 0 <= k < |old(procs)| && old(procs)[k] == proc ==>
        View() == Scheduler.Destroy(old(View()), k) && procs == Drop(old(procs), k)
    {
      hide ProcessRecords.Formed;
      HeadFacts(store, processList, procs, nextPid, brk);
      if proc == 0 {
        return;
      }
      if processList == proc {
        UnlinkHead();
      } else {
        var current;
        ghost var i;
        current, i := FindPredecessor(proc);
        if current != 0 {
          UnlinkAfter(current, i);
        }
      }
    }

    /** The loop of destroy_process: the record linked to proc, NULL if proc is not in the list. */
    method FindPredecessor(proc: u32) returns (current: u32, ghost i: nat)
      requires Running() && proc != 0 && processList != proc
      ensures current == 0 ==> proc !in procs
      ensures current != 0 ==> i + 1 < |procs| && procs[i] == current && procs[i + 1] == proc
      ensures current != 0 ==> forall k :: 0 <= k < |procs| && procs[k] == proc ==> k == i + 1
    {
      hide ProcessRecords.Formed;
      HeadFacts(store, processList, procs, nextPid, brk);
      current, i := processList, 0;
      while current != 0 && store[current].next != proc
        invariant i <= |procs| && current == At(procs, i)
        invariant forall j :: 0 <= j <= i && j < |procs| ==> procs[j] != proc
        invariant current != 0 ==> i < |procs|
        decreases |procs| - i
      {
        ListFacts(store, processList, procs, nextPid, brk, i);
        current, i := store[current].next, i + 1;
      }
      if current != 0 {
        ListFacts(store, processList, procs, nextPid, brk, i);
        ListFacts(store, processList, procs, nextPid, brk, i + 1);
      }
    }

    /** process_list = proc->next, for the record at the head. */
    method UnlinkHead()
      requires Running() && cur > 0
      modifies this`processList, this`procs, this`cur
      ensures Running() && View() == Scheduler.Destroy(old(View()), 0) && procs == Drop(old(procs), 0)
    {
      hide ProcessRecords.Formed;
      ListFacts(store, processList, procs, nextPid, brk, 0);
      UnlinkedHead(store, processList, procs, nextPid, brk, cur);
      processList := store[processList].next;
      procs, cur := Drop(procs, 0), cur - 1;
    }

    /** current->next = proc->next, for the record behind current. */
    method UnlinkAfter(current: u32, ghost i: nat)
      requires Running() && i + 1 < |procs| && procs[i] == current && i + 1 != cur
      modifies this`store, this`procs, this`cur
      ensures SameHousing(old(store), store)
      ensures Running() && View() == Scheduler.Destroy(old(View()), i + 1) && procs == Drop(old(procs), i + 1)
    {
      hide ProcessRecords.Formed;
      ListFacts(store, processList, procs, nextPid, brk, i);
      UnlinkedInner(store, processList, procs, nextPid, brk, i + 1);
      UnlinkedView(store, Bypass(store, current, procs[i + 1]), procs, cur, nextPid, i + 1);
      store := Bypass(store, current, store[current].next);
      procs, cur := Drop(procs, i + 1), if i + 1 < cur then cur - 1 else cur;
    }

    // ----- scheduling

    /** Does nothing before process_init. */
    method Schedule(pager: Paging.Pager)
      requires Formed() && Beside(pager)
      requires currentProcess != 0 ==> View().procs[cur].dir == pager.currentDirectory
      modifies this, pager`currentDirectory
      ensures Formed() && Beside(pager) && (old(Fits(pager)) ==> Fits(pager))
      ensures currentProcess == 0 <==> old(currentProcess) == 0
      ensures currentProcess == 0 ==> unchanged(this) && unchanged(pager)
      ensures currentProcess != 0 ==>
        && View() == Scheduler.Reschedule(old(View())) && View().procs[cur].dir == pager.currentDirectory
        && (old(pager.Valid()) && pager.Valid() ==>
              pager.View() == VirtualMemory.Switch(old(pager.View()), pager.currentDirectory))
    {
      hide ProcessRecords.Formed, Unowned, SameHousing, DirectoriesKnown, DirectoriesLive;
      if currentProcess == 0 {
        return;
      }
      var next;
      ghost var i;
      next, i := FindNext();
      ListFacts(store, processList, procs, nextPid, brk, i);
      if next != 0 && next != currentProcess && store[next].state.Ready? {
        ghost var was := store;
        SetState(currentProcess, cur, Scheduler.Ready);
        HousingStays(was, store, pager.dirs, pager.owner);
        SwitchTask(pager, next, i);
      }
    }

    /** The wrap-around search of schedule. */
    method FindNext() returns (next: u32, ghost i: nat)
      requires Running()
      ensures i == Scheduler.Scan(View().procs, cur, Scheduler.Succ(|procs|, cur))
      ensures next == procs[Scheduler.Scan(View().procs, cur, Scheduler.Succ(|procs|, cur))]
    {
      hide ProcessRecords.Formed;
      ghost var n, v := |procs|, View();
      i := Scheduler.Succ(n, cur);
      HeadFacts(store, processList, procs, nextPid, brk);
      ListFacts(store, processList, procs, nextPid, brk, cur);
      next := store[currentProcess].next;
      if next == 0 { next := processList; }
      ListFacts(store, processList, procs, nextPid, brk, i);
      while next != 0 && !store[next].state.Ready? && next != currentProcess
        invariant i < n && next == procs[i]
        invariant Scheduler.Scan(v.procs, cur, i) == Scheduler.Scan(v.procs, cur, Scheduler.Succ(n, cur))
        decreases Scheduler.Gap(n, i, cur)
      {
        ListFacts(store, processList, procs, nextPid, brk, i);
        next := store[next].next;
        i := Scheduler.Succ(n, i);
        if next == 0 { next := processList; }
        ListFacts(store, processList, procs, nextPid, brk, i);
      }
      ListFacts(store, processList, procs, nextPid, brk, i);
    }

    /** Does nothing for NULL and for the current process. */
    method SwitchTask(pager: Paging.Pager, next: u32, ghost i: nat)
      requires Formed() && Beside(pager)
      requires next != 0 && next != currentProcess ==> i < |procs| && procs[i] == next
      modifies this, pager`currentDirectory
      ensures Formed() && Beside(pager) && (old(Fits(pager)) ==> Fits(pager))
      ensures next == 0 || next == old(currentProcess) ==> unchanged(this) && unchanged(pager)
      ensures next != 0 && next != old(currentProcess) ==>
        && Running() && currentProcess == next
        && i < |old(View()).procs| && View() == Scheduler.Switch(old(View()), i)
        && View().procs[cur].dir == pager.currentDirectory
        && (old(pager.Valid()) && pager.Valid() ==>
              pager.View() == VirtualMemory.Switch(old(pager.View()), pager.currentDirectory))
    {
      hide ProcessRecords.Formed, Unowned, SameHousing, DirectoriesKnown, DirectoriesLive;
      if next == 0 || next == currentProcess {
        return;
      }
      ListFacts(store, processList, procs, nextPid, brk, i);
      ghost var was := store;
      currentProcess := next;
      cur := i;
      SetState(currentProcess, i, Scheduler.Running);
      HousingStays(was, store, pager.dirs, pager.owner);
      pager.SwitchPageDirectory(store[currentProcess].pageDirectory);
    }

    method Exit(pager: Paging.Pager)
      requires Formed() && Beside(pager)
      requires currentProcess != 0 ==> View().procs[cur].dir == pager.currentDirectory
      modifies this, pager`currentDirectory
      ensures Formed() && Beside(pager) && (old(Fits(pager)) ==> Fits(pager))
      ensures currentProcess == 0 <==> old(currentProcess) == 0
      ensures currentProcess == 0 ==> unchanged(this) && unchanged(pager)
      ensures currentProcess != 0 ==>
        && View() == Scheduler.Exit(old(View())) && View().procs[cur].dir == pager.currentDirectory
        && (old(pager.Valid()) && pager.Valid() ==>
              pager.View() == VirtualMemory.Switch(old(pager.View()), pager.currentDirectory))
    {
      hide ProcessRecords.Formed, Unowned, SameHousing, DirectoriesKnown, DirectoriesLive;
      if currentProcess == 0 {
        return;
      }
      ghost var was := store;
      Terminate();
      HousingStays(was, store, pager.dirs, pager.owner);
      Schedule(pager);
    }

    /** The part of exit before the call of schedule. */
    method Terminate()
      requires Running()
      modifies this`store
      ensures Running() && View() == Scheduler.Terminate(old(View()))
      ensures SameHousing(old(store), store)
    {
      hide ProcessRecords.Formed;
      ListFacts(store, processList, procs, nextPid, brk, cur);
      WokenIsTerminate(store, processList, procs, nextPid, brk, cur);
      var parent := store[currentProcess].parent;
      store := store[currentProcess := store[currentProcess].(state := Scheduler.Terminated)];
      if parent != 0 && store[parent].state.Blocked? {
        store := store[parent := store[parent].(state := Scheduler.Ready)];
      }
    }
  }
}
