/**
 Process records linked by address. Records live at the addresses kmalloc returns; address 0 is NULL.
 */
module ProcessRecords {
  import opened Words
  import opened Heap
  import PageTables
  import Scheduler
  import Kernel

  type RunState = Scheduler.RunState

  /** The saved registers that process.c sets or copies. */
  datatype Cpu = Cpu(esp: u32, eip: u32, cs: u32, ss: u32, eflags: u32, cr3: u32)

  /** process_t, for the fields the list operations use. */
  datatype Record = Record(pid: u32, ppid: u32, state: RunState, cpu: Cpu, pageDirectory: u32,
                           kernelStack: u32, userStack: u32, next: u32, parent: u32)

  type Store = map<u32, Record>

  /** The registers of a new process: its entry point, its segments and interrupts, and the stack of its mode. */
  function StartingCpu(kernelMode: bool, entryPoint: u32, kernelStack: u32, cr3: u32): Cpu {
    if kernelMode then Cpu(kernelStack, entryPoint, 0x08, 0x10, 0x202, cr3)
    else Cpu(Kernel.USER_STACK, entryPoint, 0x1B, 0x23, 0x202, cr3)
  }

  /** A process starts in the ring of its mode, 0 or 3, on the stack of its mode, at its entry point. */
  lemma StartingRegisters(kernelMode: bool, entryPoint: u32, kernelStack: u32, cr3: u32)
    ensures var cpu := StartingCpu(kernelMode, entryPoint, kernelStack, cr3);
      && cpu.cs == (if kernelMode then 0x08 else 0x1B) && cpu.ss == (if kernelMode then 0x10 else 0x23)
      && cpu.cs % 4 == cpu.ss % 4 == (if kernelMode then 0 else 3)
      && cpu.esp == (if kernelMode then kernelStack else 0xC000_0000)
      && cpu.eip == entryPoint && cpu.eflags == 0x202 && cpu.cr3 == cr3
  {
  }

  // ----- the linked list

  /** Address i of a list, NULL at its end. */
  function At(list: seq<u32>, i: nat): u32 {
    if i < |list| then list[i] else 0
  }

  /** The records at these addresses are linked in this order; younger records come first. */
  ghost predicate Linked(store: Store, head: u32, list: seq<u32>) {
    && head == At(list, 0) && 0 !in store
    && (forall i :: 0 <= i < |list| ==> list[i] in store)
    && (forall i {:trigger store[list[i]]} :: 0 <= i < |list| ==> store[list[i]].next == At(list, i + 1))
    && (forall i, j :: 0 <= i < j < |list| ==> list[i] > list[j])
  }

  /** Records and kernel stacks are separate heap blocks, and pids follow the order of creation, each for a record. */
  ghost predicate Placed(store: Store, nextPid: u32, brk: u32) {
    && 0 < nextPid && HEAP_START + Kernel.RECORD_BYTES * (nextPid - 1) <= brk
    && (forall a :: a in store ==> HEAP_START <= a && a + Kernel.RECORD_BYTES <= RecordEnd(store, a) <= brk)
    && (forall a :: a in store ==> 0 < store[a].pid < nextPid)
    && (forall a, b :: a in store && b in store && a < b ==> RecordEnd(store, a) <= b && store[a].pid < store[b].pid)
  }

  /** The end of the record and, where it could be allocated, of the kernel stack right behind it. */
  function RecordEnd(store: Store, a: u32): int
    requires a in store
  {
    if store[a].kernelStack == Kernel.STACK_BYTES then a + Kernel.RECORD_BYTES else store[a].kernelStack
  }

  /** Every parent is an older record, and ppid is its pid. */
  ghost predicate Ancestry(store: Store) {
    forall a {:trigger store[a].parent} :: a in store ==>
      if store[a].parent == 0 then store[a].ppid == 0
      else store[a].parent in store && store[a].parent < a && store[a].ppid == store[store[a].parent].pid
  }

  ghost predicate StacksBehind(store: Store) {
    forall a :: a in store ==>
      || store[a].kernelStack == Kernel.STACK_BYTES
      || store[a].kernelStack == a + Kernel.RECORD_BYTES + Kernel.STACK_BYTES
  }

  ghost predicate Formed(store: Store, head: u32, list: seq<u32>, nextPid: u32, brk: u32) {
    Linked(store, head, list) && Placed(store, nextPid, brk) && Ancestry(store) && StacksBehind(store)
  }

  /** What a walk along the list relies on at position i. */
  lemma ListFacts(store: Store, head: u32, list: seq<u32>, nextPid: u32, brk: u32, i: nat)
    requires Formed(store, head, list, nextPid, brk) && i < |list|
    ensures head == At(list, 0) && 0 !in store && 0 < nextPid
    ensures list[i] in store && list[i] != 0 && store[list[i]].next == At(list, i + 1)
    ensures forall j :: 0 <= j < |list| && list[j] == list[i] ==> j == i
    ensures i > 0 ==> list[i] < list[0]
    ensures store[list[i]].parent != 0 ==> store[list[i]].parent in store
  {
  }

  lemma HeadFacts(store: Store, head: u32, list: seq<u32>, nextPid: u32, brk: u32)
    requires Formed(store, head, list, nextPid, brk)
    ensures head == At(list, 0) && 0 !in store && 0 < nextPid
    ensures forall i :: 0 <= i < |list| ==> list[i] in store && list[i] != 0
    ensures forall i, j :: 0 <= i < j < |list| ==> list[i] != list[j]
  {
  }

  /** after is store with one new record at a. */
  ghost predicate IsNew(store: Store, after: Store, a: u32) {
    && a !in store && a in after && after == store[a := after[a]]
    && after[a].parent == 0 && after[a].ppid == 0
  }

  /** No word of a record or of a kernel stack belongs to a directory, a table or the bitmap. */
  ghost predicate Unowned(store: Store, owner: seq<PageTables.Owner>) {
    && |owner| == PageTables.RAM_WORDS
    && forall a :: a in store ==>
      a % 4 == 0 && a <= RecordEnd(store, a)
      && PageTables.Owns(owner, a, (RecordEnd(store, a) - a) / 4, PageTables.Nobody)
  }

  /** From a on all words belong to nobody. */
  ghost predicate FreeFrom(owner: seq<PageTables.Owner>, a: u32) {
    && |owner| == PageTables.RAM_WORDS && a % 4 == 0
    && forall w :: a / 4 <= w < |owner| ==> owner[w].Nobody?
  }

  /** Below brk, what belonged to nobody still does. */
  ghost predicate StillFree(before: seq<PageTables.Owner>, after: seq<PageTables.Owner>, brk: u32) {
    && |before| == |after|
    && forall w :: 0 <= w < |before| && HEAP_START / 4 <= w < brk / 4 && before[w].Nobody? ==> after[w].Nobody?
  }

  /** A new record joins, whose two blocks were allocated before the memory below brk was handed on. */
  lemma UnownedPushed(store: Store, head: u32, list: seq<u32>, nextPid: u32, low: u32,
                      before: seq<PageTables.Owner>, after: seq<PageTables.Owner>, brk: u32, a: u32, r: Record)
    requires Formed(store, head, list, nextPid, low) && low <= brk <= HEAP_END
    requires Unowned(store, before) && FreeFrom(before, a) && StillFree(before, after, brk)
    requires HEAP_START <= a && a + Kernel.RECORD_BYTES <= RecordEnd(store[a := r], a) <= brk
    requires a !in store
    ensures Unowned(store[a := r], after)
  {
    var s := store[a := r];
    forall b | b in s
      ensures b % 4 == 0 && b <= RecordEnd(s, b)
      ensures PageTables.Owns(after, b, (RecordEnd(s, b) - b) / 4, PageTables.Nobody)
    {
      if b != a {
        assert RecordEnd(s, b) == RecordEnd(store, b) <= low;
      }
    }
  }

  /** Paging writes that spare unowned words spare every record and every kernel stack. */
  lemma RecordsSpared(store: Store, head: u32, list: seq<u32>, nextPid: u32, low: u32, owner: seq<PageTables.Owner>,
                      m: seq<u32>, n: seq<u32>, brk: u32)
    requires Formed(store, head, list, nextPid, low) && low <= brk <= HEAP_END && Unowned(store, owner)
    requires |m| == |n| == |owner|
    requires forall w :: 0 <= w < |m| && HEAP_START / 4 <= w < brk / 4 && owner[w].Nobody? ==> n[w] == m[w]
    ensures forall a, w :: a in store && a / 4 <= w < RecordEnd(store, a) / 4 ==> 0 <= w < |m| && n[w] == m[w]
  {
    forall a, w | a in store && a / 4 <= w < RecordEnd(store, a) / 4
      ensures 0 <= w < |m| && n[w] == m[w]
    {
      assert PageTables.Owns(owner, a, (RecordEnd(store, a) - a) / 4, PageTables.Nobody);
    }
  }

  /** The same records, with the same stacks and directories. */
  ghost predicate SameHousing(store: Store, after: Store) {
    && after.Keys == store.Keys
    && forall a :: a in store ==>
      after[a].kernelStack == store[a].kernelStack && after[a].pageDirectory == store[a].pageDirectory
  }

  /** A record's page directory exists or is NULL. */
  ghost predicate DirectoriesKnown(store: Store, dirs: set<u32>) {
    forall a :: a in store ==> store[a].pageDirectory in dirs || store[a].pageDirectory == 0
  }

  /** With a new record every directory exists exactly if every one did, and the new one does. */
  lemma DirectoriesPushed(store: Store, a: u32, r: Record, dirs: set<u32>, after: set<u32>)
    requires DirectoriesKnown(store, dirs) && dirs <= after && 0 !in after && a !in store
    requires r.pageDirectory in after || r.pageDirectory == 0
    ensures DirectoriesKnown(store[a := r], after)
    ensures DirectoriesLive(store[a := r], after) <==> DirectoriesLive(store, dirs) && r.pageDirectory in after
  {
    var s := store[a := r];
    assert forall b :: b in store ==> s[b] == store[b];
    assert s[a] == r;
    if DirectoriesLive(s, after) {
      forall b | b in store ensures store[b].pageDirectory in dirs {
        assert s[b].pageDirectory in after;
      }
    }
  }

  lemma HousingStays(store: Store, after: Store, dirs: set<u32>, owner: seq<PageTables.Owner>)
    requires SameHousing(store, after) && Unowned(store, owner)
    ensures Unowned(after, owner) && (DirectoriesLive(after, dirs) <==> DirectoriesLive(store, dirs))
    ensures DirectoriesKnown(after, dirs) <==> DirectoriesKnown(store, dirs)
  {
    forall a | a in store
      ensures a in after && RecordEnd(after, a) == RecordEnd(store, a)
    {
    }
  }

  /** Every record's page directory exists. */
  ghost predicate DirectoriesLive(store: Store, dirs: set<u32>) {
    forall a :: a in store ==> store[a].pageDirectory in dirs
  }

  /** Process records and kernel stacks of different processes never overlap. */
  lemma BlocksApart(store: Store, head: u32, list: seq<u32>, nextPid: u32, brk: u32, a: u32, b: u32)
    requires Formed(store, head, list, nextPid, brk) && a in store && b in store && a != b
    ensures Disjoint(a, Kernel.RECORD_BYTES, b, Kernel.RECORD_BYTES)
    ensures store[b].kernelStack != Kernel.STACK_BYTES ==>
      Disjoint(a, Kernel.RECORD_BYTES, store[b].kernelStack - Kernel.STACK_BYTES, Kernel.STACK_BYTES)
    ensures store[a].kernelStack != Kernel.STACK_BYTES && store[b].kernelStack != Kernel.STACK_BYTES ==>
      Disjoint(store[a].kernelStack - Kernel.STACK_BYTES, Kernel.STACK_BYTES,
               store[b].kernelStack - Kernel.STACK_BYTES, Kernel.STACK_BYTES)
  {
  }

  /** The pid counter never wraps: every pid was taken for a record, and the heap holds only so many. */
  lemma PidsNeverRunOut(store: Store, head: u32, list: seq<u32>, nextPid: u32, brk: u32)
    requires Formed(store, head, list, nextPid, brk) && brk <= HEAP_END
    ensures nextPid <= 38551
  {
  }

  /** What the scheduler sees of a record. */
  function Seen(r: Record): Scheduler.Proc {
    Scheduler.Proc(r.pid, r.ppid, r.state, r.pageDirectory)
  }

  ghost function ListView(store: Store, list: seq<u32>, cur: nat, nextPid: u32): (s: Scheduler.Sys)
    requires forall i :: 0 <= i < |list| ==> list[i] in store
    ensures |s.procs| == |list| && s.cur == cur && s.nextPid == nextPid
  {
    Scheduler.Sys(seq(|list|, i requires 0 <= i < |list| => Seen(store[list[i]])), cur, nextPid)
  }

  // ----- effects of the three kinds of write

  /** A new record pushed at the head. */
  lemma Pushed(store: Store, head: u32, list: seq<u32>, nextPid: u32, brk: u32, cur: nat, a: u32, r: Record, next: u32)
    requires Formed(store, head, list, nextPid, brk) && brk <= a && HEAP_START <= a
    requires r.pid == nextPid && r.ppid == 0 && r.parent == 0 && r.next == head
    requires r.kernelStack == Kernel.STACK_BYTES || r.kernelStack == a + Kernel.RECORD_BYTES + Kernel.STACK_BYTES
    requires a + Kernel.RECORD_BYTES <= RecordEnd(store[a := r], a) <= next
    ensures a !in store && Formed(store[a := r], a, [a] + list, nextPid + 1, next)
    ensures ListView(store[a := r], [a] + list, cur + 1, nextPid + 1) ==
      var v := ListView(store, list, cur, nextPid); Scheduler.Sys([Seen(r)] + v.procs, cur + 1, nextPid + 1)
  {
    NewIsLast(store, nextPid, brk, a);
    PushedLink(store, head, list, a, r);
    PushedPlaced(store, nextPid, brk, a, r, next);
    PushedAncestry(store, a, r);
    assert ListView(store[a := r], [a] + list, cur + 1, nextPid + 1).procs ==
      [Seen(r)] + ListView(store, list, cur, nextPid).procs;
  }

  lemma NewIsAbove(store: Store, head: u32, list: seq<u32>, nextPid: u32, brk: u32, a: u32)
    requires Formed(store, head, list, nextPid, brk) && brk <= a
    ensures forall b :: b in store ==> b < a
  {
    NewIsLast(store, nextPid, brk, a);
  }

  lemma NewIsLast(store: Store, nextPid: u32, brk: u32, a: u32)
    requires Placed(store, nextPid, brk) && brk <= a
    ensures forall b :: b in store ==> b < a
  {
  }

  lemma PushedLink(store: Store, head: u32, list: seq<u32>, a: u32, r: Record)
    requires Linked(store, head, list) && r.next == head && a != 0 && forall b :: b in store ==> b < a
    ensures Linked(store[a := r], a, [a] + list)
  {
  }

  lemma PushedPlaced(store: Store, nextPid: u32, brk: u32, a: u32, r: Record, next: u32)
    requires Placed(store, nextPid, brk) && brk <= a && HEAP_START <= a
    requires r.pid == nextPid && a + Kernel.RECORD_BYTES <= RecordEnd(store[a := r], a) <= next && brk <= next
    requires forall b :: b in store ==> b < a
    ensures Placed(store[a := r], nextPid + 1, next)
  {
  }

  lemma PushedAncestry(store: Store, a: u32, r: Record)
    requires Ancestry(store) && a !in store && r.ppid == 0 && r.parent == 0
    ensures Ancestry(store[a := r])
  {
  }

  /** A record that changes in neither link nor identity. */
  lemma Relabelled(store: Store, head: u32, list: seq<u32>, nextPid: u32, brk: u32, cur: nat, a: u32, state: RunState)
    requires Formed(store, head, list, nextPid, brk) && a in store
    ensures Formed(store[a := store[a].(state := state)], head, list, nextPid, brk)
    ensures var s, v := ListView(store, list, cur, nextPid),
                        ListView(store[a := store[a].(state := state)], list, cur, nextPid);
      && |v.procs| == |s.procs|
      && forall i :: 0 <= i < |list| ==>
        v.procs[i] == if list[i] == a then s.procs[i].(state := state) else s.procs[i]
  {
    hide Placed, Ancestry, StacksBehind;
    var after := store[a := store[a].(state := state)];
    SamePlaces(store, after, nextPid, brk);
    SameLinks(store, after, head, list);
  }

  /** A run state changed at position k of the list. */
  lemma RelabelledAt(store: Store, head: u32, list: seq<u32>, nextPid: u32, brk: u32, cur: nat, k: nat, state: RunState)
    requires Formed(store, head, list, nextPid, brk) && k < |list|
    ensures Formed(store[list[k] := store[list[k]].(state := state)], head, list, nextPid, brk)
    ensures var s, v := ListView(store, list, cur, nextPid),
                        ListView(store[list[k] := store[list[k]].(state := state)], list, cur, nextPid);
      v == s.(procs := s.procs[k := s.procs[k].(state := state)])
  {
    hide Formed;
    HeadFacts(store, head, list, nextPid, brk);
    Relabelled(store, head, list, nextPid, brk, cur, list[k], state);
    var s := ListView(store, list, cur, nextPid);
    var v := ListView(store[list[k] := store[list[k]].(state := state)], list, cur, nextPid);
    assert v.procs == s.procs[k := s.procs[k].(state := state)];
  }

  /** exit's two writes: the current process is terminated, a blocked parent is woken. */
  function Woken(store: Store, me: u32): Store
    requires me in store
  {
    var parent := store[me].parent;
    var after := store[me := store[me].(state := Scheduler.Terminated)];
    if parent != 0 && parent in after && after[parent].state.Blocked?
    then after[parent := after[parent].(state := Scheduler.Ready)] else after
  }

  lemma WokenIsTerminate(store: Store, head: u32, list: seq<u32>, nextPid: u32, brk: u32, cur: nat)
    requires Formed(store, head, list, nextPid, brk) && cur < |list|
    requires forall i :: 0 <= i < |list| ==> list[i] in store
    ensures Formed(Woken(store, list[cur]), head, list, nextPid, brk)
    ensures ListView(Woken(store, list[cur]), list, cur, nextPid) ==
      Scheduler.Terminate(ListView(store, list, cur, nextPid))
  {
    hide Formed;
    var me := list[cur];
    var parent := store[me].parent;
    var after := store[me := store[me].(state := Scheduler.Terminated)];
    RelabelledAt(store, head, list, nextPid, brk, cur, cur, Scheduler.Terminated);
    ListFacts(store, head, list, nextPid, brk, cur);
    if parent != 0 && after[parent].state.Blocked? {
      Relabelled(after, head, list, nextPid, brk, cur, parent, Scheduler.Ready);
    }
    forall i | 0 <= i < |list|
      ensures store[list[i]].pid == store[me].ppid <==> parent != 0 && list[i] == parent
    {
      ParentByPid(store, head, list, nextPid, brk, me, list[i]);
    }
    WokenView(store, list, cur, nextPid);
  }

  lemma WokenView(store: Store, list: seq<u32>, cur: nat, nextPid: u32)
    requires cur < |list| && forall i :: 0 <= i < |list| ==> list[i] in store
    requires forall i :: 0 <= i < |list| && list[i] == list[cur] ==> i == cur
    requires forall i :: 0 <= i < |list| ==>
      (store[list[i]].pid == store[list[cur]].ppid <==>
       store[list[cur]].parent != 0 && list[i] == store[list[cur]].parent)
    ensures ListView(Woken(store, list[cur]), list, cur, nextPid) ==
      Scheduler.Terminate(ListView(store, list, cur, nextPid))
  {
  }

  /** The only record whose pid is a record's ppid is its parent. */
  lemma ParentByPid(store: Store, head: u32, list: seq<u32>, nextPid: u32, brk: u32, me: u32, b: u32)
    requires Formed(store, head, list, nextPid, brk) && me in store && b in store
    ensures store[b].pid == store[me].ppid <==> store[me].parent != 0 && b == store[me].parent
  {
  }

  /** fork's writes to the child: its parent and the copied registers. */
  function Adopted(store: Store, child: u32, parent: u32): Store
    requires child in store && parent in store
  {
    store[child := store[child].(ppid := store[parent].pid, parent := parent, cpu := store[parent].cpu)]
  }

  lemma AdoptedView(store: Store, head: u32, list: seq<u32>, nextPid: u32, brk: u32, cur: nat, parent: u32)
    requires Formed(store, head, list, nextPid, brk) && list != [] && parent in store && parent < list[0] && parent != 0
    ensures Formed(Adopted(store, list[0], parent), head, list, nextPid, brk)
    ensures var s := ListView(store, list, cur, nextPid);
      ListView(Adopted(store, list[0], parent), list, cur, nextPid) ==
      s.(procs := s.procs[0 := s.procs[0].(parent := store[parent].pid)])
  {
    hide Placed, Ancestry, StacksBehind, RecordEnd;
    var after := Adopted(store, list[0], parent);
    SameLinks(store, after, head, list);
    AdoptedPlaces(store, nextPid, brk, list[0], parent);
    AdoptedAncestry(store, list[0], parent);
    var s := ListView(store, list, cur, nextPid);
    assert ListView(after, list, cur, nextPid).procs == s.procs[0 := s.procs[0].(parent := store[parent].pid)];
  }

  lemma AdoptedPlaces(store: Store, nextPid: u32, brk: u32, child: u32, parent: u32)
    requires Placed(store, nextPid, brk) && StacksBehind(store) && child in store && parent in store
    ensures Placed(Adopted(store, child, parent), nextPid, brk) && StacksBehind(Adopted(store, child, parent))
  {
    hide Placed, StacksBehind;
    PlacesKept(store, Adopted(store, child, parent), nextPid, brk);
  }

  /** Placement is a matter of pids and stacks only. */
  lemma PlacesKept(store: Store, after: Store, nextPid: u32, brk: u32)
    requires Placed(store, nextPid, brk) && StacksBehind(store) && after.Keys == store.Keys
    requires forall a :: a in store ==>
      after[a].pid == store[a].pid && after[a].kernelStack == store[a].kernelStack
    ensures Placed(after, nextPid, brk) && StacksBehind(after)
  {
  }

  lemma AdoptedAncestry(store: Store, child: u32, parent: u32)
    requires Ancestry(store) && child in store && parent in store && 0 < parent < child
    ensures Ancestry(Adopted(store, child, parent))
  {
  }

  /** Records that keep pid, parents and stack keep everything but the links. */
  lemma SamePlaces(store: Store, after: Store, nextPid: u32, brk: u32)
    requires Placed(store, nextPid, brk) && Ancestry(store) && StacksBehind(store)
    requires after.Keys == store.Keys
    requires forall a :: a in store ==> after[a].(state := store[a].state, next := store[a].next) == store[a]
    ensures Placed(after, nextPid, brk) && Ancestry(after) && StacksBehind(after)
  {
    hide Placed, StacksBehind;
    forall a | a in store
      ensures after[a].pid == store[a].pid && after[a].kernelStack == store[a].kernelStack
      ensures after[a].ppid == store[a].ppid && after[a].parent == store[a].parent
    {
      assert after[a].(state := store[a].state, next := store[a].next) == store[a];
    }
    PlacesKept(store, after, nextPid, brk);
  }

  lemma SameLinks(store: Store, after: Store, head: u32, list: seq<u32>)
    requires Linked(store, head, list) && after.Keys == store.Keys
    requires forall a :: a in store ==> after[a].next == store[a].next
    ensures Linked(after, head, list)
  {
  }

  /** The list without its element k. */
  function Drop(list: seq<u32>, k: nat): (r: seq<u32>)
    requires k < |list|
    ensures |r| == |list| - 1
    ensures forall i :: 0 <= i < |r| ==> r[i] == list[if i < k then i else i + 1]
  {
    list[..k] + list[k + 1..]
  }

  /** current->next = proc->next */
  function Bypass(store: Store, p: u32, q: u32): Store
    requires p in store && q in store
  {
    store[p := store[p].(next := store[q].next)]
  }

  /** A record unlinked from the head of the list. */
  lemma UnlinkedHead(store: Store, head: u32, list: seq<u32>, nextPid: u32, brk: u32, cur: nat)
    requires Formed(store, head, list, nextPid, brk) && 0 < cur < |list|
    ensures Formed(store, store[head].next, Drop(list, 0), nextPid, brk)
    ensures ListView(store, Drop(list, 0), cur - 1, nextPid) ==
      Scheduler.Destroy(ListView(store, list, cur, nextPid), 0)
  {
    hide Placed, Ancestry, StacksBehind, ListView;
    UnlinkedView(store, store, list, cur, nextPid, 0);
  }

  /** A record unlinked further down: its predecessor takes over its link. */
  lemma UnlinkedInner(store: Store, head: u32, list: seq<u32>, nextPid: u32, brk: u32, k: nat)
    requires Formed(store, head, list, nextPid, brk) && 0 < k < |list|
    ensures Formed(Bypass(store, list[k - 1], list[k]), head, Drop(list, k), nextPid, brk)
  {
    SamePlaces(store, Bypass(store, list[k - 1], list[k]), nextPid, brk);
    BypassLinked(store, head, list, k);
  }

  lemma BypassLinked(store: Store, head: u32, list: seq<u32>, k: nat)
    requires Linked(store, head, list) && 0 < k < |list|
    ensures Linked(Bypass(store, list[k - 1], list[k]), head, Drop(list, k))
  {
  }

  lemma UnlinkedView(store: Store, after: Store, list: seq<u32>, cur: nat, nextPid: u32, k: nat)
    requires k < |list| && k != cur && after.Keys == store.Keys
    requires forall i :: 0 <= i < |list| ==> list[i] in store
    requires forall a :: a in store ==> Seen(after[a]) == Seen(store[a])
    ensures ListView(after, Drop(list, k), if k < cur then cur - 1 else cur, nextPid) ==
      Scheduler.Destroy(ListView(store, list, cur, nextPid), k)
  {
  }

  /** The two blocks of a new process: the kernel stack, where it fits, starts at the end of the record. */
  lemma StackFollowsRecord(brk: u32)
    requires Break(brk) && Alloc(brk, Kernel.RECORD_BYTES).0 != 0
    ensures var (record, b) := Alloc(brk, Kernel.RECORD_BYTES);
      var (stack, c) := Alloc(b, Kernel.STACK_BYTES);
      && record == brk && b == brk + Kernel.RECORD_BYTES && Break(c) && b <= c
      && (stack == 0 || (stack == b && b + Kernel.STACK_BYTES <= c))
  {
  }
}
