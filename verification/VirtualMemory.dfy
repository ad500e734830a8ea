/**
 What the paging code means: address spaces as sequences of entries, the set of used frames and the heap
 break. Class `Paging.Pager` does the same to directories, tables and a bitmap in one flat memory.
 */
module VirtualMemory {
  import opened Words
  import opened Bits
  import opened Heap
  import opened PageTables

  /** The address space and the existing tables of each directory; the current one; frames; the heap break. */
  datatype Vm = Vm(spaces: map<u32, seq<u32>>, tables: map<u32, set<nat>>, current: u32, used: set<nat>, brk: u32)

  ghost predicate Valid(vm: Vm) {
    && vm.current in vm.spaces && vm.tables.Keys == vm.spaces.Keys && Break(vm.brk)
    && (forall d :: d in vm.spaces ==> |vm.spaces[d]| == PAGES && HEAP_START <= d && d + DIR_BYTES <= vm.brk)
    && (forall d, p :: d in vm.spaces && 0 <= p < PAGES && vm.spaces[d][p] != 0 ==> p / ENTRIES in vm.tables[d])
    && (forall f :: f in vm.used ==> f < NFRAMES)
  }

  function PageOf(va: u32): (p: nat)
    ensures p < PAGES
  {
    va / 4096
  }

  /** (physical & 0xFFFFF000) | flags */
  function MakeEntry(pa: u32, flags: u32): (e: u32) {
    WordOr(pa / 4096 * 4096, flags)
  }

  /** x | y on 32 bits. */
  function WordOr(x: u32, y: u32): u32 {
    assert Pow2(32) == WORD by { Pow2Of32(); }
    OrFits(x, y, 32);
    Or(x, y)
  }

  lemma Pow2Of32()
    ensures Pow2(12) == 4096 && Pow2(32) == WORD
  {
    assert Pow2(4) == 16;
    assert Pow2(8) == 256;
    assert Pow2(12) == 4096;
    assert Pow2(16) == 0x1_0000;
    assert Pow2(20) == 0x10_0000;
    assert Pow2(24) == 0x100_0000;
    assert Pow2(28) == 0x1000_0000;
  }

  /** What the software walk answers in an address space. */
  function Translate(space: seq<u32>, va: u32): u32
    requires |space| == PAGES
  {
    var e := space[PageOf(va)];
    if e % 2 == 0 then 0 else e / 4096 * 4096 + va % 4096
  }

  // ----- the operations

  /** Entry p of the current address space becomes e. */
  function SetEntry(vm: Vm, p: nat, e: u32): Vm
    requires vm.current in vm.spaces && |vm.spaces[vm.current]| == PAGES && p < PAGES
  {
    var space: seq<u32> := vm.spaces[vm.current][p := e];
    vm.(spaces := vm.spaces[vm.current := space])
  }

  /** The current directory gets table i. */
  function AddTable(vm: Vm, i: nat, brk: u32): Vm
    requires vm.current in vm.tables
  {
    vm.(tables := vm.tables[vm.current := vm.tables[vm.current] + {i}], brk := brk)
  }

  function Map(vm: Vm, va: u32, pa: u32, flags: u32): Vm
    requires vm.current in vm.spaces && vm.current in vm.tables && |vm.spaces[vm.current]| == PAGES
  {
    var p, e := PageOf(va), MakeEntry(pa, flags);
    var (table, brk) := AllocA(vm.brk, TABLE_BYTES);
    if p / ENTRIES in vm.tables[vm.current] then SetEntry(vm, p, e)
    else if table == 0 then vm.(brk := brk)
    else SetEntry(AddTable(vm, p / ENTRIES, brk), p, e)
  }

  function Unmap(vm: Vm, va: u32): Vm
    requires vm.current in vm.spaces && |vm.spaces[vm.current]| == PAGES
  {
    SetEntry(vm, PageOf(va), 0)
  }

  /** create_page_directory: its address, 0 if the heap is exhausted. */
  function NewDirectory(vm: Vm): (u32, Vm) {
    var (d, brk) := AllocA(vm.brk, DIR_BYTES);
    if d == 0 then (0, vm.(brk := brk))
    else (d, vm.(spaces := vm.spaces[d := seq(PAGES, p => 0)], tables := vm.tables[d := {}], brk := brk))
  }

  function Switch(vm: Vm, d: u32): Vm {
    vm.(current := d)
  }

  /** The least frame from i on that is not used, NFRAMES if there is none. */
  function LeastFree(used: set<nat>, i: nat): (f: nat)
    requires i <= NFRAMES
    ensures i <= f <= NFRAMES
    ensures f < NFRAMES ==> f !in used
    ensures forall g :: i <= g < f ==> g in used
    decreases NFRAMES - i, used
  {
    if i == NFRAMES || i !in used then i else LeastFree(used, i + 1)
  }

  /** first_free_frame: -1 as an unsigned word when every frame is used. */
  function FirstFree(used: set<nat>): u32 {
    var f := LeastFree(used, 0);
    if f == NFRAMES then WORD - 1 else f
  }

  /** The address alloc_frame computes before it tests it against -1. */
  function FrameAddress(used: set<nat>): u32 {
    Mul32(FirstFree(used), 4096)
  }

  function SetFrame(vm: Vm, addr: u32): Vm {
    if addr / 4096 < NFRAMES then vm.(used := vm.used + {addr / 4096}) else vm
  }

  function ClearFrame(vm: Vm, addr: u32): Vm {
    if addr / 4096 < NFRAMES then vm.(used := vm.used - {addr / 4096}) else vm
  }

  function FrameFlags(isKernel: bool, isWritable: bool): u32 {
    PRESENT + (if isWritable then WRITABLE else 0) + (if isKernel then 0 else USER)
  }

  function AllocFrame(vm: Vm, va: u32, isKernel: bool, isWritable: bool): Vm
    requires vm.current in vm.spaces && vm.current in vm.tables && |vm.spaces[vm.current]| == PAGES
  {
    var pa := FrameAddress(vm.used);
    Map(SetFrame(vm, pa), va, pa, FrameFlags(isKernel, isWritable))
  }

  // ----- translation

  /** An entry keeps page and flags apart, for every flags word: its high bits join the page number. */
  lemma EntryParts(pa: u32, flags: u32)
    ensures MakeEntry(pa, flags) / 4096 == Or(pa / 4096, flags / 4096)
    ensures MakeEntry(pa, flags) % 2 == flags % 2
    ensures flags < 4096 ==> MakeEntry(pa, flags) == pa / 4096 * 4096 + flags
  {
    var base := pa / 4096 * 4096;
    PageMultiple(pa / 4096);
    EntryPage(base, flags);
    OrParity(base, flags);
    if flags < 4096 {
      Pow2Of32();
      OrIsSum(pa / 4096, flags, 12);
    }
  }

  lemma EntryPage(base: u32, flags: u32)
    ensures Or(base, flags) / 4096 == Or(base / 4096, flags / 4096)
  {
    OrShift(base, flags, 12);
    ShrBy12(base);
    ShrBy12(flags);
    ShrBy12(Or(base, flags));
  }

  ghost predicate Mapped(vm: Vm, va: u32)
    requires Valid(vm)
  {
    PageOf(va) / ENTRIES in vm.tables[vm.current] || AllocA(vm.brk, TABLE_BYTES).0 != 0
  }

  /**
   map_page then get_physical_address. Within the page the walk answers the mapped frame plus the offset,
   for flags that say PRESENT and fit in 12 bits; every other page and every other directory answers as
   before. If no table can be allocated nothing is mapped at all.
   */
  lemma MapThenTranslate(vm: Vm, va: u32, pa: u32, flags: u32, d: u32, wa: u32)
    requires Valid(vm) && d in vm.spaces && flags < 4096
    ensures var r := Map(vm, va, pa, flags);
      && d in r.spaces
      && Translate(r.spaces[d], wa) ==
        if d == vm.current && PageOf(wa) == PageOf(va) && Mapped(vm, va)
        then (if flags % 2 == 1 then pa / 4096 * 4096 + wa % 4096 else 0)
        else Translate(vm.spaces[d], wa)
  {
    EntryParts(pa, flags);
  }

  /** For arbitrary flags the walk answers the mapped frame exactly when the flags above bit 11 add nothing. */
  lemma WideFlags(pa: u32, flags: u32, space: seq<u32>, va: u32)
    requires |space| == PAGES && flags % 2 == 1
    ensures Translate(space[PageOf(va) := MakeEntry(pa, flags)], va) == pa / 4096 * 4096 + va % 4096
      <==> Or(pa / 4096, flags / 4096) == pa / 4096
  {
    EntryParts(pa, flags);
  }

  /** unmap_page undoes map_page on a page that had no mapping. */
  lemma UnmapUndoesMap(vm: Vm, va: u32, pa: u32, flags: u32)
    requires Valid(vm) && vm.spaces[vm.current][PageOf(va)] == 0
    ensures Unmap(Map(vm, va, pa, flags), va).spaces == vm.spaces
  {
    var d, p := vm.current, PageOf(va);
    var r := Unmap(Map(vm, va, pa, flags), va);
    assert r.spaces[d] == vm.spaces[d];
  }

  // ----- runs

  datatype VmOp =
    | MapOp(va: u32, pa: u32, flags: u32)
    | UnmapOp(va: u32)
    | NewOp
    | SwitchOp(d: u32)
    | AllocOp(va: u32, isKernel: bool, isWritable: bool)
    | SetOp(addr: u32)
    | ClearOp(addr: u32)
    | KmallocOp(request: Request)

  predicate Enabled(vm: Vm, op: VmOp) {
    && (op.SwitchOp? ==> op.d in vm.spaces)
    && (op.KmallocOp? ==> op.request.size <= 0xFF7F_FFFC)
  }

  function Apply(vm: Vm, op: VmOp): Vm
    requires vm.current in vm.spaces && vm.current in vm.tables && |vm.spaces[vm.current]| == PAGES
  {
    match op
    case MapOp(va, pa, flags) => Map(vm, va, pa, flags)
    case UnmapOp(va) => Unmap(vm, va)
    case NewOp => NewDirectory(vm).1
    case SwitchOp(d) => Switch(vm, d)
    case AllocOp(va, k, w) => AllocFrame(vm, va, k, w)
    case SetOp(a) => SetFrame(vm, a)
    case ClearOp(a) => ClearFrame(vm, a)
    case KmallocOp(r) => vm.(brk := Serve(vm.brk, r).1)
  }

  lemma MapKeepsValid(vm: Vm, va: u32, pa: u32, flags: u32)
    requires Valid(vm)
    ensures Valid(Map(vm, va, pa, flags)) && Map(vm, va, pa, flags).spaces.Keys == vm.spaces.Keys
    ensures vm.brk <= Map(vm, va, pa, flags).brk
  {
    ServeStep(vm.brk, Request(Aligned, TABLE_BYTES));
  }

  lemma AllocKeepsValid(vm: Vm, va: u32, isKernel: bool, isWritable: bool)
    requires Valid(vm)
    ensures Valid(AllocFrame(vm, va, isKernel, isWritable))
    ensures AllocFrame(vm, va, isKernel, isWritable).spaces.Keys == vm.spaces.Keys
    ensures vm.brk <= AllocFrame(vm, va, isKernel, isWritable).brk
  {
    var pa := FrameAddress(vm.used);
    MapKeepsValid(SetFrame(vm, pa), va, pa, FrameFlags(isKernel, isWritable));
  }

  lemma NewKeepsValid(vm: Vm)
    requires Valid(vm)
    ensures Valid(NewDirectory(vm).1) && vm.spaces.Keys <= NewDirectory(vm).1.spaces.Keys
    ensures forall d :: d in vm.spaces ==> d != NewDirectory(vm).0
    ensures vm.brk <= NewDirectory(vm).1.brk
  {
    ServeStep(vm.brk, Request(Aligned, DIR_BYTES));
  }

  lemma StepKeepsValid(vm: Vm, op: VmOp)
    requires Valid(vm) && Enabled(vm, op)
    ensures Valid(Apply(vm, op)) && vm.spaces.Keys <= Apply(vm, op).spaces.Keys
    ensures op != NewOp ==> Apply(vm, op).spaces.Keys == vm.spaces.Keys
    ensures !op.SwitchOp? ==> Apply(vm, op).current == vm.current
    ensures vm.brk <= Apply(vm, op).brk
  {
    match op
    case MapOp(va, pa, flags) => MapKeepsValid(vm, va, pa, flags);
    case AllocOp(va, k, w) => AllocKeepsValid(vm, va, k, w);
    case NewOp => NewKeepsValid(vm);
    case KmallocOp(r) => ServeStep(vm.brk, r);
    case _ =>
  }

  /** A directory created on the way is new: no existing address space is overwritten. */
  lemma StepIsolates(vm: Vm, op: VmOp, d: u32)
    requires Valid(vm) && Enabled(vm, op) && d in vm.spaces && d != vm.current
    ensures d in Apply(vm, op).spaces && Apply(vm, op).spaces[d] == vm.spaces[d]
  {
    if op == NewOp {
      NewKeepsValid(vm);
    }
  }

  ghost predicate Runs(vm: Vm, ops: seq<VmOp>)
    requires Valid(vm)
    decreases |ops|
  {
    ops != [] ==> Enabled(vm, ops[0]) && (StepKeepsValid(vm, ops[0]); Runs(Apply(vm, ops[0]), ops[1..]))
  }

  ghost function Final(vm: Vm, ops: seq<VmOp>): (r: Vm)
    requires Valid(vm) && Runs(vm, ops)
    ensures Valid(r)
    decreases |ops|
  {
    if ops == [] then vm else (StepKeepsValid(vm, ops[0]); Final(Apply(vm, ops[0]), ops[1..]))
  }

  /** d is never the current directory when an operation of the run starts. */
  ghost predicate NeverCurrent(vm: Vm, ops: seq<VmOp>, d: u32)
    requires Valid(vm) && Runs(vm, ops)
    decreases |ops|
  {
    ops != [] ==> vm.current != d && (StepKeepsValid(vm, ops[0]); NeverCurrent(Apply(vm, ops[0]), ops[1..], d))
  }

  /** Isolation: whatever runs in other address spaces, an address space that is not current stays as it is. */
  lemma {:induction false} RunIsolates(vm: Vm, ops: seq<VmOp>, d: u32)
    requires Valid(vm) && Runs(vm, ops) && d in vm.spaces && NeverCurrent(vm, ops, d)
    ensures d in Final(vm, ops).spaces && Final(vm, ops).spaces[d] == vm.spaces[d]
    decreases |ops|
  {
    if ops != [] {
      StepKeepsValid(vm, ops[0]);
      StepIsolates(vm, ops[0], d);
      RunIsolates(Apply(vm, ops[0]), ops[1..], d);
    }
  }

  // ----- the identity map

  /** The first 8 MB are present and mapped to themselves. */
  ghost predicate IdentityBelow8M(space: seq<u32>) {
    |space| == PAGES && forall p :: 0 <= p < 0x800 ==> space[p] % 2 == 1 && space[p] / 4096 == p
  }

  /** That is, the software walk answers every such address with itself. */
  lemma IdentityTranslates(space: seq<u32>)
    requires |space| == PAGES && space[0] % 2 == 1
    ensures IdentityBelow8M(space) <==> forall va: u32 :: va < 0x80_0000 ==> Translate(space, va) == va
  {
    if forall va: u32 :: va < 0x80_0000 ==> Translate(space, va) == va {
      forall p | 0 <= p < 0x800
        ensures space[p] % 2 == 1 && space[p] / 4096 == p
      {
        assert Translate(space, p * 4096) == p * 4096;
      }
    }
  }

  /** The address space that maps the first n pages to themselves, present and writable. */
  function Identity(n: nat): (s: seq<u32>)
    requires n <= 0x800
    ensures |s| == PAGES
  {
    seq(PAGES, p requires 0 <= p < PAGES => if p < n then p * 4096 + 3 else 0)
  }

  /** The identity map maps the first 8 MB to themselves, and nothing above; its pages are writable supervisor pages. */
  lemma IdentityMapsLowMemory(va: u32)
    ensures Identity(0x800)[va / 4096] % 4096 == if va < 0x80_0000 then 3 else 0
    ensures IdentityBelow8M(Identity(0x800))
    ensures Translate(Identity(0x800), va) == if va < 0x80_0000 then va else 0
  {
  }

  function TableCount(n: nat): nat {
    if n == 0 then 0 else if n <= ENTRIES then 1 else 2
  }

  function FirstTables(n: nat): set<nat> {
    if n == 0 then {} else if n <= ENTRIES then {0} else {0, 1}
  }

  /** The mapping loop of paging_init after n pages: one directory, and at most two tables above base. */
  ghost predicate Booting(vm: Vm, d: u32, base: u32, n: nat) {
    && n <= 0x800 && vm.current == d && vm.spaces == map[d := Identity(n)]
    && vm.tables == map[d := FirstTables(n)]
    && vm.used == {} && Break(vm.brk) && base <= vm.brk <= base + 8192 * TableCount(n)
  }

  lemma IdentityNext(n: nat)
    requires n < 0x800
    ensures PageOf(n * 4096) == n && MakeEntry(n * 4096, 3) == n * 4096 + 3
    ensures Identity(n)[n := n * 4096 + 3] == Identity(n + 1)
  {
    MultipleOf4096(n);
    EntryParts(n * 4096, 3);
  }

  lemma BootStep(vm: Vm, d: u32, base: u32, n: nat)
    requires Booting(vm, d, base, n) && n < 0x800 && base + 0x6000 < HEAP_END
    ensures Booting(Map(vm, n * 4096, n * 4096, 3), d, base, n + 1)
  {
    IdentityNext(n);
    if n / ENTRIES !in vm.tables[d] {
      assert n == 0 || n == ENTRIES;
      EnoughHeap(vm.brk, Request(Aligned, TABLE_BYTES));
      assert FirstTables(n) + {n / ENTRIES} == FirstTables(n + 1);
    }
  }

  /** No operation of the run changes a page below 8 MB while d is current. */
  ghost predicate SparesLow(vm: Vm, ops: seq<VmOp>, d: u32)
    requires Valid(vm) && Runs(vm, ops)
    decreases |ops|
  {
    ops != [] ==>
      && (vm.current == d && (ops[0].MapOp? || ops[0].UnmapOp? || ops[0].AllocOp?) ==> ops[0].va >= 0x80_0000)
      && (StepKeepsValid(vm, ops[0]); SparesLow(Apply(vm, ops[0]), ops[1..], d))
  }

  lemma {:induction false} IdentityStays(vm: Vm, ops: seq<VmOp>, d: u32)
    requires Valid(vm) && Runs(vm, ops) && d in vm.spaces && SparesLow(vm, ops, d)
    requires IdentityBelow8M(vm.spaces[d])
    ensures d in Final(vm, ops).spaces && IdentityBelow8M(Final(vm, ops).spaces[d])
    decreases |ops|
  {
    if ops != [] {
      StepKeepsValid(vm, ops[0]);
      var r := Apply(vm, ops[0]);
      if d != vm.current {
        StepIsolates(vm, ops[0], d);
      } else {
        StepIdentity(vm, ops[0]);
      }
      IdentityStays(r, ops[1..], d);
    }
  }

  lemma StepIdentity(vm: Vm, op: VmOp)
    requires Valid(vm) && Enabled(vm, op) && IdentityBelow8M(vm.spaces[vm.current])
    requires op.MapOp? || op.UnmapOp? || op.AllocOp? ==> op.va >= 0x80_0000
    ensures vm.current in Apply(vm, op).spaces && IdentityBelow8M(Apply(vm, op).spaces[vm.current])
  {
    var r := Apply(vm, op);
    if op == NewOp {
      ServeStep(vm.brk, Request(Aligned, DIR_BYTES));
    }
    assert forall p :: 0 <= p < 0x800 ==> r.spaces[vm.current][p] == vm.spaces[vm.current][p];
  }

  /** In a directory that maps low memory to itself, so is every byte of the next heap block. */
  lemma BlockIsIdentity(vm: Vm, d: u32, r: Request, a: u32)
    requires Valid(vm) && d in vm.spaces && IdentityBelow8M(vm.spaces[d]) && r.size <= 0xFF7F_FFFC
    ensures var (block, _) := Serve(vm.brk, r);
      block != 0 && block <= a < block + r.size ==> Translate(vm.spaces[d], a) == a
  {
    IdentityTranslates(vm.spaces[d]);
    ServeStep(vm.brk, r);
  }

  /**
   The allocator's assumption that virtual and physical addresses agree: after any run that spares the low
   8 MB of the kernel directory, every byte of every block the heap hands out translates to itself there.
   */
  lemma HeapBlocksAreIdentity(vm: Vm, ops: seq<VmOp>, d: u32, r: Request, a: u32)
    requires Valid(vm) && Runs(vm, ops) && d in vm.spaces && SparesLow(vm, ops, d)
    requires IdentityBelow8M(vm.spaces[d]) && r.size <= 0xFF7F_FFFC
    ensures var end := Final(vm, ops);
      && d in end.spaces
      && var (block, _) := Serve(end.brk, r);
        (block != 0 && block <= a < block + r.size ==> Translate(end.spaces[d], a) == a)
  {
    IdentityStays(vm, ops, d);
    BlockIsIdentity(Final(vm, ops), d, r, a);
  }
}
