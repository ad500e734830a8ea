/** Runs of the frame allocator: which frames are handed out, and when two pages can share one. */
module FrameRuns {
  import opened Words
  import Products
  import opened PageTables
  import opened VirtualMemory

  ghost predicate Frames(used: set<nat>) {
    forall f :: f in used ==> f < NFRAMES
  }

  ghost function Below(n: nat): (s: set<nat>)
    ensures forall f: nat :: f in s <==> f < n
    ensures |s| == n
  {
    if n == 0 then {} else Below(n - 1) + {n - 1}
  }

  lemma SizeBound(used: set<nat>, n: nat)
    requires forall f :: f in used ==> f < n
    ensures |used| <= n
    ensures |used| == n <==> forall f: nat :: f < n ==> f in used
  {
    var all := Below(n);
    SubsetSize(used, all);
    if g: nat :| g < n && g !in used {
      SubsetSize(used, all - {g});
    } else {
      assert used == all;
    }
  }

  /** Every frame is used exactly when the set has 4096 members. */
  lemma FullExactly(used: set<nat>)
    requires Frames(used)
    ensures |used| <= NFRAMES
    ensures LeastFree(used, 0) == NFRAMES <==> |used| == NFRAMES
  {
    SizeBound(used, NFRAMES);
  }

  lemma {:induction false} SubsetSize(a: set<nat>, b: set<nat>)
    requires a <= b
    ensures |a| <= |b|
  {
    if a != {} {
      var x :| x in a;
      SubsetSize(a - {x}, b - {x});
    }
  }

  /** The frame number of the page alloc_frame maps; 0xFFFFF once the frames have run out. */
  function NextFrame(used: set<nat>): (f: nat) {
    FrameAddress(used) / 4096
  }

  function UsedAfter(used: set<nat>): set<nat> {
    if NextFrame(used) < NFRAMES then used + {NextFrame(used)} else used
  }

  /** The sentinel test never fires: the address compared with -1 is a multiple of 4096. */
  lemma SentinelNeverFires(used: set<nat>)
    requires Frames(used)
    ensures FrameAddress(used) != WORD - 1
    ensures |used| < NFRAMES ==>
      && NextFrame(used) == LeastFree(used, 0) < NFRAMES && NextFrame(used) !in used
      && FrameAddress(used) == NextFrame(used) * 4096 && |UsedAfter(used)| == |used| + 1
    ensures |used| == NFRAMES ==>
      && FrameAddress(used) == 0xFFFF_F000 && NextFrame(used) == 0xF_FFFF && UsedAfter(used) == used
  {
    FullExactly(used);
    var f := LeastFree(used, 0);
    if f < NFRAMES {
      assert FrameAddress(used) == 4096 * f;
      PageMultiple(f);
    }
  }

  /** The frames handed out by n calls of alloc_frame. */
  function HandedOut(used: set<nat>, n: nat): (r: seq<nat>)
    ensures |r| == n
    decreases n
  {
    if n == 0 then [] else [NextFrame(used)] + HandedOut(UsedAfter(used), n - 1)
  }

  ghost predicate Distinct(s: seq<nat>) {
    forall i, j :: 0 <= i < j < |s| ==> s[i] != s[j]
  }

  lemma {:induction false} NewFramesAreFree(used: set<nat>, n: nat, i: nat)
    requires Frames(used) && i < n
    ensures HandedOut(used, n)[i] !in used
    decreases n
  {
    SentinelNeverFires(used);
    FullExactly(used);
    if i > 0 {
      NewFramesAreFree(UsedAfter(used), n - 1, i - 1);
    }
  }

  /**
   Frames handed out in a run of alloc_frame calls without clear_frame are pairwise distinct exactly while
   there is at most one call more than there are free frames: the failing test lets the first excess call
   hand out frame 0xFFFFF and all later ones hand it out again.
   */
  lemma {:induction false} DistinctFrames(used: set<nat>, n: nat)
    requires Frames(used)
    ensures |used| <= NFRAMES
    ensures Distinct(HandedOut(used, n)) <==> n <= NFRAMES - |used| + 1
    decreases n
  {
    SentinelNeverFires(used);
    FullExactly(used);
    var r := HandedOut(used, n);
    if n >= 1 {
      var rest := HandedOut(UsedAfter(used), n - 1);
      assert r[1..] == rest;
      if |used| < NFRAMES {
        DistinctFrames(UsedAfter(used), n - 1);
        forall j | 0 <= j < n - 1
          ensures rest[j] != r[0]
        {
          NewFramesAreFree(UsedAfter(used), n - 1, j);
        }
        if Distinct(rest) {
          assert Distinct(r);
        } else {
          var i, j :| 0 <= i < j < |rest| && rest[i] == rest[j];
          assert r[i + 1] == r[j + 1];
        }
      } else if n >= 2 {
        assert r[1] == NextFrame(UsedAfter(used));
      }
    }
  }

  // ----- the frames of mixed runs

  ghost predicate NoClear(ops: seq<VmOp>) {
    forall i :: 0 <= i < |ops| ==> !ops[i].ClearOp?
  }

  /** The frames handed out by the calls of alloc_frame in a run, whatever else the run does. */
  ghost function HandedOutIn(vm: Vm, ops: seq<VmOp>): seq<nat>
    requires Valid(vm) && Runs(vm, ops)
    decreases |ops|
  {
    if ops == [] then []
    else
      StepKeepsValid(vm, ops[0]);
      (if ops[0].AllocOp? then [NextFrame(vm.used)] else []) + HandedOutIn(Apply(vm, ops[0]), ops[1..])
  }

  /** How many of these calls find every frame used. */
  ghost function Unserved(vm: Vm, ops: seq<VmOp>): nat
    requires Valid(vm) && Runs(vm, ops)
    decreases |ops|
  {
    if ops == [] then 0
    else
      StepKeepsValid(vm, ops[0]);
      (if ops[0].AllocOp? && |vm.used| == NFRAMES then 1 else 0) + Unserved(Apply(vm, ops[0]), ops[1..])
  }

  /** Without clear_frame the used frames only grow, and alloc_frame adds the one it hands out. */
  lemma StepUses(vm: Vm, op: VmOp)
    requires Valid(vm) && Enabled(vm, op) && !op.ClearOp?
    ensures vm.used <= Apply(vm, op).used
    ensures op.AllocOp? ==> Apply(vm, op).used == UsedAfter(vm.used)
    ensures |vm.used| == NFRAMES ==> Apply(vm, op).used == vm.used
  {
    StepKeepsValid(vm, op);
    SubsetSize(vm.used, Apply(vm, op).used);
    FullExactly(Apply(vm, op).used);
    if |vm.used| == NFRAMES {
      SizeBound(vm.used, NFRAMES);
    }
  }

  /** No frame handed out in the run was used when it began. */
  lemma {:induction false} MixedFramesAreFree(vm: Vm, ops: seq<VmOp>, i: nat)
    requires Valid(vm) && Runs(vm, ops) && NoClear(ops) && i < |HandedOutIn(vm, ops)|
    ensures HandedOutIn(vm, ops)[i] !in vm.used
    decreases |ops|
  {
    hide Apply, Enabled, NextFrame, UsedAfter;
    StepKeepsValid(vm, ops[0]);
    StepUses(vm, ops[0]);
    SentinelNeverFires(vm.used);
    FullExactly(vm.used);
    if !ops[0].AllocOp? {
      assert HandedOutIn(vm, ops) == HandedOutIn(Apply(vm, ops[0]), ops[1..]);
      MixedFramesAreFree(Apply(vm, ops[0]), ops[1..], i);
    } else if i > 0 {
      MixedFramesAreFree(Apply(vm, ops[0]), ops[1..], i - 1);
    }
  }

  /** With every frame used, each call hands out frame 0xFFFFF. */
  lemma {:induction false} FullRun(vm: Vm, ops: seq<VmOp>)
    requires Valid(vm) && Runs(vm, ops) && NoClear(ops) && |vm.used| == NFRAMES
    ensures Unserved(vm, ops) == |HandedOutIn(vm, ops)|
    ensures forall i :: 0 <= i < |HandedOutIn(vm, ops)| ==> HandedOutIn(vm, ops)[i] == 0xF_FFFF
    decreases |ops|
  {
    hide Apply, Enabled, NextFrame, UsedAfter;
    if ops != [] {
      StepKeepsValid(vm, ops[0]);
      StepUses(vm, ops[0]);
      SentinelNeverFires(vm.used);
      FullRun(Apply(vm, ops[0]), ops[1..]);
    }
  }

  /**
   Over any run without clear_frame, with pages mapped, unmapped and remapped, frames set, directories created and
   switched in between, the frames handed out are pairwise distinct exactly while at most one call finds every frame
   used.
   */
  lemma {:induction false} MixedFramesDistinct(vm: Vm, ops: seq<VmOp>)
    requires Valid(vm) && Runs(vm, ops) && NoClear(ops)
    ensures Distinct(HandedOutIn(vm, ops)) <==> Unserved(vm, ops) <= 1
    decreases |ops|
  {
    hide Apply, Enabled, NextFrame, UsedAfter;
    if ops != [] {
      StepKeepsValid(vm, ops[0]);
      StepUses(vm, ops[0]);
      SentinelNeverFires(vm.used);
      FullExactly(vm.used);
      var next, f := Apply(vm, ops[0]), NextFrame(vm.used);
      var rest := HandedOutIn(next, ops[1..]);
      MixedFramesDistinct(next, ops[1..]);
      if !ops[0].AllocOp? {
        assert HandedOutIn(vm, ops) == rest;
      } else if |vm.used| == NFRAMES {
        FullRun(next, ops[1..]);
        assert |rest| > 0 ==> rest[0] == f;
        DistinctFront(f, rest);
      } else {
        TakenIsUsed(vm.used);
        forall j | 0 <= j < |rest| ensures rest[j] != f {
          MixedFramesAreFree(next, ops[1..], j);
        }
        DistinctFront(f, rest);
      }
    }
  }

  lemma TakenIsUsed(used: set<nat>)
    requires Frames(used) && |used| < NFRAMES
    ensures NextFrame(used) in UsedAfter(used)
  {
    hide NextFrame;
    SentinelNeverFires(used);
  }

  lemma DistinctFront(f: nat, rest: seq<nat>)
    ensures Distinct([f] + rest) <==> Distinct(rest) && f !in rest
  {
    var r := [f] + rest;
    assert r[1..] == rest;
    if Distinct(r) {
      forall i, j | 0 <= i < j < |rest| ensures rest[i] != rest[j] {
        assert r[i + 1] != r[j + 1];
      }
      forall j | 0 <= j < |rest| ensures rest[j] != f {
        assert r[0] != r[j + 1];
      }
    }
  }

  // ----- no two pages mapped by alloc_frame share a frame

  /** The pages of each directory that alloc_frame mapped and nothing has remapped since, with their frames. */
  type Record = map<(u32, nat), nat>

  ghost function Track(vm: Vm, rec: Record, op: VmOp): Record
    requires Valid(vm)
  {
    match op
    case AllocOp(va, _, _) =>
      if Mapped(vm, va) then rec[(vm.current, PageOf(va)) := NextFrame(vm.used)] else rec
    case MapOp(va, _, _) => rec - {(vm.current, PageOf(va))}
    case UnmapOp(va) => rec - {(vm.current, PageOf(va))}
    case _ => rec
  }

  /** Recorded pages are mapped to their frames, the frames are used, and no two pages have the same one. */
  ghost predicate AliasFree(vm: Vm, rec: Record)
    requires Valid(vm)
  {
    && (forall k :: k in rec ==>
          k.0 in vm.spaces && k.1 < PAGES && vm.spaces[k.0][k.1] / 4096 == rec[k] && rec[k] in vm.used)
    && (forall k, l :: k in rec && l in rec && k != l ==> rec[k] != rec[l])
  }

  ghost predicate NeverClears(vm: Vm, ops: seq<VmOp>)
    requires Valid(vm) && Runs(vm, ops)
    decreases |ops|
  {
    ops != [] ==>
      && !ops[0].ClearOp?
      && (ops[0].AllocOp? ==> |vm.used| < NFRAMES)
      && (StepKeepsValid(vm, ops[0]); NeverClears(Apply(vm, ops[0]), ops[1..]))
  }

  ghost function TrackAll(vm: Vm, rec: Record, ops: seq<VmOp>): Record
    requires Valid(vm) && Runs(vm, ops)
    decreases |ops|
  {
    if ops == [] then rec
    else (StepKeepsValid(vm, ops[0]); TrackAll(Apply(vm, ops[0]), Track(vm, rec, ops[0]), ops[1..]))
  }

  lemma StepAliasFree(vm: Vm, rec: Record, op: VmOp)
    requires Valid(vm) && Enabled(vm, op) && AliasFree(vm, rec)
    requires !op.ClearOp? && (op.AllocOp? ==> |vm.used| < NFRAMES)
    ensures Valid(Apply(vm, op)) && AliasFree(Apply(vm, op), Track(vm, rec, op))
  {
    StepKeepsValid(vm, op);
    var r := Apply(vm, op);
    match op
    case AllocOp(va, isKernel, isWritable) => AllocAliasFree(vm, rec, va, isKernel, isWritable);
    case MapOp(va, pa, flags) =>
      MapAt(vm, va, pa, flags);
      OthersSame(vm, r, rec, rec - {(vm.current, PageOf(va))}, vm.current, PageOf(va));
    case UnmapOp(va) => OthersSame(vm, r, rec, rec - {(vm.current, PageOf(va))}, vm.current, PageOf(va));
    case NewOp => NewKeepsValid(vm);
    case _ =>
  }

  /** Recorded pages other than p of directory d are untouched from vm to r. */
  lemma OthersSame(vm: Vm, r: Vm, rec: Record, left: Record, d: u32, p: nat)
    requires Valid(vm) && Valid(r) && AliasFree(vm, rec)
    requires vm.spaces.Keys <= r.spaces.Keys && vm.used <= r.used
    requires forall e, q :: e in vm.spaces && 0 <= q < PAGES && (e, q) != (d, p) ==> r.spaces[e][q] == vm.spaces[e][q]
    requires left == rec - {(d, p)}
    ensures AliasFree(r, left)
  {
  }

  /** The effect of map_page, entry by entry. */
  lemma MapAt(vm: Vm, va: u32, pa: u32, flags: u32)
    requires Valid(vm)
    ensures var r := Map(vm, va, pa, flags);
      && r.spaces.Keys == vm.spaces.Keys && r.used == vm.used
      && forall d, p :: d in vm.spaces && 0 <= p < PAGES ==>
        && |r.spaces[d]| == PAGES
        && r.spaces[d][p] ==
          if d == vm.current && p == PageOf(va) && Mapped(vm, va) then MakeEntry(pa, flags) else vm.spaces[d][p]
  {
  }

  lemma AllocAliasFree(vm: Vm, rec: Record, va: u32, isKernel: bool, isWritable: bool)
    requires Valid(vm) && AliasFree(vm, rec) && |vm.used| < NFRAMES
    ensures Valid(AllocFrame(vm, va, isKernel, isWritable))
    ensures AliasFree(AllocFrame(vm, va, isKernel, isWritable), Track(vm, rec, AllocOp(va, isKernel, isWritable)))
  {
    AllocKeepsValid(vm, va, isKernel, isWritable);
    AllocAt(vm, va, isKernel, isWritable);
    var d, p, f := vm.current, PageOf(va), NextFrame(vm.used);
    RecordNew(vm, AllocFrame(vm, va, isKernel, isWritable), rec, d, p, f, Mapped(vm, va));
  }

  /** A page mapped to a frame that was free joins the record. */
  lemma RecordNew(vm: Vm, r: Vm, rec: Record, d: u32, p: nat, f: nat, mapped: bool)
    requires Valid(vm) && Valid(r) && AliasFree(vm, rec) && d in vm.spaces && p < PAGES
    requires r.spaces.Keys == vm.spaces.Keys && f !in vm.used && r.used == vm.used + {f}
    requires forall e, q :: e in vm.spaces && 0 <= q < PAGES && !(e == d && q == p && mapped) ==>
      r.spaces[e][q] == vm.spaces[e][q]
    requires mapped ==> r.spaces[d][p] / 4096 == f
    ensures AliasFree(r, if mapped then rec[(d, p) := f] else rec)
  {
  }

  /** The effect of alloc_frame while a free frame is left. */
  lemma AllocAt(vm: Vm, va: u32, isKernel: bool, isWritable: bool)
    requires Valid(vm) && |vm.used| < NFRAMES
    ensures var r, f := AllocFrame(vm, va, isKernel, isWritable), NextFrame(vm.used);
      && r.spaces.Keys == vm.spaces.Keys && f !in vm.used && r.used == vm.used + {f}
      && (forall d, p :: d in vm.spaces && 0 <= p < PAGES ==>
        && |r.spaces[d]| == PAGES
        && (!(d == vm.current && p == PageOf(va) && Mapped(vm, va)) ==> r.spaces[d][p] == vm.spaces[d][p]))
      && (Mapped(vm, va) ==>
        var e := r.spaces[vm.current][PageOf(va)];
        e == f * 4096 + FrameFlags(isKernel, isWritable) && e / 4096 == f)
  {
    SentinelNeverFires(vm.used);
    var pa, flags := FrameAddress(vm.used), FrameFlags(isKernel, isWritable);
    EntryParts(pa, flags);
    PageMultiple(NextFrame(vm.used));
    MapAt(SetFrame(vm, pa), va, pa, flags);
  }

  /** The permissions of the new page: present, writable as asked, and open to user code unless it is a kernel page. */
  lemma AllocPermissions(vm: Vm, va: u32, isKernel: bool, isWritable: bool)
    requires Valid(vm) && |vm.used| < NFRAMES && Mapped(vm, va)
    ensures vm.current in AllocFrame(vm, va, isKernel, isWritable).spaces
    ensures |AllocFrame(vm, va, isKernel, isWritable).spaces[vm.current]| == PAGES
    ensures var low := AllocFrame(vm, va, isKernel, isWritable).spaces[vm.current][va / 4096] % 4096;
      && low % 2 == 1 && (low / 2 % 2 == 1 <==> isWritable) && (low / 4 % 2 == 1 <==> !isKernel) && low < 8
  {
    hide AllocFrame;
    AllocAt(vm, va, isKernel, isWritable);
    Products.Remainder(4096, NextFrame(vm.used), FrameFlags(isKernel, isWritable));
  }

  /** A frame is used after set_frame, and no longer after clear_frame; beyond 16 MB both do nothing. */
  lemma SetThenClear(vm: Vm, addr: u32, f: nat)
    requires Valid(vm)
    ensures f in SetFrame(vm, addr).used <==> f in vm.used || (addr < 0x100_0000 && f == addr / 4096)
    ensures ClearFrame(SetFrame(vm, addr), addr).used == if addr < 0x100_0000 then vm.used - {addr / 4096} else vm.used
  {
  }

  /**
   While free frames remain and none is cleared, distinct virtual pages mapped by alloc_frame never share a
   frame, across all address spaces, whatever else is mapped, unmapped, created or switched meanwhile.
   */
  lemma {:induction false} RunAliasFree(vm: Vm, rec: Record, ops: seq<VmOp>)
    requires Valid(vm) && Runs(vm, ops) && NeverClears(vm, ops) && AliasFree(vm, rec)
    ensures AliasFree(Final(vm, ops), TrackAll(vm, rec, ops))
    decreases |ops|
  {
    if ops != [] {
      StepKeepsValid(vm, ops[0]);
      StepAliasFree(vm, rec, ops[0]);
      RunAliasFree(Apply(vm, ops[0]), Track(vm, rec, ops[0]), ops[1..]);
    }
  }
}
