/** The kernel's bump heap: kmalloc and its variants, as functions and as the static variable they update. */
module Heap {
  import opened Words

  const HEAP_START: u32 := 0x300000
  const HEAP_END: u32 := 0x800000

  /** (size + 3) & ~3 on 32 bits. */
  function RoundUp4(size: u32): u32 {
    Add32(size, 3) / 4 * 4
  }

  /** (current + 0xFFF) & ~0xFFF on 32 bits. */
  function RoundUpPage(current: u32): u32 {
    Add32(current, 0xFFF) / 4096 * 4096
  }

  /** kmalloc from the given break: the address returned and the new break. */
  function Alloc(current: u32, size: u32): (u32, u32) {
    var s := RoundUp4(size);
    if Add32(current, s) >= HEAP_END then (0, current) else (current, Add32(current, s))
  }

  /** kmalloc_a: the break is aligned first, and stays aligned even when the request fails. */
  function AllocA(current: u32, size: u32): (u32, u32) {
    Alloc(RoundUpPage(current), size)
  }

  class BumpHeap {
    var current: u32

    constructor ()
      ensures current == 0x30_0000
    {
      current := HEAP_START;
    }

    method Kmalloc(size: u32) returns (addr: u32)
      modifies this
      ensures (addr, current) == Alloc(old(current), size)
    {
      var rounded := RoundUp4(size);
      if Add32(current, rounded) >= HEAP_END {
        return 0;
      }
      addr := current;
      current := Add32(current, rounded);
    }

    method KmallocA(size: u32) returns (addr: u32)
      modifies this
      ensures (addr, current) == AllocA(old(current), size)
    {
      current := RoundUpPage(current);
      addr := Kmalloc(size);
    }

    /** The physical address, stored through the pointer the caller passes, is the address itself. */
    method KmallocP(size: u32) returns (addr: u32, physAddr: u32)
      modifies this
      ensures (addr, current) == Alloc(old(current), size) && physAddr == addr
    {
      addr := Kmalloc(size);
      physAddr := addr;
    }

    method KmallocAp(size: u32) returns (addr: u32, physAddr: u32)
      modifies this
      ensures (addr, current) == AllocA(old(current), size) && physAddr == addr
    {
      addr := KmallocA(size);
      physAddr := addr;
    }
  }

  // ----- one request

  /** Every break the allocator reaches from HEAP_START with requests it can serve. */
  predicate Break(current: u32) {
    HEAP_START <= current <= HEAP_END && current % 4 == 0
  }

  /** A request is served properly: it fails and leaves the break, or the block lies between the two breaks. */
  predicate Sound(current: u32, size: u32) {
    var (addr, next) := Alloc(current, size);
    || (addr == 0 && next == current)
    || (addr == current && addr + size <= next < HEAP_END && next % 4 == 0)
  }

  /**
   A request is served properly exactly when break plus rounded size stay below 2^32, or when the rounded
   size wraps to 0 with no heap left.
   */
  lemma SoundExactly(current: u32, size: u32)
    requires Break(current)
    ensures Sound(current, size) <==>
      (current + (size + 3) / 4 * 4 < WORD || (size > WORD - 4 && current == HEAP_END))
  {
  }

  /** The largest size that is safe whatever the break: one more 4-byte step and some break goes wrong. */
  lemma SafeSize(size: u32)
    ensures size <= 0xFF7F_FFFC <==> forall current: u32 :: Break(current) ==> Sound(current, size)
  {
    if size <= 0xFF7F_FFFC {
      forall current: u32 | Break(current)
        ensures Sound(current, size)
      {
        SoundExactly(current, size);
      }
    } else {
      SoundExactly(0x7F_FFFC, size);
      SoundExactly(HEAP_END, size);
    }
  }

  /** The failure: a request for 4 GB minus one byte succeeds, and so does the next one, at the same address. */
  lemma HugeRequestOverlaps()
    ensures Alloc(HEAP_START, 0xFFFF_FFFF) == (HEAP_START, HEAP_START)
    ensures Alloc(HEAP_START, 0xFFFF_FFF0).1 < HEAP_START
  {
  }

  // ----- runs

  datatype Kind = Plain | Aligned | Physical | AlignedPhysical

  datatype Request = Request(kind: Kind, size: u32)

  function Serve(current: u32, r: Request): (u32, u32) {
    if r.kind.Aligned? || r.kind.AlignedPhysical? then AllocA(current, r.size) else Alloc(current, r.size)
  }

  /** The break after serving all requests. */
  function BreakAfter(current: u32, reqs: seq<Request>): u32
    decreases |reqs|
  {
    if reqs == [] then current else BreakAfter(Serve(current, reqs[0]).1, reqs[1..])
  }

  /** The addresses returned, 0 for a request that failed. */
  function Addresses(current: u32, reqs: seq<Request>): (a: seq<u32>)
    ensures |a| == |reqs|
    decreases |reqs|
  {
    if reqs == [] then [] else [Serve(current, reqs[0]).0] + Addresses(Serve(current, reqs[0]).1, reqs[1..])
  }

  ghost predicate SafeSizes(reqs: seq<Request>) {
    forall i :: 0 <= i < |reqs| ==> reqs[i].size <= 0xFF7F_FFFC
  }

  lemma PageAligned(current: u32)
    requires Break(current)
    ensures var c := RoundUpPage(current); c % 4096 == 0 && Break(c) && current <= c < current + 4096
  {
    assert Add32(current, 0xFFF) == current + 0xFFF;
    PageMultiple((current + 0xFFF) / 4096);
    PageMultiple(HEAP_END / 4096);
  }

  lemma NextPage(current: u32)
    requires current <= HEAP_END
    ensures RoundUpPage(current) == (current + 4095) / 4096 * 4096
  {
  }

  lemma NoWrap(x: u32, y: u32)
    ensures x + y < WORD ==> Add32(x, y) == x + y
  {
  }

  /** Without wrap-around: rounded up to a multiple of 4, and refused where the block would reach the heap's end. */
  lemma AllocExactly(current: u32, size: u32)
    requires current <= HEAP_END && size <= 0xFF7F_FFFC
    ensures var length := (size + 3) / 4 * 4;
      && length % 4 == 0 && size <= length < size + 4
      && Alloc(current, size) == if current + length >= HEAP_END then (0, current) else (current, current + length)
  {
    hide Add32;
    NoWrap(size, 3);
    NoWrap(current, RoundUp4(size));
    MultipleOf4((size + 3) / 4);
  }

  lemma AllocFits(current: u32, size: u32)
    requires Break(current) && current + size + 4 < HEAP_END
    ensures var (addr, next) := Alloc(current, size);
      addr == current && Break(next) && addr + size <= next < current + size + 4
  {
    hide Alloc;
    AllocExactly(current, size);
  }

  /** A request with enough heap left succeeds, and moves the break by at most a page more than its size. */
  lemma EnoughHeap(current: u32, r: Request)
    requires Break(current) && current + r.size + 4100 < HEAP_END
    ensures var (addr, next) := Serve(current, r);
      && addr != 0 && current <= addr && addr % 4 == 0 && Break(next)
      && addr + r.size <= next < current + r.size + 4100
  {
    PageAligned(current);
    AllocFits(current, r.size);
    AllocFits(RoundUpPage(current), r.size);
  }

  /**
   Sizes that cannot wrap are served as by unbounded arithmetic: the block starts at the break, or at the next page
   boundary, and its length is a multiple of 4. Without room below 8 MB there is none, and the break stays aligned.
   */
  lemma ServedExactly(current: u32, r: Request)
    requires 0x30_0000 <= current <= 0x80_0000 && current % 4 == 0 && r.size <= 0xFF7F_FFFC
    ensures var start := if r.kind.Aligned? || r.kind.AlignedPhysical? then (current + 4095) / 4096 * 4096 else current;
      var end := start + (r.size + 3) / 4 * 4;
      && Serve(current, r).0 == (if end < 0x80_0000 then start else 0)
      && Serve(current, r).1 == (if end < 0x80_0000 then end else start)
  {
    hide Alloc, RoundUpPage;
    PageAligned(current);
    NextPage(current);
    AllocExactly(current, r.size);
    AllocExactly(RoundUpPage(current), r.size);
  }

  lemma ServeStep(current: u32, r: Request)
    requires Break(current) && r.size <= 0xFF7F_FFFC
    ensures var (addr, next) := Serve(current, r);
      && Break(next) && current <= next
      && (addr != 0 ==> current <= addr && addr + r.size <= next < HEAP_END && addr % 4 == 0)
      && (addr != 0 && (r.kind.Aligned? || r.kind.AlignedPhysical?) ==> addr % 4096 == 0)
  {
    PageAligned(current);
    SoundExactly(current, r.size);
    SoundExactly(RoundUpPage(current), r.size);
  }

  /** Where the blocks of a run lie: one after the other, between the first and the last break. */
  lemma {:induction false} BlocksInOrder(current: u32, reqs: seq<Request>)
    requires Break(current) && SafeSizes(reqs)
    ensures Break(BreakAfter(current, reqs)) && current <= BreakAfter(current, reqs)
    ensures var a := Addresses(current, reqs);
      forall i :: 0 <= i < |a| && a[i] != 0 ==>
        current <= a[i] && a[i] + reqs[i].size <= BreakAfter(current, reqs) && a[i] + reqs[i].size < HEAP_END
    ensures var a := Addresses(current, reqs);
      forall i, j :: 0 <= i < j < |a| && a[i] != 0 && a[j] != 0 ==> a[i] + reqs[i].size <= a[j]
    ensures var a := Addresses(current, reqs);
      forall i :: 0 <= i < |a| && a[i] != 0 ==>
        a[i] % 4 == 0 && (reqs[i].kind.Aligned? || reqs[i].kind.AlignedPhysical? ==> a[i] % 4096 == 0)
    decreases |reqs|
  {
    if reqs != [] {
      ServeStep(current, reqs[0]);
      var next := Serve(current, reqs[0]).1;
      BlocksInOrder(next, reqs[1..]);
      var a, b := Addresses(current, reqs), Addresses(next, reqs[1..]);
      assert forall i :: 0 < i < |a| ==> a[i] == b[i - 1] && reqs[i] == reqs[1..][i - 1];
    }
  }

  ghost predicate Disjoint(a: int, n: int, b: int, m: int) {
    a + n <= b || b + m <= a
  }

  /**
   Any run of the four allocation functions with safe sizes: successful blocks are pairwise disjoint, lie
   inside the heap and are aligned, and the break never moves down nor past the end of the heap.
   */
  lemma AllocatorRun(reqs: seq<Request>, i: nat, j: nat)
    requires SafeSizes(reqs) && i < |reqs| && j < |reqs| && i != j
    ensures var a := Addresses(HEAP_START, reqs);
      && (a[i] != 0 ==> HEAP_START <= a[i] && a[i] + reqs[i].size < HEAP_END && a[i] % 4 == 0)
      && (a[i] != 0 && (reqs[i].kind.Aligned? || reqs[i].kind.AlignedPhysical?) ==> a[i] % 4096 == 0)
      && (a[i] != 0 && a[j] != 0 ==> Disjoint(a[i], reqs[i].size, a[j], reqs[j].size))
    ensures BreakAfter(HEAP_START, reqs[..i]) <= BreakAfter(HEAP_START, reqs) <= HEAP_END
  {
    BlocksInOrder(HEAP_START, reqs);
    BreakAfterConcat(HEAP_START, reqs[..i], reqs[i..]);
    assert reqs == reqs[..i] + reqs[i..];
    BlocksInOrder(HEAP_START, reqs[..i]);
    BlocksInOrder(BreakAfter(HEAP_START, reqs[..i]), reqs[i..]);
  }

  lemma {:induction false} BreakAfterConcat(current: u32, p: seq<Request>, q: seq<Request>)
    ensures BreakAfter(current, p + q) == BreakAfter(BreakAfter(current, p), q)
    decreases |p|
  {
    if p == [] {
      assert p + q == q;
    } else {
      assert (p + q)[1..] == p[1..] + q;
      BreakAfterConcat(Serve(current, p[0]).1, p[1..], q);
    }
  }
}
