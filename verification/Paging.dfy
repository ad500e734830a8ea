/** Paging as the kernel runs it: directories, tables and the frame bitmap in one flat memory of words. */
module Paging {
  import opened Words
  import opened Bits
  import opened Heap
  import opened PageTables
  import Products
  import opened VirtualMemory
  import opened FrameRuns
  import opened Hardware

  /** The indices of the tables a directory has. */
  ghost function TablesOf(m: seq<u32>, d: u32): set<nat>
    requires IsMemory(m) && InRam(d)
  {
    set i: nat | i < ENTRIES && TableAt(m, d, i) != 0
  }

  /** The word of the bitmap that holds frame f. */
  function BitmapWord(m: seq<u32>, bitmap: u32, f: nat): u32
    requires IsMemory(m) && InRam(bitmap) && f < NFRAMES
  {
    m[bitmap / 4 + f / 32]
  }

  ghost function UsedFrames(m: seq<u32>, bitmap: u32): set<nat>
    requires IsMemory(m) && InRam(bitmap)
  {
    set f: nat | f < NFRAMES && Bit(BitmapWord(m, bitmap, f), f % 32)
  }

  ghost function ViewOf(m: seq<u32>, dirs: set<u32>, bitmap: u32, current: u32, brk: u32): Vm
    requires IsMemory(m) && InRam(bitmap) && forall d :: d in dirs ==> InRam(d)
  {
    Vm(map d | d in dirs :: Space(m, d), map d | d in dirs :: TablesOf(m, d), current, UsedFrames(m, bitmap), brk)
  }

  /** Writes outside the bitmap leave the set of used frames. */
  lemma SameBitmap(m: seq<u32>, n: seq<u32>, bitmap: u32)
    requires IsMemory(m) && IsMemory(n) && InRam(bitmap)
    requires forall w :: bitmap / 4 <= w < bitmap / 4 + BITMAP_WORDS ==> n[w] == m[w]
    ensures UsedFrames(n, bitmap) == UsedFrames(m, bitmap)
  {
  }

  lemma ViewIsValid(m: seq<u32>, owner: seq<Owner>, dirs: set<u32>, bitmap: u32, current: u32, brk: u32)
    requires Layout(m, owner, dirs, bitmap, brk) && current in dirs
    ensures VirtualMemory.Valid(ViewOf(m, dirs, bitmap, current, brk))
  {
  }

  /** The view has the tables that the directory points to. */
  lemma TablesInView(m: seq<u32>, owner: seq<Owner>, dirs: set<u32>, bitmap: u32, brk: u32, d: u32, i: nat)
    requires Layout(m, owner, dirs, bitmap, brk) && d in dirs && i < ENTRIES
    ensures InRam(bitmap) && forall c :: c in dirs ==> InRam(c)
    ensures var v := ViewOf(m, dirs, bitmap, d, brk);
      d == v.current && d in v.tables && (i in v.tables[d] <==> TableAt(m, d, i) != 0)
  {
  }

  lemma FramesInView(m: seq<u32>, owner: seq<Owner>, dirs: set<u32>, bitmap: u32, current: u32, brk: u32)
    requires Layout(m, owner, dirs, bitmap, brk)
    ensures InRam(bitmap) && forall c :: c in dirs ==> InRam(c)
    ensures ViewOf(m, dirs, bitmap, current, brk).used == UsedFrames(m, bitmap)
    ensures Frames(UsedFrames(m, bitmap))
    ensures forall f :: f in UsedFrames(m, bitmap) ==> f < NFRAMES
    ensures (forall f: nat :: f < NFRAMES ==> f in UsedFrames(m, bitmap)) <==> |UsedFrames(m, bitmap)| == NFRAMES
  {
    SizeBound(UsedFrames(m, bitmap), NFRAMES);
  }

  // ----- how each kind of write changes the view

  /** Writes to words that the walk and the bitmap do not use, and a higher break. */
  lemma ViewElsewhere(m: seq<u32>, n: seq<u32>, owner: seq<Owner>, dirs: set<u32>, bitmap: u32, current: u32,
                      brk: u32, next: u32)
    requires Layout(m, owner, dirs, bitmap, brk) && IsMemory(n) && brk <= next && Break(next)
    requires SameTables(m, n, owner)
    requires forall w :: 0 <= w < RAM_WORDS && owner[w].Bitmap? ==> n[w] == m[w]
    ensures Layout(n, owner, dirs, bitmap, next)
    ensures ViewOf(n, dirs, bitmap, current, next) == ViewOf(m, dirs, bitmap, current, brk).(brk := next)
  {
    WriteElsewhere(m, n, owner, dirs, bitmap, brk);
    SameBitmap(m, n, bitmap);
    SameTablesOf(m, n, dirs);
  }

  lemma SameTablesOf(m: seq<u32>, n: seq<u32>, dirs: set<u32>)
    requires IsMemory(m) && IsMemory(n) && forall d :: d in dirs ==> InRam(d)
    requires forall d, i :: d in dirs && 0 <= i < ENTRIES ==> TableAt(n, d, i) == TableAt(m, d, i)
    ensures forall d :: d in dirs ==> TablesOf(n, d) == TablesOf(m, d)
  {
  }

  /** A new directory. */
  lemma ViewAdd(m: seq<u32>, n: seq<u32>, owner: seq<Owner>, dirs: set<u32>, bitmap: u32, current: u32,
                brk: u32, d: u32, next: u32)
    requires Layout(m, owner, dirs, bitmap, brk)
    requires brk <= d && d % 4 == 0 && d + DIR_BYTES <= next && Break(next)
    requires IsMemory(n) && Zero(n, d, DIR_WORDS - 1)
    requires forall w :: 0 <= w < RAM_WORDS && !owner[w].Nobody? ==> n[w] == m[w]
    ensures Layout(n, Give(owner, d, DIR_WORDS, DirectoryOf(d)), dirs + {d}, bitmap, next)
    ensures var v := ViewOf(m, dirs, bitmap, current, brk);
      ViewOf(n, dirs + {d}, bitmap, current, next) ==
      v.(spaces := v.spaces[d := seq(PAGES, p => 0)], tables := v.tables[d := {}], brk := next)
  {
    AddDirectory(m, n, owner, dirs, bitmap, brk, d, next);
    WriteElsewhere(m, n, owner, dirs, bitmap, brk);
    SameBitmap(m, n, bitmap);
    SameTablesOf(m, n, dirs);
    assert TablesOf(n, d) == {};
  }

  /** One entry of an existing table of the current directory. */
  lemma ViewWrite(m: seq<u32>, owner: seq<Owner>, dirs: set<u32>, bitmap: u32, brk: u32, d: u32, p: nat, e: u32)
    requires Layout(m, owner, dirs, bitmap, brk) && d in dirs && p < PAGES
    requires TableAt(m, d, p / ENTRIES) != 0
    ensures var n := m[TableAt(m, d, p / ENTRIES) / 4 + p % ENTRIES := e];
      && Layout(n, owner, dirs, bitmap, brk)
      && var v := ViewOf(m, dirs, bitmap, d, brk);
        ViewOf(n, dirs, bitmap, d, brk) == SetEntry(v, p, e)
  {
    WriteEntry(m, owner, dirs, bitmap, brk, d, p, e);
    var w := TableAt(m, d, p / ENTRIES) / 4 + p % ENTRIES;
    var n := m[w := e];
    assert owner[w] == TableOf(d, p / ENTRIES);
    SameBitmap(m, n, bitmap);
    SameTablesOf(m, n, dirs);
  }

  /** A new table linked into the current directory. */
  lemma ViewLink(m: seq<u32>, n: seq<u32>, owner: seq<Owner>, dirs: set<u32>, bitmap: u32, brk: u32,
                 d: u32, i: nat, t: u32, next: u32)
    requires Layout(m, owner, dirs, bitmap, brk) && d in dirs && i < ENTRIES && TableAt(m, d, i) == 0
    requires brk <= t && t % 4 == 0 && t + TABLE_BYTES <= next && Break(next)
    requires Linked(m, n, owner, d, i, t)
    ensures Layout(n, Give(owner, t, ENTRIES, TableOf(d, i)), dirs, bitmap, next)
    ensures var v := ViewOf(m, dirs, bitmap, d, brk);
      ViewOf(n, dirs, bitmap, d, next) == AddTable(v, i, next)
  {
    hide Layout;
    DirectoryWords(m, owner, dirs, bitmap, brk, d);
    BitmapWords(m, owner, dirs, bitmap, brk);
    DirectoriesInRam(m, owner, dirs, bitmap, brk);
    NobodysWords(m, owner, dirs, bitmap, brk);
    LinkTable(m, n, owner, dirs, bitmap, brk, d, i, t, next);
    assert owner[d / 4 + i] == DirectoryOf(d) && owner[d / 4 + (ENTRIES + i)] == DirectoryOf(d);
    SameBitmap(m, n, bitmap);
    assert TablesOf(n, d) == TablesOf(m, d) + {i};
    SameTablesOf(m, n, dirs - {d});
  }

  /** Setting or clearing one bit of the word of frame f changes the membership of f alone. */
  lemma BitmapWrite(m: seq<u32>, bitmap: u32, f: nat, x: u32, on: bool)
    requires IsMemory(m) && InRam(bitmap) && f < NFRAMES
    requires forall k: nat :: k < 32 ==>
      (Bit(x, k) <==> if k == f % 32 then on else Bit(BitmapWord(m, bitmap, f), k))
    ensures var n := m[bitmap / 4 + f / 32 := x];
      UsedFrames(n, bitmap) == if on then UsedFrames(m, bitmap) + {f} else UsedFrames(m, bitmap) - {f}
  {
  }

  lemma {:induction false} AndPow2(x: nat, j: nat)
    ensures And(x, Pow2(j)) != 0 <==> Bit(x, j)
  {
    if x == 0 {
      BitOfZero(j);
    } else if j > 0 {
      AndPow2(x / 2, j - 1);
    }
  }

  lemma WordOrIsSum(page: nat, offset: nat)
    requires page < PAGES && offset < 4096
    ensures WordOr(page * 4096, offset) == page * 4096 + offset
  {
    Pow2Of32();
    OrIsSum(page, offset, 12);
  }

  /** The directory index and the table index of an address, as the code cuts them out of it. */
  lemma PageIndices(va: u32)
    ensures va / 0x40_0000 == PageOf(va) / ENTRIES < ENTRIES
    ensures va / 4096 % ENTRIES == PageOf(va) % ENTRIES < ENTRIES
  {
  }

  /** A write to the word of frame f in the bitmap. */
  lemma ViewBitmap(m: seq<u32>, owner: seq<Owner>, dirs: set<u32>, bitmap: u32, current: u32, brk: u32,
                   f: nat, x: u32, on: bool)
    requires Layout(m, owner, dirs, bitmap, brk) && f < NFRAMES
    requires forall k: nat :: k < 32 ==>
      (Bit(x, k) <==> if k == f % 32 then on else Bit(BitmapWord(m, bitmap, f), k))
    ensures var n := m[bitmap / 4 + f / 32 := x];
      && Layout(n, owner, dirs, bitmap, brk)
      && var v := ViewOf(m, dirs, bitmap, current, brk);
        ViewOf(n, dirs, bitmap, current, brk) == v.(used := if on then v.used + {f} else v.used - {f})
  {
    var n := m[bitmap / 4 + f / 32 := x];
    assert owner[bitmap / 4 + f / 32] == Bitmap;
    WriteElsewhere(m, n, owner, dirs, bitmap, brk);
    SameTablesOf(m, n, dirs);
    BitmapWrite(m, bitmap, f, x, on);
  }

  lemma MatchBitmap(m: seq<u32>, owner: seq<Owner>, dirs: set<u32>, bitmap: u32, brk: u32, f: nat, x: u32)
    requires Layout(m, owner, dirs, bitmap, brk) && TablesMatch(m, dirs) && f < NFRAMES
    ensures TablesMatch(m[bitmap / 4 + f / 32 := x], dirs)
  {
    assert owner[bitmap / 4 + f / 32] == Bitmap;
    MatchElsewhere(m, m[bitmap / 4 + f / 32 := x], owner, dirs, bitmap, brk);
  }

  /** The bits of frames[idx] | (1 << off). */
  lemma BitsOfSet(x: u32, off: nat, k: nat)
    requires off < 32
    ensures Bit(WordOr(x, Shifted(off)), k) <==> k == off || Bit(x, k)
  {
    BitOfOr(x, Shifted(off), k);
    BitOfPow2(off, k);
  }

  /** ~(1 << off) on 32 bits. */
  function Mask(off: nat): u32
    requires off < 32
  {
    Pow2Of32();
    Not(Shifted(off), 32)
  }

  /** The bits of frames[idx] & ~(1 << off). */
  lemma BitsOfCleared(x: u32, off: nat, k: nat)
    requires off < 32 && k < 32
    ensures Bit(And(x, Mask(off)), k) <==> k != off && Bit(x, k)
  {
    Pow2Of32();
    BitOfAnd(x, Mask(off), k);
    BitOfNot(Shifted(off), 32, k);
    BitOfPow2(off, k);
  }

  /** Frame 32 * i + j is bit j of word i. */
  lemma FrameBit(m: seq<u32>, bitmap: u32, i: nat, j: nat)
    requires IsMemory(m) && InRam(bitmap) && i < BITMAP_WORDS && j < 32
    ensures 32 * i + j in UsedFrames(m, bitmap) <==> Bit(m[bitmap / 4 + i], j)
    ensures And(m[bitmap / 4 + i], Shifted(j)) != 0 <==> Bit(m[bitmap / 4 + i], j)
  {
    assert (32 * i + j) / 32 == i && (32 * i + j) % 32 == j;
    AndPow2(m[bitmap / 4 + i], j);
  }

  ghost predicate WordFull(used: set<nat>, i: nat) {
    forall f: nat :: 32 * i <= f < 32 * i + 32 ==> f in used
  }

  /** Every frame of word i of the bitmap is used exactly when the word is all ones. */
  lemma FullWord(m: seq<u32>, bitmap: u32, i: nat)
    requires IsMemory(m) && InRam(bitmap) && i < BITMAP_WORDS
    ensures m[bitmap / 4 + i] == 0xFFFF_FFFF <==> WordFull(UsedFrames(m, bitmap), i)
  {
    hide UsedFrames, Bit, And, Pow2, Shifted;
    var x := m[bitmap / 4 + i];
    Pow2Of32();
    if x == 0xFFFF_FFFF {
      AllOnes(x, 32);
      forall f: nat | 32 * i <= f < 32 * i + 32
        ensures f in UsedFrames(m, bitmap)
      {
        FrameBit(m, bitmap, i, f - 32 * i);
      }
    } else {
      var k := MissingBit(x, 32);
      FrameBit(m, bitmap, i, k);
    }
  }

  /** 1 << off on 32 bits. */
  function Shifted(off: nat): u32
    requires off < 32
  {
    Pow2Of32();
    Pow2Less(off, 32);
    Pow2(off)
  }

  /** The state before the mapping loop: a zeroed directory and a zeroed bitmap. */
  lemma EmptyMachine(m: seq<u32>, owner: seq<Owner>, d: u32, bitmap: u32, brk: u32)
    requires IsMemory(m) && Break(brk) && HeapBlock(bitmap, BITMAP_BYTES, d) && HeapBlock(d, DIR_BYTES, brk)
    requires Zero(m, d, DIR_WORDS) && Zero(m, bitmap, BITMAP_WORDS)
    requires owner ==
      Give(Give(seq(RAM_WORDS, _ => Nobody), bitmap, BITMAP_WORDS, Bitmap), d, DIR_WORDS, DirectoryOf(d))
    ensures Layout(m, owner, {d}, bitmap, brk)
    ensures Booting(ViewOf(m, {d}, bitmap, d, brk), d, brk, 0)
  {
    forall i | 0 <= i < ENTRIES
      ensures TableAt(m, d, i) == 0
    {
    }
    assert Space(m, d) == Identity(0);
    forall f: nat | f < NFRAMES
      ensures !Bit(BitmapWord(m, bitmap, f), f % 32)
    {
      BitOfZero(f % 32);
    }
    assert UsedFrames(m, bitmap) == {};
    assert TablesOf(m, d) == {};
    var v := ViewOf(m, {d}, bitmap, d, brk);
    assert v.spaces == map[d := Identity(0)] && v.tables == map[d := {}];
  }

  class Pager {
    const heap: BumpHeap
    const ram: array<u32>
    var kernelDirectory: u32
    var currentDirectory: u32
    var frames: u32
    var nframes: u32
    ghost var owner: seq<Owner>
    ghost var dirs: set<u32>

    /** Directories, tables and the bitmap are in order, and the entries for the processor match the tables. */
    ghost predicate Sound()
      reads this, heap, ram
    {
      && ram.Length == RAM_WORDS && nframes == NFRAMES
      && Layout(ram[..], owner, dirs, frames, heap.current) && TablesMatch(ram[..], dirs)
    }

    /** And the current directory is one of them. */
    ghost predicate Valid()
      reads this, heap, ram
    {
      Sound() && currentDirectory in dirs
    }

    ghost function View(): (v: Vm)
      reads this, heap, ram
      requires Valid()
      ensures VirtualMemory.Valid(v) && v.current == currentDirectory && v.spaces.Keys == dirs && v.brk == heap.current
    {
      ViewIsValid(ram[..], owner, dirs, frames, currentDirectory, heap.current);
      ViewOf(ram[..], dirs, frames, currentDirectory, heap.current)
    }

    /**
     Allocated heap words that belong to no directory, no table and not to the bitmap keep their values, and stay
     free.
     */
    twostate predicate SparesUnowned()
      reads this, ram
    {
      && |old(owner)| == |owner| == ram.Length
      && forall w :: 0 <= w < |owner| && HEAP_START / 4 <= w < old(heap.current) / 4 && old(owner)[w].Nobody? ==>
        owner[w].Nobody? && ram[w] == old(ram[w])
    }

    /** The machine at power-on: untouched heap, no directory yet. */
    constructor (memory: array<u32>)
      ensures ram == memory && fresh(heap) && heap.current == HEAP_START
    {
      ram := memory;
      heap := new BumpHeap();
      kernelDirectory, currentDirectory, frames, nframes := 0, 0, 0, 0;
      owner, dirs := [], {};
    }

    method PagingInit()
      requires ram.Length == RAM_WORDS && Break(heap.current) && heap.current + 0xA000 < HEAP_END
      modifies this, heap, ram
      ensures Valid() && currentDirectory == kernelDirectory
      ensures View().spaces == map[kernelDirectory := Identity(0x800)] && View().used == {}
    {
      CreateKernelDirectory();
      ghost var base, n := heap.current, 0;
      var i := 0;
      while i < 0x80_0000
        invariant n <= 0x800 && i == n * 4096
        invariant Valid() && currentDirectory == kernelDirectory
        invariant Booting(View(), kernelDirectory, base, n)
        decreases 0x80_0000 - i
      {
        MapIdentityPage(i, n, base);
        i, n := i + 4096, n + 1;
      }
      SwitchPageDirectory(kernelDirectory);
    }

    /** The body of the mapping loop. */
    method MapIdentityPage(i: u32, ghost n: nat, ghost base: u32)
      requires n < 0x800 && i == n * 4096 && base + 0x6000 < HEAP_END
      requires Valid() && Booting(View(), kernelDirectory, base, n)
      modifies this, heap, ram
      ensures Valid() && Booting(View(), kernelDirectory, base, n + 1)
      ensures kernelDirectory == old(kernelDirectory)
    {
      BootStep(View(), kernelDirectory, base, n);
      SmallFlags();
      MapPage(i, i, WordOr(PRESENT, WRITABLE));
    }

    /** The part of paging_init before the mapping loop. */
    method CreateKernelDirectory()
      requires ram.Length == RAM_WORDS && Break(heap.current) && heap.current + 0xA000 < HEAP_END
      modifies this, heap, ram
      ensures Valid() && currentDirectory == kernelDirectory && heap.current + 0x6000 < HEAP_END
      ensures Booting(View(), kernelDirectory, heap.current, 0)
    {
      hide Layout, ViewOf, Booting, VirtualMemory.Valid, Alloc;
      nframes := 0x100_0000 / 4096;
      AllocFits(heap.current, 512);
      frames := heap.Kmalloc(nframes / 8);
      EnoughHeap(heap.current, Request(Aligned, DIR_BYTES));
      ZeroWords(frames, nframes / 32);
      kernelDirectory := heap.KmallocA(DIR_BYTES);
      ZeroWords(kernelDirectory, DIR_WORDS);
      currentDirectory := kernelDirectory;
      owner := Give(Give(seq(RAM_WORDS, _ => Nobody), frames, BITMAP_WORDS, Bitmap),
                    kernelDirectory, DIR_WORDS, DirectoryOf(kernelDirectory));
      dirs := {kernelDirectory};
      EmptyMachine(ram[..], owner, kernelDirectory, frames, heap.current);
      EmptyMatches(ram[..], kernelDirectory);
    }

    /** memset(addr, 0, 4 * words) on memory that is written by words. */
    method ZeroWords(addr: u32, words: nat)
      requires addr % 4 == 0 && addr / 4 + words <= ram.Length
      modifies ram
      ensures forall w :: 0 <= w < ram.Length ==>
        ram[w] == if addr / 4 <= w < addr / 4 + words then 0 else old(ram[w])
    {
      var i := 0;
      while i < words
        invariant 0 <= i <= words
        invariant forall w :: 0 <= w < ram.Length ==>
          ram[w] == if addr / 4 <= w < addr / 4 + i then 0 else old(ram[w])
      {
        ram[addr / 4 + i] := 0;
        i := i + 1;
      }
    }

    method CreatePageDirectory() returns (dir: u32)
      requires Valid()
      modifies this, heap, ram
      ensures SparesUnowned()
      ensures Valid()
      ensures (dir, View()) == NewDirectory(old(View()))
      ensures kernelDirectory == old(kernelDirectory) && heap.current >= old(heap.current)
      ensures dirs == if dir == 0 then old(dirs) else old(dirs) + {dir}
      ensures currentDirectory == old(currentDirectory)
      ensures dir in dirs ==> InRam(dir) && PhysicalAddr(dir) == dir
    {
      hide Layout, ViewOf, TablesMatch, VirtualMemory.Valid, AllocA, Break;
      ghost var m, brk := ram[..], heap.current;
      NobodysWords(m, owner, dirs, frames, brk);
      ServeStep(brk, Request(Aligned, DIR_BYTES));
      var phys;
      dir, phys := heap.KmallocAp(DIR_BYTES);
      ZeroWords(dir, DIR_WORDS);
      ram[dir / 4 + 2 * ENTRIES] := phys;
      if dir != 0 {
        ViewAdd(m, ram[..], owner, dirs, frames, currentDirectory, brk, dir, heap.current);
        MatchAdd(m, ram[..], owner, dirs, frames, brk, dir);
        owner := Give(owner, dir, DIR_WORDS, DirectoryOf(dir));
        dirs := dirs + {dir};
      } else {
        PageAligned(brk);
        ViewElsewhere(m, ram[..], owner, dirs, frames, currentDirectory, brk, heap.current);
        MatchElsewhere(m, ram[..], owner, dirs, frames, brk);
      }
    }

    /** kmalloc for a caller outside the paging code: no address space changes. */
    method Kmalloc(size: u32) returns (addr: u32)
      requires Valid() && size <= 0xFF7F_FFFC
      modifies heap
      ensures Valid() && (addr, heap.current) == Alloc(old(heap.current), size)
      ensures View() == old(View()).(brk := heap.current) && heap.current >= old(heap.current)
    {
      ServeStep(heap.current, Request(Plain, size));
      ghost var brk := heap.current;
      addr := heap.Kmalloc(size);
      ViewElsewhere(ram[..], ram[..], owner, dirs, frames, currentDirectory, brk, heap.current);
    }

    /** dir->physical_addr */
    function PhysicalAddr(dir: u32): u32
      reads ram
      requires ram.Length == RAM_WORDS && InRam(dir)
    {
      ram[dir / 4 + 2 * ENTRIES]
    }

    /** Any address will do, NULL included; what follows works on a directory only if there is one. */
    method SwitchPageDirectory(dir: u32)
      requires Sound()
      modifies this`currentDirectory
      ensures Sound() && currentDirectory == dir && (Valid() <==> dir in dirs)
      ensures old(Valid()) && dir in dirs ==> View() == Switch(old(View()), dir)
    {
      currentDirectory := dir;
    }

    method MapPage(va: u32, pa: u32, flags: u32)
      requires Valid()
      modifies this, heap, ram
      ensures SparesUnowned()
      ensures Valid() && View() == Map(old(View()), va, pa, flags)
      ensures kernelDirectory == old(kernelDirectory) && heap.current >= old(heap.current) && dirs == old(dirs)
      ensures currentDirectory == old(currentDirectory)
      ensures InRam(currentDirectory)
      ensures UserMay(ram[..], currentDirectory + 4096, va / 4096) <==>
        && old(TableAt(ram[..], currentDirectory, va / 0x40_0000)) != 0
        && ForUsers(old(PhysicalAt(ram[..], currentDirectory, va / 0x40_0000))) && ForUsers(flags)
    {
      hide Layout, ViewOf, MakeEntry, VirtualMemory.Valid, TablesMatch, UserMay, ForUsers, AllocA, SetEntry;
      PageIndices(va);
      EntryForUsers(pa, flags);
      DirectoryWords(ram[..], owner, dirs, frames, heap.current, currentDirectory);
      var i, j := va / 0x40_0000, va / 4096 % ENTRIES;
      TablesInView(ram[..], owner, dirs, frames, heap.current, currentDirectory, i);
      if ram[currentDirectory / 4 + i] == 0 {
        LinkNewTable(i, flags);
        FirstPageIsClosed(ram[currentDirectory / 4 + i], flags);
      }
      WriteTableEntry(PageOf(va), i, j, MakeEntry(pa, flags));
    }

    /** current_directory->tables[i]->pages[j] = e. Without a table this lands in low memory. */
    method WriteTableEntry(ghost p: nat, i: nat, j: nat, e: u32)
      requires Valid() && p < PAGES && i == p / ENTRIES && j == p % ENTRIES
      modifies ram
      ensures SparesUnowned()
      ensures Valid()
      ensures var v := old(View());
        View() == if i in v.tables[v.current] then SetEntry(v, p, e) else v
      ensures InRam(currentDirectory)
      ensures UserMay(ram[..], currentDirectory + 4096, p) <==>
        ForUsers(old(PhysicalAt(ram[..], currentDirectory, i))) && ForUsers(e)
    {
      hide Layout, ViewOf, SetEntry, VirtualMemory.Valid, TablesMatch, UserMay, ForUsers, Matching;
      ghost var m, dir := ram[..], currentDirectory;
      DirectoryWords(m, owner, dirs, frames, heap.current, dir);
      NobodysWords(m, owner, dirs, frames, heap.current);
      TablesInView(m, owner, dirs, frames, heap.current, dir, i);
      var table := ram[currentDirectory / 4 + i];
      assert table == TableAt(m, dir, i);
      if table != 0 {
        TableWords(m, owner, dirs, frames, heap.current, dir, i);
        ViewWrite(m, owner, dirs, frames, heap.current, dir, p, e);
        ram[table / 4 + j] := e;
        assert ram[..] == m[table / 4 + j := e];
      } else {
        ram[table / 4 + j] := e;
        ViewElsewhere(m, ram[..], owner, dirs, frames, dir, heap.current, heap.current);
      }
      MatchElsewhere(m, ram[..], owner, dirs, frames, heap.current);
      EntrySame(m, ram[..], owner, dirs, frames, heap.current, dir, i);
      UserMayExactly(ram[..], dir, p, e);
    }

    /** The branch of map_page that creates a table. When the heap is exhausted it clears low memory instead. */
    method LinkNewTable(i: nat, flags: u32)
      requires Valid() && i < ENTRIES && TableAt(ram[..], currentDirectory, i) == 0
      modifies this`owner, heap, ram
      ensures SparesUnowned()
      ensures Valid()
      ensures var v, (table, brk) := old(View()), AllocA(old(heap.current), TABLE_BYTES);
        View() == if table == 0 then v.(brk := brk) else AddTable(v, i, brk)
      ensures heap.current >= old(heap.current)
      ensures var t := TableAt(ram[..], currentDirectory, i);
        && t == AllocA(old(heap.current), TABLE_BYTES).0 && t % 4096 == 0 && InRam(t)
        && PhysicalAt(ram[..], currentDirectory, i) == t + (if flags / 4 % 2 == 1 then 3 else 7)
    {
      hide Layout, ViewOf, AddTable, VirtualMemory.Valid, AllocA, Break, TablesMatch;
      ghost var m, brk := ram[..], heap.current;
      var dir := currentDirectory;
      DirectoryWords(m, owner, dirs, frames, brk, dir);
      NobodysWords(m, owner, dirs, frames, brk);
      ServeStep(brk, Request(Aligned, TABLE_BYTES));
      assert owner[dir / 4 + i] == DirectoryOf(dir) && owner[dir / 4 + (ENTRIES + i)] == DirectoryOf(dir);
      var table, tmp := heap.KmallocAp(TABLE_BYTES);
      WriteNewTable(dir, i, table, tmp, flags);
      EntryMatches(table, ram[dir / 4 + ENTRIES + i]);
      MatchLink(m, ram[..], owner, dirs, frames, brk, dir, i);
      if table != 0 {
        ViewLink(m, ram[..], owner, dirs, frames, brk, dir, i, table, heap.current);
        owner := Give(owner, table, ENTRIES, TableOf(dir, i));
      } else {
        ViewElsewhere(m, ram[..], owner, dirs, frames, dir, brk, heap.current);
      }
    }

    /** Its writes: the pointer, the zeroed table, and the entry for the processor. */
    method WriteNewTable(dir: u32, i: nat, table: u32, tmp: u32, flags: u32)
      requires ram.Length == RAM_WORDS && InRam(dir) && i < ENTRIES && InRam(table) && table % 4096 == 0 && tmp == table
      requires dir / 4 + DIR_WORDS <= table / 4 || table / 4 + ENTRIES <= dir / 4
      modifies ram
      ensures ram[dir / 4 + i] == table
      ensures ram[dir / 4 + ENTRIES + i] == table + (if flags / 4 % 2 == 1 then 3 else 7)
      ensures forall w :: 0 <= w < RAM_WORDS && w != dir / 4 + i && w != dir / 4 + ENTRIES + i ==>
        ram[w] == if table / 4 <= w < table / 4 + ENTRIES then 0 else old(ram[w])
    {
      hide WordOr, And;
      ram[dir / 4 + i] := table;
      ZeroWords(table, ENTRIES);
      var physical := WordOr(WordOr(tmp, PRESENT), WRITABLE);
      ram[dir / 4 + ENTRIES + i] := if And(flags, USER) == 0 then WordOr(physical, USER) else physical;
      EntryForProcessor(table, flags);
    }

    method UnmapPage(va: u32)
      requires Valid()
      modifies ram
      ensures SparesUnowned()
      ensures Valid() && View() == Unmap(old(View()), va)
    {
      PageIndices(va);
      var i, j := va / 0x40_0000, va / 4096 % ENTRIES;
      ghost var v, p := View(), PageOf(va);
      if ram[currentDirectory / 4 + i] != 0 {
        WriteTableEntry(p, i, j, 0);
      } else {
        assert Entry(ram[..], currentDirectory, p) == 0;
        assert v.spaces[v.current][p := 0] == v.spaces[v.current];
        assert v.spaces[v.current := v.spaces[v.current]] == v.spaces;
      }
    }

    method GetPhysicalAddress(va: u32) returns (pa: u32)
      requires Valid()
      ensures pa == Translate(View().spaces[currentDirectory], va)
    {
      PageIndices(va);
      var i, j, offset := va / 0x40_0000, va / 4096 % ENTRIES, va % 4096;
      var table := ram[currentDirectory / 4 + i];
      assert TableAt(ram[..], currentDirectory, PageOf(va) / ENTRIES) == table;
      if table == 0 {
        return 0;
      }
      var entry := ram[table / 4 + j];
      assert entry == Entry(ram[..], currentDirectory, PageOf(va));
      if entry % 2 == 0 {
        return 0;
      }
      WordOrIsSum(entry / 4096, offset);
      return WordOr(entry / 4096 * 4096, offset);
    }

    // ----- frames

    method SetFrame(addr: u32)
      requires Valid()
      modifies ram
      ensures SparesUnowned()
      ensures Valid() && View() == VirtualMemory.SetFrame(old(View()), addr)
      ensures forall w :: 0 <= w < RAM_WORDS && owner[w].DirectoryOf? ==> ram[w] == old(ram[w])
    {
      hide TablesMatch, Layout, ViewOf, VirtualMemory.Valid;
      ghost var m := ram[..];
      BitmapWords(m, owner, dirs, frames, heap.current);
      var frame := addr / 4096;
      if frame >= nframes {
        return;
      }
      var idx, off := frame / 32, frame % 32;
      var x := ram[frames / 4 + idx];
      var y := WordOr(x, Shifted(off));
      assert x == BitmapWord(ram[..], frames, frame);
      forall k: nat | k < 32
        ensures Bit(y, k) <==> if k == frame % 32 then true else Bit(x, k)
      {
        BitsOfSet(x, off, k);
      }
      ViewBitmap(ram[..], owner, dirs, frames, currentDirectory, heap.current, frame, y, true);
      ram[frames / 4 + idx] := y;
      assert ram[..] == m[frames / 4 + idx := y];
      MatchBitmap(m, owner, dirs, frames, heap.current, frame, y);
    }

    method ClearFrame(addr: u32)
      requires Valid()
      modifies ram
      ensures SparesUnowned()
      ensures Valid() && View() == VirtualMemory.ClearFrame(old(View()), addr)
    {
      hide TablesMatch, Layout, ViewOf, VirtualMemory.Valid;
      ghost var m := ram[..];
      BitmapWords(m, owner, dirs, frames, heap.current);
      var frame := addr / 4096;
      if frame >= nframes {
        return;
      }
      var idx, off := frame / 32, frame % 32;
      var x := ram[frames / 4 + idx];
      var y: u32 := And(x, Mask(off));
      assert x == BitmapWord(ram[..], frames, frame);
      forall k: nat | k < 32
        ensures Bit(y, k) <==> if k == frame % 32 then false else Bit(x, k)
      {
        BitsOfCleared(x, off, k);
      }
      ViewBitmap(ram[..], owner, dirs, frames, currentDirectory, heap.current, frame, y, false);
      ram[frames / 4 + idx] := y;
      assert ram[..] == m[frames / 4 + idx := y];
      MatchBitmap(m, owner, dirs, frames, heap.current, frame, y);
    }

    /** Nonzero for a used frame, and for an address beyond the last frame. */
    method TestFrame(addr: u32) returns (r: u32)
      requires Valid()
      ensures r != 0 <==> addr / 4096 >= NFRAMES || addr / 4096 in View().used
    {
      var frame := addr / 4096;
      if frame >= nframes {
        return 1;
      }
      var idx, off := frame / 32, frame % 32;
      AndPow2(ram[frames / 4 + idx], off);
      assert BitmapWord(ram[..], frames, frame) == ram[frames / 4 + idx];
      return And(ram[frames / 4 + idx], Shifted(off));
    }

    method FirstFreeFrame() returns (frame: u32)
      requires Valid()
      ensures frame == FirstFree(View().used)
      ensures frame == 0xFFFF_FFFF <==> |View().used| == NFRAMES
      ensures frame != 0xFFFF_FFFF ==>
        frame < NFRAMES && frame !in View().used && forall f: nat :: f < frame ==> f in View().used
    {
      hide Layout, LeastFree, VirtualMemory.Valid, ViewOf, UsedFrames, And, Bit, Shifted;
      ghost var m, used := ram[..], View().used;
      NobodysWords(m, owner, dirs, frames, heap.current);
      FramesInView(m, owner, dirs, frames, currentDirectory, heap.current);
      FullExactly(used);
      var i := 0;
      while i < nframes / 32
        invariant 0 <= i <= 128
        invariant forall f: nat :: f < 32 * i ==> f in used
      {
        FullWord(m, frames, i);
        if ram[frames / 4 + i] != 0xFFFF_FFFF {
          var j := 0;
          while j < 32
            invariant 0 <= j <= 32
            invariant forall f: nat :: f < 32 * i + j ==> f in used
          {
            FrameBit(m, frames, i, j);
            if And(ram[frames / 4 + i], Shifted(j)) == 0 {
              LeastFreeIs(used, 32 * i + j);
              return i * 32 + j;
            }
            j := j + 1;
          }
        }
        assert WordFull(used, i);
        i := i + 1;
      }
      return 0xFFFF_FFFF;
    }

    method AllocFrame(va: u32, isKernel: bool, isWritable: bool)
      requires Valid()
      modifies this, heap, ram
      ensures SparesUnowned()
      ensures Valid() && View() == VirtualMemory.AllocFrame(old(View()), va, isKernel, isWritable)
      ensures kernelDirectory == old(kernelDirectory) && heap.current >= old(heap.current) && dirs == old(dirs)
      ensures currentDirectory == old(currentDirectory)
      ensures InRam(currentDirectory)
      ensures UserMay(ram[..], currentDirectory + 4096, va / 4096) <==>
        && !isKernel && old(TableAt(ram[..], currentDirectory, va / 0x40_0000)) != 0
        && ForUsers(old(PhysicalAt(ram[..], currentDirectory, va / 0x40_0000)))
    {
      hide Layout, ViewOf, VirtualMemory.Valid, TablesMatch, UserMay, LeastFree, Map, VirtualMemory.SetFrame, Matching;
      ghost var m := ram[..];
      var frame := FirstFreeFrame();
      var pa := Mul32(frame, 4096);
      DirectoryWords(m, owner, dirs, frames, heap.current, currentDirectory);
      FramesInView(m, owner, dirs, frames, currentDirectory, heap.current);
      SentinelNeverFires(View().used);
      if pa != 0xFFFF_FFFF {
        SetFrame(pa);
        EntrySame(m, ram[..], owner, dirs, frames, heap.current, currentDirectory, va / 0x40_0000);
        var flags := PRESENT;
        if isWritable { flags := WordOr(flags, WRITABLE); }
        if !isKernel { flags := WordOr(flags, USER); }
        SmallFlags();
        MapPage(va, pa, flags);
      }
    }
  }

  lemma LeastFreeIs(used: set<nat>, f: nat)
    requires f < NFRAMES && f !in used && forall g: nat :: g < f ==> g in used
    ensures LeastFree(used, 0) == f
  {
  }

  lemma EmptyMatches(m: seq<u32>, d: u32)
    requires IsMemory(m) && InRam(d) && Zero(m, d, DIR_WORDS)
    ensures TablesMatch(m, {d})
  {
    forall i | 0 <= i < ENTRIES
      ensures Matching(m, d, i)
    {
      assert m[d / 4 + i] == 0 && m[d / 4 + (ENTRIES + i)] == 0;
    }
  }

  /** The entry of tables_physical: a table for a page closed to user code is open to it, and the other way round. */
  lemma EntryForProcessor(table: u32, flags: u32)
    requires table % 4096 == 0
    ensures var physical := WordOr(WordOr(table, PRESENT), WRITABLE);
      (if And(flags, USER) == 0 then WordOr(physical, USER) else physical) ==
        table + (if flags / 4 % 2 == 1 then 3 else 7)
  {
    hide Or, And;
    UserBit(flags);
    WordOrIsSum(table / 4096, 1);
    FlagsJoin(table / 8);
  }

  lemma EntryMatches(table: u32, e: u32)
    requires table % 4096 == 0 && (e == table + 3 || e == table + 7)
    ensures e / 4096 * 4096 == table && e % 4 == 3
  {
    var k := table / 4096;
    Products.Remainder(4096, k, e - table);
    Products.Remainder(4, if e == table + 3 then 1024 * k else 1024 * k + 1, 3);
  }

  lemma UserBit(flags: u32)
    ensures And(flags, USER) == 0 <==> flags / 4 % 2 == 0
  {
    AndPow2(flags, 2);
    assert Pow2(2) == 4;
    BitTwo(flags);
  }

  lemma FlagsJoin(a: nat)
    ensures Or(8 * a + 1, 2) == 8 * a + 3 && Or(8 * a + 3, 4) == 8 * a + 7
  {
    assert Or(2 * a, 1) == 2 * a + 1;
    assert Or(4 * a, 1) == 4 * a + 1;
    assert Or(4 * a + 1, 2) == 4 * a + 3;
  }

  lemma SmallFlags()
    ensures WordOr(1, 2) == 3 && WordOr(1, 4) == 5 && WordOr(3, 4) == 7
  {
  }
}
