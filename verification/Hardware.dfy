/**
 What the processor finds in a directory: the entries of tables_physical beside the table pointers, and the walk of
 32-bit paging with pages of 4 KB, as section 4.3 of volume 3A of the Intel 64 and IA-32 Software Developer's Manual
 defines it.
 */
module Hardware {
  import opened Words
  import opened Bits
  import opened Heap
  import Products
  import opened PageTables
  import opened VirtualMemory

  /** dir->tables_physical[i] */
  function PhysicalAt(m: seq<u32>, d: u32, i: nat): u32
    requires IsMemory(m) && InRam(d) && i < ENTRIES
  {
    m[d / 4 + ENTRIES + i]
  }

  /** The entry for the processor has the address of the table, and is present and writable if there is a table. */
  predicate Matching(m: seq<u32>, d: u32, i: nat)
    requires IsMemory(m) && InRam(d) && i < ENTRIES
  {
    var t, e := TableAt(m, d, i), PhysicalAt(m, d, i);
    e / 4096 * 4096 == t && (t != 0 ==> e % 4 == 3)
  }

  ghost predicate TablesMatch(m: seq<u32>, dirs: set<u32>)
    requires IsMemory(m)
  {
    (forall d :: d in dirs ==> InRam(d)) && forall d, i :: d in dirs && 0 <= i < ENTRIES ==> Matching(m, d, i)
  }

  /** Writes outside the directories. */
  lemma MatchElsewhere(m: seq<u32>, n: seq<u32>, owner: seq<Owner>, dirs: set<u32>, bitmap: u32, brk: u32)
    requires Layout(m, owner, dirs, bitmap, brk) && TablesMatch(m, dirs) && IsMemory(n)
    requires forall w :: 0 <= w < RAM_WORDS && owner[w].DirectoryOf? ==> n[w] == m[w]
    ensures TablesMatch(n, dirs)
  {
    forall d, i | d in dirs && 0 <= i < ENTRIES
      ensures Matching(n, d, i)
    {
      assert Matching(m, d, i);
      assert owner[d / 4 + i] == DirectoryOf(d) && owner[d / 4 + (ENTRIES + i)] == DirectoryOf(d);
    }
  }

  lemma EntrySame(m: seq<u32>, n: seq<u32>, owner: seq<Owner>, dirs: set<u32>, bitmap: u32, brk: u32, d: u32, i: nat)
    requires Layout(m, owner, dirs, bitmap, brk) && IsMemory(n) && TablesMatch(n, dirs) && d in dirs && i < ENTRIES
    requires forall w :: 0 <= w < RAM_WORDS && owner[w].DirectoryOf? ==> n[w] == m[w]
    ensures InRam(d) && TableAt(n, d, i) == TableAt(m, d, i) && PhysicalAt(n, d, i) == PhysicalAt(m, d, i)
    ensures Matching(n, d, i) && InRam(TableAt(n, d, i))
  {
    assert Matching(n, d, i);
    assert owner[d / 4 + i] == DirectoryOf(d) && owner[d / 4 + (ENTRIES + i)] == DirectoryOf(d);
  }

  /** A table linked into a directory, or the null pointer that a full heap gives instead. */
  lemma MatchLink(m: seq<u32>, n: seq<u32>, owner: seq<Owner>, dirs: set<u32>, bitmap: u32, brk: u32, d: u32, i: nat)
    requires Layout(m, owner, dirs, bitmap, brk) && TablesMatch(m, dirs) && IsMemory(n)
    requires d in dirs && InRam(d) && i < ENTRIES && Matching(n, d, i)
    requires forall w :: 0 <= w < RAM_WORDS && owner[w].DirectoryOf? && w != d / 4 + i && w != d / 4 + ENTRIES + i ==>
      n[w] == m[w]
    ensures TablesMatch(n, dirs)
  {
    forall c, j | c in dirs && 0 <= j < ENTRIES
      ensures Matching(n, c, j)
    {
      assert Matching(m, c, j);
      assert owner[c / 4 + j] == DirectoryOf(c) && owner[c / 4 + (ENTRIES + j)] == DirectoryOf(c);
      assert owner[d / 4 + i] == DirectoryOf(d) && owner[d / 4 + (ENTRIES + i)] == DirectoryOf(d);
    }
  }

  /** A new directory of zeros. */
  lemma MatchAdd(m: seq<u32>, n: seq<u32>, owner: seq<Owner>, dirs: set<u32>, bitmap: u32, brk: u32, d: u32)
    requires Layout(m, owner, dirs, bitmap, brk) && TablesMatch(m, dirs) && IsMemory(n)
    requires InRam(d) && Zero(n, d, DIR_WORDS - 1)
    requires forall w :: 0 <= w < RAM_WORDS && owner[w].DirectoryOf? ==> n[w] == m[w]
    ensures TablesMatch(n, dirs + {d})
  {
    MatchElsewhere(m, n, owner, dirs, bitmap, brk);
    forall i | 0 <= i < ENTRIES
      ensures Matching(n, d, i)
    {
      assert n[d / 4 + i] == 0 && n[d / 4 + (ENTRIES + i)] == 0;
    }
  }

  /**
   The physical address that the processor computes for va from the directory entries at base; none for a page fault,
   and beyond the 16 MB of this memory.
   */
  function Walk(m: seq<u32>, base: u32, va: u32): Option<u32>
    requires IsMemory(m) && base + 4096 <= 0x100_0000
  {
    var pde := m[base / 4 + va / 0x40_0000];
    var table := pde / 4096 * 4096;
    if pde % 2 == 0 || table >= 0x100_0000 then None
    else
      var pte := m[table / 4 + va / 4096 % 1024];
      if pte % 2 == 0 then None else Some(pte / 4096 * 4096 + va % 4096)
  }

  /** User code may use page p: both entries on the way are present and open to it. */
  predicate UserMay(m: seq<u32>, base: u32, p: nat)
    requires IsMemory(m) && base + 4096 <= 0x100_0000 && p < PAGES
  {
    var pde := m[base / 4 + p / 1024];
    var table := pde / 4096 * 4096;
    && ForUsers(pde) && table < 0x100_0000 && ForUsers(m[table / 4 + p % 1024])
  }

  /** PRESENT and USER */
  predicate ForUsers(entry: u32) {
    entry % 2 == 1 && entry / 4 % 2 == 1
  }

  lemma UserMayExactly(m: seq<u32>, d: u32, p: nat, e: u32)
    requires IsMemory(m) && InRam(d) && p < PAGES && Matching(m, d, p / ENTRIES) && InRam(TableAt(m, d, p / ENTRIES))
    requires m[TableAt(m, d, p / ENTRIES) / 4 + p % ENTRIES] == e
    ensures UserMay(m, d + 4096, p) <==> ForUsers(PhysicalAt(m, d, p / ENTRIES)) && ForUsers(e)
  {
  }

  /** The entry for a new table is open to user code exactly if the first page mapped in it is not. */
  lemma FirstPageIsClosed(table: u32, flags: u32)
    requires table % 4096 == 0 && table <= HEAP_END
    ensures !(ForUsers(table + (if flags / 4 % 2 == 1 then 3 else 7)) && ForUsers(flags))
  {
    assert (table + 3) / 4 % 2 == 0;
  }

  lemma EntryForUsers(pa: u32, flags: u32)
    ensures ForUsers(MakeEntry(pa, flags)) <==> ForUsers(flags)
  {
    hide Or, Bit;
    var base := pa / 4096 * 4096;
    EntryParts(pa, flags);
    BitTwo(base);
    BitTwo(flags);
    BitTwo(MakeEntry(pa, flags));
    BitOfOr(base, flags, 2);
    NoFlags(pa / 4096);
  }

  lemma NoFlags(k: nat)
    ensures 4096 * k / 4 % 2 == 0
  {
    Products.Remainder(4, 1024 * k, 0);
    Products.Remainder(2, 512 * k, 0);
  }

  lemma BitTwo(x: nat)
    ensures Bit(x, 2) <==> x / 4 % 2 == 1
  {
    assert x / 2 / 2 == x / 4;
    assert Bit(x, 2) <==> Bit(x / 2 / 2, 0);
  }

  /** What the software says about va, as the processor would. */
  function Expected(space: seq<u32>, va: u32): Option<u32>
    requires |space| == PAGES
  {
    if space[PageOf(va)] % 2 == 1 then Some(Translate(space, va)) else None
  }

  /**
   From the entries of tables_physical the processor computes what get_physical_address answers, exactly unless the
   heap could not serve the table: then the entry left behind, present all the same, leads to a table at address 0.
   */
  lemma WalkExactly(m: seq<u32>, owner: seq<Owner>, dirs: set<u32>, bitmap: u32, brk: u32, d: u32, va: u32)
    requires Layout(m, owner, dirs, bitmap, brk) && TablesMatch(m, dirs) && d in dirs
    ensures InRam(d)
    ensures Walk(m, d + 4096, va) == Expected(Space(m, d), va) <==>
      var i := va / 0x40_0000;
      TableAt(m, d, i) != 0 || PhysicalAt(m, d, i) % 2 == 0 || m[va / 4096 % 1024] % 2 == 0
  {
    var i, p := va / 0x40_0000, PageOf(va);
    assert Matching(m, d, i) && i == p / ENTRIES;
    assert Space(m, d)[p] == Entry(m, d, p);
  }

  /**
   But physical_addr, which switch_page_directory loads, is the address of the directory itself, and the words there
   are the pointers: from them the processor computes no address at all.
   */
  lemma PointersArePageFaults(m: seq<u32>, dirs: set<u32>, d: u32, va: u32)
    requires IsMemory(m) && TablesMatch(m, dirs) && d in dirs
    ensures InRam(d) && Walk(m, d, va) == None
  {
    assert Matching(m, d, va / 0x40_0000);
    PageMultiple(PhysicalAt(m, d, va / 0x40_0000) / 4096);
  }
}
