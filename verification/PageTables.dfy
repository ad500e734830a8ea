/**
 Page directories and page tables as they lie in one flat memory of 32-bit words, and what a write to
 that memory does to the address spaces they stand for.
 */
module PageTables {
  import opened Words
  import opened Heap

  const RAM_WORDS := 0x40_0000      // 16 MB
  const DIR_BYTES: u32 := 8196      // tables[1024], tables_physical[1024], physical_addr
  const DIR_WORDS := 2049
  const TABLE_BYTES: u32 := 4096
  const ENTRIES := 1024
  const PAGES := 0x10_0000          // virtual pages of a 32-bit address space
  const PRESENT: u32 := 1
  const WRITABLE: u32 := 2
  const USER: u32 := 4
  const NFRAMES := 4096
  const BITMAP_BYTES: u32 := 512
  const BITMAP_WORDS := 128

  ghost predicate IsMemory(m: seq<u32>) {
    |m| == RAM_WORDS
  }

  /** A directory address whose fields lie inside the memory. */
  predicate InRam(addr: u32) {
    addr <= HEAP_END
  }

  /** dir->tables[i]: the address of a page table, or 0. */
  function TableAt(m: seq<u32>, d: u32, i: nat): u32
    requires IsMemory(m) && InRam(d) && i < ENTRIES
  {
    m[d / 4 + i]
  }

  /** The entry of virtual page p in directory d; 0 where there is no table. */
  function Entry(m: seq<u32>, d: u32, p: nat): u32
    requires IsMemory(m) && InRam(d) && p < PAGES
  {
    var t := TableAt(m, d, p / ENTRIES);
    if t == 0 || !InRam(t) then 0 else m[t / 4 + p % ENTRIES]
  }

  /** An address space: the entries of all virtual pages. */
  function Space(m: seq<u32>, d: u32): (s: seq<u32>)
    requires IsMemory(m) && InRam(d)
    ensures |s| == PAGES
  {
    seq(PAGES, p requires 0 <= p < PAGES => Entry(m, d, p))
  }

  // ----- which word belongs to what

  datatype Owner = Nobody | DirectoryOf(d: u32) | TableOf(d: u32, i: nat) | Bitmap

  ghost predicate Owns(owner: seq<Owner>, addr: u32, words: nat, o: Owner) {
    forall w :: addr / 4 <= w < addr / 4 + words ==> 0 <= w < |owner| && owner[w] == o
  }

  ghost predicate HeapBlock(addr: u32, size: u32, brk: u32) {
    HEAP_START <= addr && addr % 4 == 0 && addr + size <= brk
  }

  /** Every directory, every table it points to and the bitmap own disjoint blocks below the heap break. */
  ghost predicate Layout(m: seq<u32>, owner: seq<Owner>, dirs: set<u32>, bitmap: u32, brk: u32) {
    && IsMemory(m) && Break(brk) && |owner| == RAM_WORDS
    && (forall w :: 0 <= w < RAM_WORDS && !owner[w].Nobody? ==> HEAP_START / 4 <= w < brk / 4)
    && (forall d :: d in dirs ==> HeapBlock(d, DIR_BYTES, brk) && Owns(owner, d, DIR_WORDS, DirectoryOf(d)))
    && (forall d, i :: d in dirs && 0 <= i < ENTRIES && TableAt(m, d, i) != 0 ==>
          HeapBlock(TableAt(m, d, i), TABLE_BYTES, brk) && Owns(owner, TableAt(m, d, i), ENTRIES, TableOf(d, i)))
    && HeapBlock(bitmap, BITMAP_BYTES, brk) && Owns(owner, bitmap, BITMAP_WORDS, Bitmap)
  }

  /** What a write to a directory relies on. */
  lemma DirectoryWords(m: seq<u32>, owner: seq<Owner>, dirs: set<u32>, bitmap: u32, brk: u32, d: u32)
    requires Layout(m, owner, dirs, bitmap, brk) && d in dirs
    ensures InRam(d) && d % 4 == 0 && |owner| == |m| == RAM_WORDS && d / 4 + DIR_WORDS <= RAM_WORDS
    ensures HEAP_START <= d && d + DIR_BYTES <= brk
    ensures forall w :: d / 4 <= w < d / 4 + DIR_WORDS ==> owner[w] == DirectoryOf(d)
  {
  }

  /** What a write to a table relies on. */
  lemma TableWords(m: seq<u32>, owner: seq<Owner>, dirs: set<u32>, bitmap: u32, brk: u32, d: u32, i: nat)
    requires Layout(m, owner, dirs, bitmap, brk) && d in dirs && i < ENTRIES && TableAt(m, d, i) != 0
    ensures var t := TableAt(m, d, i);
      && t / 4 + ENTRIES <= RAM_WORDS == |owner|
      && forall w :: t / 4 <= w < t / 4 + ENTRIES ==> owner[w] == TableOf(d, i)
  {
  }

  lemma BitmapWords(m: seq<u32>, owner: seq<Owner>, dirs: set<u32>, bitmap: u32, brk: u32)
    requires Layout(m, owner, dirs, bitmap, brk)
    ensures InRam(bitmap) && |owner| == RAM_WORDS && bitmap / 4 + BITMAP_WORDS <= RAM_WORDS
    ensures forall w :: bitmap / 4 <= w < bitmap / 4 + BITMAP_WORDS ==> owner[w] == Bitmap
  {
  }

  lemma NoNullDirectory(m: seq<u32>, owner: seq<Owner>, dirs: set<u32>, bitmap: u32, brk: u32)
    requires Layout(m, owner, dirs, bitmap, brk)
    ensures 0 !in dirs
  {
  }

  /** Low memory and memory above the break are nobody's. */
  lemma NobodysWords(m: seq<u32>, owner: seq<Owner>, dirs: set<u32>, bitmap: u32, brk: u32)
    requires Layout(m, owner, dirs, bitmap, brk)
    ensures |owner| == |m| == RAM_WORDS && Break(brk) && InRam(bitmap) && IsMemory(m)
    ensures forall w :: 0 <= w < RAM_WORDS && !(HEAP_START / 4 <= w < brk / 4) ==> owner[w].Nobody?
  {
  }

  /** The words the software walk reads: table pointers and table entries. */
  ghost predicate Walked(owner: seq<Owner>, w: nat)
    requires w < |owner|
  {
    owner[w].TableOf? || (owner[w].DirectoryOf? && w < owner[w].d / 4 + ENTRIES)
  }

  /** m and n agree on all table pointers and table entries. */
  ghost predicate SameTables(m: seq<u32>, n: seq<u32>, owner: seq<Owner>)
    requires IsMemory(m) && IsMemory(n) && |owner| == RAM_WORDS
  {
    forall w :: 0 <= w < RAM_WORDS && Walked(owner, w) ==> n[w] == m[w]
  }

  /** Two directories never share a table, and no table overlaps a directory or the bitmap. */
  lemma TablesApart(m: seq<u32>, owner: seq<Owner>, dirs: set<u32>, bitmap: u32, brk: u32,
                    d: u32, i: nat, e: u32, j: nat)
    requires Layout(m, owner, dirs, bitmap, brk)
    requires d in dirs && e in dirs && i < ENTRIES && j < ENTRIES
    ensures d != e ==> Disjoint(d, DIR_BYTES, e, DIR_BYTES)
    ensures TableAt(m, d, i) != 0 ==>
      && Disjoint(TableAt(m, d, i), TABLE_BYTES, e, DIR_BYTES)
      && Disjoint(TableAt(m, d, i), TABLE_BYTES, bitmap, BITMAP_BYTES)
    ensures TableAt(m, d, i) != 0 && TableAt(m, e, j) != 0 && (d, i) != (e, j) ==>
      Disjoint(TableAt(m, d, i), TABLE_BYTES, TableAt(m, e, j), TABLE_BYTES)
  {
    if d != e {
      OwnersApart(owner, d, DIR_WORDS, DirectoryOf(d), e, DIR_WORDS, DirectoryOf(e));
    }
    var t, u := TableAt(m, d, i), TableAt(m, e, j);
    if t != 0 {
      OwnersApart(owner, t, ENTRIES, TableOf(d, i), e, DIR_WORDS, DirectoryOf(e));
      OwnersApart(owner, t, ENTRIES, TableOf(d, i), bitmap, BITMAP_WORDS, Bitmap);
      if u != 0 && (d, i) != (e, j) {
        OwnersApart(owner, t, ENTRIES, TableOf(d, i), u, ENTRIES, TableOf(e, j));
      }
    }
  }

  lemma OwnersApart(owner: seq<Owner>, a: u32, n: nat, o: Owner, b: u32, k: nat, q: Owner)
    requires Owns(owner, a, n, o) && Owns(owner, b, k, q) && o != q
    requires |owner| == RAM_WORDS && InRam(a) && InRam(b)
    requires a % 4 == 0 && b % 4 == 0 && n > 0 && k > 0
    ensures Disjoint(a, 4 * n, b, 4 * k)
  {
    assert owner[a / 4] == o && owner[b / 4] == q;
  }

  // ----- what writes do

  /** Writes outside the table pointers and tables change no address space. */
  lemma WriteElsewhere(m: seq<u32>, n: seq<u32>, owner: seq<Owner>, dirs: set<u32>, bitmap: u32, brk: u32)
    requires Layout(m, owner, dirs, bitmap, brk) && IsMemory(n) && SameTables(m, n, owner)
    ensures Layout(n, owner, dirs, bitmap, brk)
    ensures forall d :: d in dirs ==> Space(n, d) == Space(m, d)
    ensures forall d, i :: d in dirs && 0 <= i < ENTRIES ==> TableAt(n, d, i) == TableAt(m, d, i)
  {
    forall d, i | d in dirs && 0 <= i < ENTRIES
      ensures TableAt(n, d, i) == TableAt(m, d, i)
    {
      assert owner[d / 4 + i] == DirectoryOf(d) && Walked(owner, d / 4 + i);
    }
    forall d | d in dirs
      ensures Space(n, d) == Space(m, d)
    {
      forall p | 0 <= p < PAGES
        ensures Entry(n, d, p) == Entry(m, d, p)
      {
        var t := TableAt(m, d, p / ENTRIES);
        if t != 0 {
          assert owner[t / 4 + p % ENTRIES] == TableOf(d, p / ENTRIES) && Walked(owner, t / 4 + p % ENTRIES);
        }
      }
    }
  }

  /** A write to one entry of a table changes one page of one address space. */
  lemma WriteEntry(m: seq<u32>, owner: seq<Owner>, dirs: set<u32>, bitmap: u32, brk: u32,
                   d: u32, p: nat, e: u32)
    requires Layout(m, owner, dirs, bitmap, brk) && d in dirs && p < PAGES
    requires TableAt(m, d, p / ENTRIES) != 0
    ensures var n := m[TableAt(m, d, p / ENTRIES) / 4 + p % ENTRIES := e];
      && Layout(n, owner, dirs, bitmap, brk)
      && Space(n, d) == Space(m, d)[p := e]
      && (forall c :: c in dirs && c != d ==> Space(n, c) == Space(m, c))
      && (forall c, i :: c in dirs && 0 <= i < ENTRIES ==> TableAt(n, c, i) == TableAt(m, c, i))
  {
    hide Layout, TableAt, Entry;
    DirectoriesInRam(m, owner, dirs, bitmap, brk);
    PointersKept(m, owner, dirs, bitmap, brk, d, p, e);
    var n := m[TableAt(m, d, p / ENTRIES) / 4 + p % ENTRIES := e];
    SamePointersSameLayout(m, n, owner, dirs, bitmap, brk);
    forall c | c in dirs
      ensures Space(n, c) == if c == d then Space(m, d)[p := e] else Space(m, c)
    {
      forall q | 0 <= q < PAGES
        ensures Entry(n, c, q) == if c == d && q == p then e else Entry(m, c, q)
      {
        EntryWritten(m, owner, dirs, bitmap, brk, d, p, e, c, q);
      }
    }
  }

  lemma DirectoriesInRam(m: seq<u32>, owner: seq<Owner>, dirs: set<u32>, bitmap: u32, brk: u32)
    requires Layout(m, owner, dirs, bitmap, brk)
    ensures IsMemory(m) && forall c :: c in dirs ==> InRam(c)
  {
  }

  lemma PointersKept(m: seq<u32>, owner: seq<Owner>, dirs: set<u32>, bitmap: u32, brk: u32,
                     d: u32, p: nat, e: u32)
    requires Layout(m, owner, dirs, bitmap, brk) && d in dirs && p < PAGES
    requires TableAt(m, d, p / ENTRIES) != 0
    ensures var w := TableAt(m, d, p / ENTRIES) / 4 + p % ENTRIES;
      && w < |m|
      && IsMemory(m[w := e])
      && forall c, i :: c in dirs && 0 <= i < ENTRIES ==> TableAt(m[w := e], c, i) == TableAt(m, c, i)
  {
    var w := TableAt(m, d, p / ENTRIES) / 4 + p % ENTRIES;
    assert owner[w] == TableOf(d, p / ENTRIES);
    forall c, i | c in dirs && 0 <= i < ENTRIES
      ensures TableAt(m[w := e], c, i) == TableAt(m, c, i)
    {
      assert owner[c / 4 + i] == DirectoryOf(c);
    }
  }

  lemma EntryWritten(m: seq<u32>, owner: seq<Owner>, dirs: set<u32>, bitmap: u32, brk: u32,
                     d: u32, p: nat, e: u32, c: u32, q: nat)
    requires Layout(m, owner, dirs, bitmap, brk) && d in dirs && p < PAGES && c in dirs && q < PAGES
    requires TableAt(m, d, p / ENTRIES) != 0
    ensures var w := TableAt(m, d, p / ENTRIES) / 4 + p % ENTRIES;
      && w < |m| && IsMemory(m[w := e])
      && Entry(m[w := e], c, q) == if c == d && q == p then e else Entry(m, c, q)
  {
    PointersKept(m, owner, dirs, bitmap, brk, d, p, e);
    if TableAt(m, c, q / ENTRIES) != 0 {
      OneEntryAt(m, owner, dirs, bitmap, brk, d, p, c, q);
    }
  }

  lemma SamePointersSameLayout(m: seq<u32>, n: seq<u32>, owner: seq<Owner>, dirs: set<u32>, bitmap: u32, brk: u32)
    requires Layout(m, owner, dirs, bitmap, brk) && IsMemory(n)
    requires forall c, i :: c in dirs && 0 <= i < ENTRIES ==> TableAt(n, c, i) == TableAt(m, c, i)
    ensures Layout(n, owner, dirs, bitmap, brk)
  {
  }

  /** Different pages have their entries in different words. */
  lemma OneEntryAt(m: seq<u32>, owner: seq<Owner>, dirs: set<u32>, bitmap: u32, brk: u32,
                   d: u32, p: nat, c: u32, q: nat)
    requires Layout(m, owner, dirs, bitmap, brk) && d in dirs && c in dirs && p < PAGES && q < PAGES
    requires TableAt(m, d, p / ENTRIES) != 0 && TableAt(m, c, q / ENTRIES) != 0
    ensures TableAt(m, d, p / ENTRIES) / 4 + p % ENTRIES == TableAt(m, c, q / ENTRIES) / 4 + q % ENTRIES
      <==> d == c && p == q
  {
    var t, u := TableAt(m, d, p / ENTRIES), TableAt(m, c, q / ENTRIES);
    assert owner[t / 4 + p % ENTRIES] == TableOf(d, p / ENTRIES);
    assert owner[u / 4 + q % ENTRIES] == TableOf(c, q / ENTRIES);
    assert q == q / ENTRIES * ENTRIES + q % ENTRIES && p == p / ENTRIES * ENTRIES + p % ENTRIES;
  }

  /** The owners after the block at addr has been given to o. */
  ghost function Give(owner: seq<Owner>, addr: u32, words: nat, o: Owner): (r: seq<Owner>)
    ensures |r| == |owner|
    ensures forall w :: 0 <= w < |r| ==> r[w] == if addr / 4 <= w < addr / 4 + words then o else owner[w]
  {
    seq(|owner|, w requires 0 <= w < |owner| => if addr / 4 <= w < addr / 4 + words then o else owner[w])
  }

  ghost predicate Zero(m: seq<u32>, addr: u32, words: nat) {
    forall w :: addr / 4 <= w < addr / 4 + words && 0 <= w < |m| ==> m[w] == 0
  }

  /** n is m with a fresh zeroed table at t linked as table i of directory d. */
  ghost predicate Linked(m: seq<u32>, n: seq<u32>, owner: seq<Owner>, d: u32, i: nat, t: u32)
    requires IsMemory(m) && |owner| == RAM_WORDS && InRam(d) && i < ENTRIES
  {
    && IsMemory(n) && n[d / 4 + i] == t && Zero(n, t, ENTRIES)
    && forall w :: 0 <= w < RAM_WORDS && !owner[w].Nobody? && w != d / 4 + i && w != d / 4 + ENTRIES + i ==>
      n[w] == m[w]
  }

  /** Linking a fresh zeroed table into a directory changes no address space. */
  lemma LinkTable(m: seq<u32>, n: seq<u32>, owner: seq<Owner>, dirs: set<u32>, bitmap: u32, brk: u32,
                  d: u32, i: nat, t: u32, next: u32)
    requires Layout(m, owner, dirs, bitmap, brk) && d in dirs && i < ENTRIES && TableAt(m, d, i) == 0
    requires brk <= t && t % 4 == 0 && t + TABLE_BYTES <= next && Break(next)
    requires Linked(m, n, owner, d, i, t)
    ensures Layout(n, Give(owner, t, ENTRIES, TableOf(d, i)), dirs, bitmap, next)
    ensures forall c :: c in dirs ==> Space(n, c) == Space(m, c)
    ensures forall c, j :: c in dirs && 0 <= j < ENTRIES ==>
      TableAt(n, c, j) == if c == d && j == i then t else TableAt(m, c, j)
  {
    forall c, j | c in dirs && 0 <= j < ENTRIES
      ensures TableAt(n, c, j) == if c == d && j == i then t else TableAt(m, c, j)
    {
      LinkedTableAt(m, n, owner, dirs, bitmap, brk, d, i, t, c, j);
    }
    forall c | c in dirs
      ensures Space(n, c) == Space(m, c)
    {
      forall q | 0 <= q < PAGES
        ensures Entry(n, c, q) == Entry(m, c, q)
      {
        LinkedEntry(m, n, owner, dirs, bitmap, brk, d, i, t, c, q);
      }
    }
    LinkedLayout(m, n, owner, dirs, bitmap, brk, d, i, t, next);
  }

  lemma LinkedTableAt(m: seq<u32>, n: seq<u32>, owner: seq<Owner>, dirs: set<u32>, bitmap: u32, brk: u32,
                      d: u32, i: nat, t: u32, c: u32, j: nat)
    requires Layout(m, owner, dirs, bitmap, brk) && d in dirs && i < ENTRIES && Linked(m, n, owner, d, i, t)
    requires c in dirs && j < ENTRIES
    ensures TableAt(n, c, j) == if c == d && j == i then t else TableAt(m, c, j)
  {
    assert owner[d / 4 + i] == DirectoryOf(d) && owner[d / 4 + (ENTRIES + i)] == DirectoryOf(d);
    assert owner[c / 4 + j] == DirectoryOf(c);
  }

  lemma LinkedEntry(m: seq<u32>, n: seq<u32>, owner: seq<Owner>, dirs: set<u32>, bitmap: u32, brk: u32,
                    d: u32, i: nat, t: u32, c: u32, q: nat)
    requires Layout(m, owner, dirs, bitmap, brk) && d in dirs && i < ENTRIES && Linked(m, n, owner, d, i, t)
    requires TableAt(m, d, i) == 0 && brk <= t && t % 4 == 0 && t + TABLE_BYTES <= HEAP_END
    requires c in dirs && q < PAGES
    ensures Entry(n, c, q) == Entry(m, c, q)
  {
    LinkedTableAt(m, n, owner, dirs, bitmap, brk, d, i, t, c, q / ENTRIES);
    var u := TableAt(m, c, q / ENTRIES);
    if u != 0 {
      assert owner[u / 4 + q % ENTRIES] == TableOf(c, q / ENTRIES);
      assert owner[d / 4 + i] == DirectoryOf(d) && owner[d / 4 + (ENTRIES + i)] == DirectoryOf(d);
    }
  }

  lemma LinkedLayout(m: seq<u32>, n: seq<u32>, owner: seq<Owner>, dirs: set<u32>, bitmap: u32, brk: u32,
                     d: u32, i: nat, t: u32, next: u32)
    requires Layout(m, owner, dirs, bitmap, brk) && d in dirs && i < ENTRIES && TableAt(m, d, i) == 0
    requires brk <= t && t % 4 == 0 && t + TABLE_BYTES <= next && Break(next) && IsMemory(n)
    requires forall c, j :: c in dirs && 0 <= j < ENTRIES ==>
      TableAt(n, c, j) == if c == d && j == i then t else TableAt(m, c, j)
    ensures Layout(n, Give(owner, t, ENTRIES, TableOf(d, i)), dirs, bitmap, next)
  {
  }

  /** A fresh zeroed directory is an empty address space beside the others. */
  lemma AddDirectory(m: seq<u32>, n: seq<u32>, owner: seq<Owner>, dirs: set<u32>, bitmap: u32, brk: u32,
                     d: u32, next: u32)
    requires Layout(m, owner, dirs, bitmap, brk)
    requires brk <= d && d % 4 == 0 && d + DIR_BYTES <= next && Break(next)
    requires IsMemory(n) && Zero(n, d, DIR_WORDS - 1)
    requires forall w :: 0 <= w < RAM_WORDS && !owner[w].Nobody? ==> n[w] == m[w]
    ensures d !in dirs
    ensures Layout(n, Give(owner, d, DIR_WORDS, DirectoryOf(d)), dirs + {d}, bitmap, next)
    ensures Space(n, d) == seq(PAGES, p => 0)
    ensures forall c :: c in dirs ==> Space(n, c) == Space(m, c)
  {
    WriteElsewhere(m, n, owner, dirs, bitmap, brk);
    var after := Give(owner, d, DIR_WORDS, DirectoryOf(d));
    if d in dirs {
      assert false;
    }
    forall i | 0 <= i < ENTRIES
      ensures TableAt(n, d, i) == 0
    {
    }
    forall c, j | c in dirs && 0 <= j < ENTRIES && TableAt(n, c, j) != 0
      ensures Owns(after, TableAt(n, c, j), ENTRIES, TableOf(c, j))
    {
    }
    forall c | c in dirs
      ensures Owns(after, c, DIR_WORDS, DirectoryOf(c))
    {
    }
  }
}
