/** init_paging of src/mm/paging.c: identity-mapping a region whose bound moves while it is mapped. */
module Boot {
  import opened Machine
  import opened Bitsets
  import opened Frames
  import opened Paging

  const SLACK: nat := 4 * PAGE_SIZE
  const KHEAP_START: nat := 0x0F00_0000
  const KHEAP_INITIAL_SIZE: nat := 0x0001_0000
  const KHEAP_END: nat := 0x0F01_0000
  const HEAP_PAGES: nat := 16
  const HEAP_TABLE: nat := 60
  const BUFFER_TABLE: nat := 960
  const DIRECTORY_BYTES: nat := 8196
  const HEAP_T_BYTES: nat := 36

  /** More than boot can ever use: the directory, all of its tables, and the slack. */
  const BOOT_BYTES: nat := PAGE_SIZE + DIRECTORY_BYTES + TABLES_PER_DIRECTORY * 2 * PAGE_SIZE + SLACK

  /** The first `n` pages are present and map to themselves; no other page is present or has a frame. */
  ghost predicate Identity(dir: Directory, n: nat)
    requires dir.Shape()
    reads dir, dir.Pages()
  {
    forall a :: 0 <= a < WORD_LIMIT ==>
      var e := dir.Lookup(a);
      dir.LookupInPages(a);
      && (PageNumber(a) < n ==> e.Some?)
      && (e.Some? ==> IdentityEntry(e.value, PageNumber(a), n))
  }

  /** The entry of a page when the first `n` pages map to themselves. */
  ghost predicate IdentityEntry(p: Page, page: nat, n: nat)
    reads p
  {
    && p.present == (page < n) && p.address == (if page < n then page else 0)
    && (page < n ==> p.writeable && p.userMode)
  }

  /** Directories of the boot code and the memory behind them. */
  ghost predicate Ready(dir: Directory, km: BootMemory, fa: FrameAllocator)
    reads dir, km
  {
    km.Valid() && dir.Valid(km.tables) && fa.Valid() && Clear(dir, km)
  }

  // ----- get_page, seen by the boot loops -----

  /** Tables are added, never replaced. */
  ghost predicate KeepsTables(before: seq<PageTable?>, after: seq<PageTable?>) {
    |before| == |after| && forall t :: 0 <= t < |before| && before[t] != null ==> after[t] == before[t]
  }

  /** The only tables are those of the heap, of the cloning buffer, and of addresses below a bound. */
  ghost predicate TablesWithin(tables: seq<PageTable?>, bound: nat) {
    forall t :: 0 <= t < |tables| && tables[t] != null ==>
      t == HEAP_TABLE || t == BUFFER_TABLE || AddressOf(t, 0) < bound
  }

  /** At most the table of `i` is new. */
  ghost predicate AddsTable(before: seq<PageTable?>, after: seq<PageTable?>, i: nat) {
    TableIndex(i) < |before| == |after| && after == before[TableIndex(i) := after[TableIndex(i)]]
  }

  lemma TableOfAddress(i: nat)
    ensures AddressOf(TableIndex(i), 0) <= i
  {
  }

  lemma StillWithin(before: seq<PageTable?>, after: seq<PageTable?>, i: nat, bound: nat, bound': nat)
    requires TablesWithin(before, bound) && AddsTable(before, after, i) && bound <= bound'
    requires i < bound' || TableIndex(i) == HEAP_TABLE || TableIndex(i) == BUFFER_TABLE
    ensures TablesWithin(after, bound')
  {
    hide TableIndex;
    TableOfAddress(i);
  }

  /** How many tables a directory lacks. */
  ghost function Missing(tables: seq<PageTable?>): nat {
    if tables == [] then 0 else (if tables[0] == null then 1 else 0) + Missing(tables[1..])
  }

  lemma {:induction false} MissingUpdate(tables: seq<PageTable?>, t: nat, table: PageTable?)
    requires t < |tables| && table != null
    ensures Missing(tables[t := table]) == Missing(tables) - (if tables[t] == null then 1 else 0)
  {
    if t == 0 {
      assert tables[t := table][1..] == tables[1..];
    } else {
      MissingUpdate(tables[1..], t - 1, table);
      assert tables[t := table][1..] == tables[1..][t - 1 := table];
    }
  }

  lemma {:induction false} AllMissing(tables: seq<PageTable?>)
    requires forall i :: 0 <= i < |tables| ==> tables[i] == null
    ensures Missing(tables) == |tables|
  {
    if tables != [] { AllMissing(tables[1..]); }
  }

  /** An upper bound for the first unused byte: each missing table costs less than two pages. */
  ghost function Reach(dir: Directory, km: BootMemory): nat
    reads dir, km
  {
    Missing(dir.tables) * 2 * PAGE_SIZE + km.firstUnused
  }

  /** Entries stay where they are, and those that are new are empty. */
  ghost predicate KeepsEntry(before: Option<Page>, after: Option<Page>)
    reads if after.Some? then {after.value} else {}
  {
    if before.Some? then after == before else after.Some? ==> after.value.Value() == EMPTY
  }

  /** get_page, its table made if missing and wanted. */
  method Obtain(i: nat, create: bool, dir: Directory, km: BootMemory) returns (page: Page)
    requires km.Valid() && dir.Valid(km.tables) && i < WORD_LIMIT && (create || dir.Lookup(i).Some?)
    modifies dir, km
    ensures km.Valid() && dir.Valid(km.tables) && dir.Lookup(i) == Some(page) && Extends(old(km.tables), km.tables)
    ensures old(Clear(dir, km)) ==> Clear(dir, km)
    ensures fresh(dir.Pages() - old(dir.Pages())) && KeepsTables(old(dir.tables), dir.tables)
    ensures forall a :: 0 <= a < WORD_LIMIT ==> KeepsEntry(old(dir.Lookup(a)), dir.Lookup(a))
    ensures forall p :: p in dir.Pages() ==> p in old(dir.Pages()) || p.Value() == EMPTY
    ensures Reach(dir, km) <= old(Reach(dir, km))
    ensures old(km.firstUnused) <= km.firstUnused < old(km.firstUnused) + 2 * PAGE_SIZE
    ensures old(dir.Lookup(i)).Some? ==> km.firstUnused == old(km.firstUnused) && dir.tables == old(dir.tables)
    ensures old(dir.Lookup(i)).None? ==> fresh(page)
    ensures AddsTable(old(dir.tables), dir.tables, i) && dir.tables[TableIndex(i)] != null
  {
    hide TableIndex, PageIndex, PageNumber, PageCeil, Directory.Separate, Directory.InStep, Extends, Clear;
    IndicesDetermine(i, 0);
    ghost var t := TableIndex(i);
    var got := GetPage(i, create, dir, km);
    page := got.value;
    MissingUpdate(old(dir.tables), t, dir.tables[t]);
    forall a | 0 <= a < WORD_LIMIT ensures KeepsEntry(old(dir.Lookup(a)), dir.Lookup(a)) {
      IndicesDetermine(a, i);
      if TableIndex(a) == t && old(dir.Lookup(i)).None? {
        assert dir.tables[t].pages[PageIndex(a)].Value() == EMPTY;
      }
    }
    if old(dir.Lookup(i)).None? {
      NewPages(old(dir.tables), dir, t);
    } else {
      assert dir.Pages() == old(dir.Pages());
    }
  }

  lemma NewPages(before: seq<PageTable?>, dir: Directory, t: nat)
    requires t < |before| == TABLES_PER_DIRECTORY && dir.Shape()
    requires dir.tables == before[t := dir.tables[t]] && dir.tables[t] != null
    ensures forall p :: p in dir.Pages() ==>
      || (exists x :: 0 <= x < PAGES_PER_TABLE && p == dir.tables[t].pages[x])
      || (exists i, x :: 0 <= i < |before| && before[i] != null && 0 <= x < |before[i].pages|
            && before[i].pages[x] == p)
  {
  }

  // ----- the identity loop -----

  /** get_page during the identity loop: new entries are empty, so nothing else gains a frame. */
  method GetMapping(i: nat, dir: Directory, km: BootMemory, ghost n: nat) returns (page: Page)
    requires km.Valid() && dir.Valid(km.tables) && i < WORD_LIMIT && Identity(dir, n)
    modifies dir, km
    ensures km.Valid() && dir.Valid(km.tables) && Identity(dir, n) && dir.Lookup(i) == Some(page)
    ensures fresh(dir.Pages() - old(dir.Pages())) && KeepsTables(old(dir.tables), dir.tables)
    ensures Reach(dir, km) <= old(Reach(dir, km)) && old(km.firstUnused) <= km.firstUnused
    ensures old(Clear(dir, km)) ==> Clear(dir, km)
    ensures AddsTable(old(dir.tables), dir.tables, i)
  {
    hide TableIndex, PageIndex, PageNumber, Directory.Separate, Directory.InStep, Reach;
    hide KeepsTables, AddsTable, Clear;
    page := Obtain(i, true, dir, km);
    forall a | 0 <= a < WORD_LIMIT
      ensures PageNumber(a) < n ==> dir.Lookup(a).Some?
      ensures dir.Lookup(a).Some? ==> IdentityEntry(dir.Lookup(a).value, PageNumber(a), n)
    {
      assert KeepsEntry(old(dir.Lookup(a)), dir.Lookup(a));
      if old(dir.Lookup(a)).Some? {
        assert old(IdentityEntry(dir.Lookup(a).value, PageNumber(a), n));
      }
    }
  }

  /** The entry found gets the frame of its own number. */
  method TakeFrame(i: nat, page: Page, dir: Directory, fa: FrameAllocator) returns (r: Outcome<()>)
    requires fa.Valid() && i < WORD_LIMIT && dir.Shape() && dir.Separate() && dir.Lookup(i) == Some(page)
    requires Identity(dir, PageNumber(i)) && FirstFrames(fa.Used(), PageNumber(i))
    modifies page, fa.frames.base
    ensures r.Done? ==> Identity(dir, PageNumber(i) + 1) && FirstFrames(fa.Used(), PageNumber(i) + 1)
    ensures r.Panic? ==> r.fault == NoFreeFrames && fa.Capacity() <= PageNumber(i)
  {
    hide TableIndex, PageIndex, PageNumber, Directory.Separate, Directory.Lookup, Directory.Pages;
    ghost var n := PageNumber(i);
    NextFrame(fa.Used(), n, fa.Capacity());
    dir.LookupInPages(i);
    assert page.address == 0;
    r := PageAlloc(page, fa, false, true);
    if r.Panic? { return; }
    assert page.address == n;
    forall a | 0 <= a < WORD_LIMIT
      ensures PageNumber(a) < n + 1 ==> dir.Lookup(a).Some?
      ensures dir.Lookup(a).Some? ==> IdentityEntry(dir.Lookup(a).value, PageNumber(a), n + 1)
    {
      if dir.Lookup(a) == Some(page) {
        dir.LookupInjective(a, i);
      } else {
        if PageNumber(a) == n { SamePage(dir, a, i); }
        if dir.Lookup(a).Some? { assert old(IdentityEntry(dir.Lookup(a).value, PageNumber(a), n)); }
      }
    }
  }

  lemma SamePage(dir: Directory, a: nat, b: nat)
    requires dir.Shape() && a < WORD_LIMIT && b < WORD_LIMIT && PageNumber(a) == PageNumber(b)
    ensures dir.Lookup(a) == dir.Lookup(b)
  {
    hide TableIndex, PageIndex, PageNumber;
    IndicesDetermine(a, b);
  }

  /** One turn of the identity loop; its assertion holds. */
  method MapOne(i: nat, dir: Directory, km: BootMemory, fa: FrameAllocator) returns (r: Outcome<()>)
    requires Ready(dir, km, fa) && i < WORD_LIMIT
    requires Identity(dir, PageNumber(i)) && FirstFrames(fa.Used(), PageNumber(i))
    modifies dir, km, dir.Pages(), fa.frames.base
    ensures r.Done? ==> Ready(dir, km, fa)
    ensures r.Done? ==> Identity(dir, PageNumber(i) + 1) && FirstFrames(fa.Used(), PageNumber(i) + 1)
    ensures r.Panic? ==> r.fault == NoFreeFrames && fa.Capacity() <= PageNumber(i)
    ensures fresh(dir.Pages() - old(dir.Pages())) && KeepsTables(old(dir.tables), dir.tables)
    ensures Reach(dir, km) <= old(Reach(dir, km)) && old(km.firstUnused) <= km.firstUnused
    ensures AddsTable(old(dir.tables), dir.tables, i)
  {
    hide PageNumber, Reach, KeepsTables, AddsTable, Directory.Separate, Directory.InStep, Directory.Lookup;
    assert forall x: nat :: x in fa.Used() <==> x < PageNumber(i);
    var page := GetMapping(i, dir, km, PageNumber(i));
    dir.LookupInPages(i);
    assert FirstFrames(fa.Used(), PageNumber(i));
    hide Identity, FirstFrames;
    r := TakeFrame(i, page, dir, fa);
  }

  lemma NextPage(i: nat)
    ensures PageNumber(i + PAGE_SIZE) == PageNumber(i) + 1 && PageNumber(0) == 0
    ensures i % PAGE_SIZE == 0 ==> (i + PAGE_SIZE) % PAGE_SIZE == 0 && PageNumber(i) * PAGE_SIZE == i
    ensures i % PAGE_SIZE == 0 && i < WORD_LIMIT ==> i + PAGE_SIZE <= WORD_LIMIT
  {
  }

  /**
   * The identity loop of src/mm/paging.c:59-69. Its bound moves as tables are made, yet it ends, every page gets the
   * frame of its own number, and the bound reached leaves four pages beyond the first unused byte.
   */
  method IdentityMap(dir: Directory, km: BootMemory, fa: FrameAllocator) returns (r: Outcome<nat>)
    requires Ready(dir, km, fa) && Identity(dir, 0) && FirstFrames(fa.Used(), 0)
    requires Reach(dir, km) + SLACK <= WORD_LIMIT && TablesWithin(dir.tables, 0)
    modifies dir, km, dir.Pages(), fa.frames.base
    ensures r.Done? ==> TablesWithin(dir.tables, r.value)
    ensures r.Done? ==>
      && Ready(dir, km, fa) && r.value % PAGE_SIZE == 0 && r.value <= WORD_LIMIT
      && km.firstUnused + 0x4000 <= r.value < km.firstUnused + 0x5000
      && Identity(dir, PageNumber(r.value)) && FirstFrames(fa.Used(), PageNumber(r.value))
    ensures r.Panic? ==> r.fault == NoFreeFrames && fa.Capacity() * PAGE_SIZE < old(Reach(dir, km)) + SLACK
    ensures fresh(dir.Pages() - old(dir.Pages())) && KeepsTables(old(dir.tables), dir.tables)
    ensures Reach(dir, km) <= old(Reach(dir, km))
  {
    hide Identity, FirstFrames, PageNumber, Directory.Separate, Directory.InStep, TablesWithin, AddsTable;
    var i: nat := 0;
    NextPage(0);
    while i < km.firstUnused + SLACK
      invariant Ready(dir, km, fa) && i % PAGE_SIZE == 0 && i < km.firstUnused + SLACK + PAGE_SIZE && i <= WORD_LIMIT
      invariant Identity(dir, PageNumber(i)) && FirstFrames(fa.Used(), PageNumber(i))
      invariant fresh(dir.Pages() - old(dir.Pages())) && KeepsTables(old(dir.tables), dir.tables)
      invariant Reach(dir, km) <= old(Reach(dir, km)) && TablesWithin(dir.tables, i)
      decreases Reach(dir, km) + SLACK - i
    {
      NextPage(i);
      ghost var tables := dir.tables;
      var mapped := MapOne(i, dir, km, fa);
      if mapped.Panic? { return Panic(mapped.fault); }
      StillWithin(tables, dir.tables, i, i, i + PAGE_SIZE);
      i := i + PAGE_SIZE;
    }
    return Done(i);
  }

  // ----- pages and frames after the identity loop -----

  /** The first `n` pages are present and map to themselves, whatever the others do. */
  ghost predicate IdentityBelow(dir: Directory, n: nat)
    requires dir.Shape()
    reads dir, dir.Pages()
  {
    forall a :: 0 <= a < WORD_LIMIT && PageNumber(a) < n ==>
      var e := dir.Lookup(a);
      dir.LookupInPages(a);
      e.Some? && IdentityEntry(e.value, PageNumber(a), n)
  }

  lemma IdentityIsBelow(dir: Directory, n: nat)
    requires dir.Shape() && Identity(dir, n)
    ensures IdentityBelow(dir, n)
  {
    hide PageNumber, Directory.Lookup;
  }

  /** Every page with a frame is open, its frame is used, and no other page has that frame. */
  ghost predicate OwnedPages(pages: set<Page>, used: iset<nat>)
    reads pages
  {
    && (forall p :: p in pages && p.address != 0 ==> p.Open() && p.address in used && p.address < FRAME_LIMIT)
    && (forall p, q :: p in pages && q in pages && p != q && p.address != 0 ==> p.address != q.address)
  }

  ghost predicate Owned(dir: Directory, used: iset<nat>)
    reads dir, dir.Pages()
  {
    OwnedPages(dir.Pages(), used)
  }

  lemma EntryOfPage(dir: Directory, n: nat, p: Page) returns (a: nat)
    requires dir.Shape() && Identity(dir, n) && p in dir.Pages()
    ensures a < WORD_LIMIT && dir.Lookup(a) == Some(p) && IdentityEntry(p, PageNumber(a), n)
    ensures PageNumber(a) < FRAME_LIMIT
  {
    hide PageNumber;
    a := dir.AddressOfPage(p);
    IndicesDetermine(a, a);
  }

  lemma IdentityOwned(dir: Directory, n: nat, used: iset<nat>)
    requires dir.Shape() && Identity(dir, n) && FirstFrames(used, n)
    ensures Owned(dir, used)
  {
    hide Identity, PageNumber;
    forall p | p in dir.Pages() && p.address != 0
      ensures p.Open() && p.address in used && p.address < FRAME_LIMIT
    {
      var a := EntryOfPage(dir, n, p);
    }
    forall p, q | p in dir.Pages() && q in dir.Pages() && p != q && p.address != 0 ensures p.address != q.address {
      var a := EntryOfPage(dir, n, p);
      var c := EntryOfPage(dir, n, q);
      if PageNumber(a) == PageNumber(c) { SamePage(dir, a, c); }
    }
  }

  /** The page of address `a` is open and has a frame: its own number below `n`, a frame from `n` on otherwise. */
  ghost predicate Mapped(dir: Directory, a: nat, n: nat)
    requires dir.Shape()
    reads dir, dir.Pages()
  {
    && a < WORD_LIMIT && dir.Lookup(a).Some?
    && var p := dir.Lookup(a).value;
       dir.LookupInPages(a);
       p.Open() && p.address != 0 && if PageNumber(a) < n then p.address == PageNumber(a) else p.address >= n
  }

  /** Two mapped pages never share a frame. */
  lemma MappedApart(dir: Directory, used: iset<nat>, a: nat, b: nat, n: nat)
    requires dir.Shape() && dir.Separate() && Owned(dir, used) && Mapped(dir, a, n) && Mapped(dir, b, n)
    requires PageNumber(a) != PageNumber(b)
    ensures dir.Lookup(a).value.address != dir.Lookup(b).value.address
  {
    hide PageNumber, TableIndex, PageIndex;
    dir.LookupInPages(a);
    dir.LookupInPages(b);
    if dir.Lookup(a) == dir.Lookup(b) { dir.LookupInjective(a, b); }
  }

  /** A page with a frame is mapped: the frames below `n` belong to the identity pages. */
  lemma FrameMeansMapped(dir: Directory, used: iset<nat>, a: nat, n: nat)
    requires dir.Shape() && dir.Separate() && Owned(dir, used) && IdentityBelow(dir, n) && n <= FRAME_LIMIT
    requires a < WORD_LIMIT && dir.Lookup(a).Some? && dir.Lookup(a).value.address != 0
    ensures Mapped(dir, a, n)
  {
    hide PageNumber, TableIndex, PageIndex, PageStart;
    dir.LookupInPages(a);
    var p := dir.Lookup(a).value;
    if p.address < n && n <= PageNumber(a) {
      var b := PageStart(p.address);
      OwnPage(p.address);
      dir.LookupInPages(b);
      assert IdentityEntry(dir.Lookup(b).value, PageNumber(b), n);
      if dir.Lookup(a) == dir.Lookup(b) { dir.LookupInjective(a, b); }
    }
  }

  /** What holds from the end of the identity loop on. */
  ghost predicate Stable(dir: Directory, fa: FrameAllocator, n: nat)
    reads dir, dir.Pages(), fa.frames.base
  {
    && dir.Shape() && dir.Separate() && fa.Valid() && 0 < n <= FRAME_LIMIT && 0 in fa.Used()
    && IdentityBelow(dir, n) && Owned(dir, fa.Used())
  }

  /** Pages with a frame keep their entries. */
  twostate predicate KeepsFrames(pages: set<Page>)
    reads pages
  {
    forall p :: p in pages && old(p.address) != 0 ==> p.Value() == old(p.Value())
  }

  /** No frame from `k` on is used. */
  ghost predicate UsedBelow(used: iset<nat>, k: nat) {
    forall f: nat :: f in used ==> f < k
  }

  /** page_alloc of one of some pages gives it a frame that no other has, and it is the lowest there is. */
  method AllocOwned(page: Page, fa: FrameAllocator, ghost pages: set<Page>, ghost k: nat) returns (r: Outcome<()>)
    requires UsedBelow(fa.Used(), k)
    requires fa.Valid() && 0 in fa.Used() && OwnedPages(pages, fa.Used()) && page in pages
    modifies page, fa.frames.base
    ensures r.Panic? ==> r.fault == NoFreeFrames && fa.Capacity() <= k
    ensures r.Done? ==> UsedBelow(fa.Used(), k + 1)
    ensures r.Done? ==> 0 in fa.Used() && OwnedPages(pages, fa.Used()) && page.address != 0
    ensures KeepsFrames(pages)
  {
    hide IsStep;
    BelowFree(fa.Used(), fa.Capacity(), k);
    r := PageAlloc(page, fa, false, true);
  }

  lemma BelowFree(used: iset<nat>, cap: nat, k: nat)
    requires UsedBelow(used, k)
    ensures forall f: nat :: LeastFree(used, cap, f) ==> f <= k
    ensures (forall i :: 0 <= i < cap ==> i in used) ==> cap <= k
  {
    assert k !in used;
  }

  /** page_alloc of one page: no other page changes, and the page is mapped. */
  method GiveFrame(i: nat, page: Page, dir: Directory, fa: FrameAllocator, ghost n: nat, ghost k: nat)
    returns (r: Outcome<()>)
    requires UsedBelow(fa.Used(), k)
    requires Stable(dir, fa, n) && i < WORD_LIMIT && PageNumber(i) > 0 && dir.Lookup(i) == Some(page)
    modifies page, fa.frames.base
    ensures r.Panic? ==> r.fault == NoFreeFrames && fa.Capacity() <= k
    ensures r.Done? ==> UsedBelow(fa.Used(), k + 1)
    ensures r.Done? ==> Stable(dir, fa, n) && Mapped(dir, i, n)
    ensures KeepsFrames(dir.Pages())
  {
    hide PageNumber, UsedBelow, TableIndex, PageIndex, Directory.Pages, Directory.Lookup, Directory.Separate;
    dir.LookupInPages(i);
    r := AllocOwned(page, fa, dir.Pages(), k);
    if r.Panic? { return; }
    hide OwnedPages;
    forall a | 0 <= a < WORD_LIMIT && PageNumber(a) < n
      ensures dir.Lookup(a).Some? && IdentityEntry(dir.Lookup(a).value, PageNumber(a), n)
    {
      assert old(IdentityEntry(dir.Lookup(a).value, PageNumber(a), n));
      if dir.Lookup(a) == Some(page) { dir.LookupInjective(a, i); }
    }
    FrameMeansMapped(dir, fa.Used(), i, n);
  }

  /** get_page keeps what holds after the identity loop: making a table adds only empty pages. */
  method ObtainStable(i: nat, create: bool, dir: Directory, km: BootMemory, fa: FrameAllocator, ghost n: nat)
    returns (page: Page)
    requires Ready(dir, km, fa) && Stable(dir, fa, n) && i < WORD_LIMIT && (create || dir.Lookup(i).Some?)
    modifies dir, km
    ensures Ready(dir, km, fa) && Stable(dir, fa, n) && dir.Lookup(i) == Some(page)
    ensures fresh(dir.Pages() - old(dir.Pages())) && KeepsTables(old(dir.tables), dir.tables)
    ensures old(km.firstUnused) <= km.firstUnused < old(km.firstUnused) + 2 * PAGE_SIZE
    ensures old(dir.Lookup(i)).Some? ==> km.firstUnused == old(km.firstUnused) && dir.tables == old(dir.tables)
    ensures AddsTable(old(dir.tables), dir.tables, i)
  {
    hide PageNumber, TableIndex, PageIndex, Directory.Separate, Directory.InStep, KeepsTables, Reach, AddsTable;
    page := Obtain(i, create, dir, km);
    forall a | 0 <= a < WORD_LIMIT && PageNumber(a) < n
      ensures dir.Lookup(a).Some? && IdentityEntry(dir.Lookup(a).value, PageNumber(a), n)
    {
      assert KeepsEntry(old(dir.Lookup(a)), dir.Lookup(a));
      assert old(IdentityEntry(dir.Lookup(a).value, PageNumber(a), n));
    }
    assert OwnedPages(dir.Pages(), fa.Used());
  }

  /** page_alloc(get_page(i, ...)): the page is mapped, and every page mapped before stays so. */
  method MapPage(i: nat, create: bool, dir: Directory, km: BootMemory, fa: FrameAllocator, ghost n: nat, ghost k: nat)
    returns (r: Outcome<()>, page: Page)
    requires UsedBelow(fa.Used(), k)
    requires Ready(dir, km, fa) && Stable(dir, fa, n) && i < WORD_LIMIT && PageNumber(i) > 0
    requires create || dir.Lookup(i).Some?
    modifies dir, km, dir.Pages(), fa.frames.base
    ensures Ready(dir, km, fa)
    ensures r.Panic? ==> r.fault == NoFreeFrames && fa.Capacity() <= k
    ensures r.Done? ==> UsedBelow(fa.Used(), k + 1)
    ensures r.Done? ==> Stable(dir, fa, n) && Mapped(dir, i, n) && dir.Lookup(i) == Some(page)
    ensures AddsTable(old(dir.tables), dir.tables, i)
    ensures KeepsFrames(old(dir.Pages())) && KeepsTables(old(dir.tables), dir.tables)
    ensures old(km.firstUnused) <= km.firstUnused < old(km.firstUnused) + 2 * PAGE_SIZE
    ensures old(dir.Lookup(i)).Some? ==> km.firstUnused == old(km.firstUnused) && dir.tables == old(dir.tables)
    ensures fresh(dir.Pages() - old(dir.Pages()))
  {
    hide PageNumber, TableIndex, PageIndex, Directory.Separate, Directory.InStep, KeepsTables, Reach;
    hide Directory.Lookup, OwnedPages, Mapped, UsedBelow, AddsTable;
    ghost var pages := dir.Pages();
    page := ObtainStable(i, create, dir, km, fa, n);
    dir.LookupInPages(i);
    r := GiveFrame(i, page, dir, fa, n, k);
  }

  // ----- the whole of init_paging up to the heap -----

  ghost predicate HeapTablesPresent(dir: Directory)
    requires dir.Shape()
    reads dir
  {
    forall a :: KHEAP_START <= a < KHEAP_END ==> dir.Lookup(a).Some?
  }

  /** The initial heap lies in one table, and not in page 0. */
  lemma HeapTable(a: nat)
    requires KHEAP_START <= a < KHEAP_END
    ensures TableIndex(a) == 60 && PageNumber(a) > 0
  {
  }

  lemma HeapTablesKept(before: seq<PageTable?>, dir: Directory)
    requires dir.Shape() && KeepsTables(before, dir.tables) && before[60] != null
    ensures HeapTablesPresent(dir)
  {
    hide TableIndex, PageIndex, PageNumber;
    forall a | KHEAP_START <= a < KHEAP_END ensures dir.Lookup(a).Some? {
      HeapTable(a);
    }
  }

  /** src/mm/paging.c:50-57: the tables of the heap are made before the identity loop, for sixteen pages. */
  method PrepareHeapTables(dir: Directory, km: BootMemory)
    requires km.Valid() && dir.Valid(km.tables) && Identity(dir, 0) && TablesWithin(dir.tables, 0)
    modifies dir, km
    ensures km.Valid() && dir.Valid(km.tables) && Identity(dir, 0) && TablesWithin(dir.tables, 0)
    ensures fresh(dir.Pages() - old(dir.Pages())) && Reach(dir, km) <= old(Reach(dir, km))
    ensures old(Clear(dir, km)) ==> Clear(dir, km)
    ensures dir.tables[60] != null && HeapTablesPresent(dir)
  {
    hide Identity, TableIndex, PageIndex, PageNumber, Reach, Directory.Separate, Directory.InStep, HeapTablesPresent;
    hide TablesWithin, Clear;
    var i: nat := KHEAP_START;
    while i < KHEAP_END
      invariant old(Clear(dir, km)) ==> Clear(dir, km)
      invariant km.Valid() && dir.Valid(km.tables) && Identity(dir, 0) && TablesWithin(dir.tables, 0)
      invariant KHEAP_START <= i && (i == KHEAP_START || dir.tables[60] != null)
      invariant fresh(dir.Pages() - old(dir.Pages())) && Reach(dir, km) <= old(Reach(dir, km))
    {
      ghost var tables := dir.tables;
      var page := GetMapping(i, dir, km, 0);
      HeapTable(i);
      StillWithin(tables, dir.tables, i, 0, 0);
      i := i + PAGE_SIZE;
    }
    HeapTablesKept(dir.tables, dir);
  }

  /** All pages that start below `i` of the initial heap are mapped. */
  ghost predicate HeapMapped(dir: Directory, i: nat, n: nat)
    requires dir.Shape()
    reads dir, dir.Pages()
  {
    forall a :: KHEAP_START <= a < i ==> Mapped(dir, a, n)
  }

  lemma SamePageMapped(dir: Directory, i: nat, n: nat)
    requires dir.Shape() && i % PAGE_SIZE == 0 && i + PAGE_SIZE <= WORD_LIMIT && Mapped(dir, i, n)
    ensures forall a :: i <= a < i + PAGE_SIZE ==> Mapped(dir, a, n)
  {
    forall a | i <= a < i + PAGE_SIZE ensures Mapped(dir, a, n) {
      InPage(i, a);
      SamePage(dir, i, a);
    }
  }

  lemma InPage(i: nat, a: nat)
    requires i % PAGE_SIZE == 0 && i <= a < i + PAGE_SIZE
    ensures PageNumber(a) == PageNumber(i)
  {
  }

  /** One turn of the loop of MapHeap. */
  method MapHeapPage(i: nat, dir: Directory, km: BootMemory, fa: FrameAllocator, ghost n: nat, ghost k: nat)
    returns (r: Outcome<()>)
    requires UsedBelow(fa.Used(), k)
    requires Ready(dir, km, fa) && Stable(dir, fa, n) && KHEAP_START <= i < KHEAP_END && i % PAGE_SIZE == 0
    requires dir.Lookup(i).Some? && HeapMapped(dir, i, n)
    modifies dir, km, dir.Pages(), fa.frames.base
    ensures Ready(dir, km, fa) && km.firstUnused == old(km.firstUnused) && dir.tables == old(dir.tables)
    ensures r.Panic? ==> r.fault == NoFreeFrames && fa.Capacity() <= k
    ensures r.Done? ==> UsedBelow(fa.Used(), k + 1)
    ensures r.Done? ==> Stable(dir, fa, n) && HeapMapped(dir, i + PAGE_SIZE, n)
  {
    hide PageNumber, UsedBelow, AddsTable, TableIndex, PageIndex, Directory.Separate, Directory.InStep, Stable;
    HeapTable(i);
    var page;
    r, page := MapPage(i, false, dir, km, fa, n, k);
    if r.Panic? { return; }
    SamePageMapped(dir, i, n);
    assert dir.Pages() == old(dir.Pages());
    forall a | KHEAP_START <= a < i ensures Mapped(dir, a, n) {
      assert old(Mapped(dir, a, n));
      dir.LookupInPages(a);
    }
  }

  /** src/mm/paging.c:71-74: every page of the initial heap gets a frame, and no table is made */
  method MapHeap(dir: Directory, km: BootMemory, fa: FrameAllocator, ghost n: nat, ghost k: nat)
    returns (r: Outcome<()>)
    requires UsedBelow(fa.Used(), k)
    requires Ready(dir, km, fa) && Stable(dir, fa, n) && HeapTablesPresent(dir)
    modifies dir, km, dir.Pages(), fa.frames.base
    ensures Ready(dir, km, fa) && km.firstUnused == old(km.firstUnused) && dir.tables == old(dir.tables)
    ensures r.Panic? ==> r.fault == NoFreeFrames && fa.Capacity() < k + HEAP_PAGES
    ensures r.Done? ==> UsedBelow(fa.Used(), k + HEAP_PAGES)
    ensures r.Done? ==> Stable(dir, fa, n) && HeapMapped(dir, KHEAP_END, n)
  {
    hide PageNumber, UsedBelow, TableIndex, PageIndex, Directory.Separate, Directory.InStep, Stable, Mapped;
    var i: nat := KHEAP_START;
    ghost var done := 0;
    while i < KHEAP_END
      invariant KHEAP_START <= i <= KHEAP_END && i % PAGE_SIZE == 0
      invariant i == KHEAP_START + done * PAGE_SIZE && UsedBelow(fa.Used(), k + done)
      invariant Ready(dir, km, fa) && Stable(dir, fa, n)
      invariant km.firstUnused == old(km.firstUnused) && dir.tables == old(dir.tables) && HeapMapped(dir, i, n)
    {
      assert dir.Lookup(i) == old(dir.Lookup(i));
      r := MapHeapPage(i, dir, km, fa, n, k + done);
      if r.Panic? { return; }
      done := done + 1;
      i := i + PAGE_SIZE;
    }
    return Done(());
  }

  /** src/mm/paging.c:43-57 */
  method NewKernelDirectory(km: BootMemory) returns (dir: Directory)
    requires km.Valid() && km.tables == map[]
    modifies km
    ensures fresh(dir) && fresh(dir.Pages()) && km.Valid() && dir.Valid(km.tables)
    ensures Identity(dir, 0) && dir.tables[60] != null && TablesWithin(dir.tables, 0)
    ensures Reach(dir, km) <= old(km.firstUnused) + PAGE_SIZE + DIRECTORY_BYTES + TABLES_PER_DIRECTORY * 2 * PAGE_SIZE
    ensures Clear(dir, km) && old(km.firstUnused) <= dir.address && dir.address % PAGE_SIZE == 0
  {
    hide PageNumber, TableIndex, PageIndex, Directory.Separate;
    var physical := km.Kmalloc(DIRECTORY_BYTES, true);
    dir := new Directory(physical);
    AllMissing(dir.tables);
    forall a | 0 <= a < WORD_LIMIT ensures dir.Lookup(a).None? { IndicesDetermine(a, 0); }
    PrepareHeapTables(dir, km);
  }

  lemma BufferPage()
    ensures PageNumber(PAGE_CLONING_BUFFER) == 0xF0000 && TableIndex(PAGE_CLONING_BUFFER) == 960
  {
  }

  /** src/mm/paging.c:71-78: the heap and the cloning buffer */
  method MapRest(dir: Directory, km: BootMemory, fa: FrameAllocator, ghost n: nat, ghost k: nat, ghost bound: nat)
    returns (r: Outcome<Page>)
    requires UsedBelow(fa.Used(), k) && TablesWithin(dir.tables, bound)
    requires Ready(dir, km, fa) && Stable(dir, fa, n) && HeapTablesPresent(dir)
    modifies dir, km, dir.Pages(), fa.frames.base
    ensures r.Panic? ==> r.fault == NoFreeFrames && fa.Capacity() <= k + HEAP_PAGES
    ensures r.Done? ==> TablesWithin(dir.tables, bound) && UsedBelow(fa.Used(), k + HEAP_PAGES + 1)
    ensures r.Done? ==> Ready(dir, km, fa) && Stable(dir, fa, n)
    ensures r.Done? ==> HeapMapped(dir, KHEAP_END, n) && Mapped(dir, PAGE_CLONING_BUFFER, n)
    ensures r.Done? ==> dir.Lookup(PAGE_CLONING_BUFFER) == Some(r.value)
    ensures fresh(dir.Pages() - old(dir.Pages()))
    ensures old(km.firstUnused) <= km.firstUnused < old(km.firstUnused) + 2 * PAGE_SIZE
  {
    hide PageNumber, TableIndex, PageIndex, Directory.Separate, Directory.InStep, Stable, HeapTablesPresent;
    hide UsedBelow, TablesWithin, AddsTable;
    var heap := MapHeap(dir, km, fa, n, k);
    if heap.Panic? { return Panic(heap.fault); }
    BufferPage();
    label mapped:
    ghost var tables := dir.tables;
    var cloning, buffer := MapPage(PAGE_CLONING_BUFFER, true, dir, km, fa, n, k + HEAP_PAGES);
    if cloning.Panic? { return Panic(cloning.fault); }
    StillWithin(tables, dir.tables, PAGE_CLONING_BUFFER, bound, bound);
    hide Directory.Pages;
    forall a | KHEAP_START <= a < KHEAP_END ensures Mapped(dir, a, n) {
      IndicesDetermine(a, a);
      assert old@mapped(Mapped(dir, a, n));
    }
    return Done(buffer);
  }

  datatype Booted = Booted(dir: Directory, bound: nat, heapHeader: nat, buffer: Page)

  /**
   * What init_paging leaves behind: every byte the linear allocator ever handed out lies below the bound, all pages
   * below it are present and map to themselves, the heap's pages and the cloning buffer are present with frames
   * beyond it (unless they lie below it), no two pages share a frame, and no other tables exist.
   */
  ghost predicate Settled(b: Booted, km: BootMemory, fa: FrameAllocator)
    reads b.dir, b.dir.Pages(), km, fa.frames.base
  {
    var n := PageNumber(b.bound);
    && Ready(b.dir, km, fa) && Stable(b.dir, fa, n) && b.bound % PAGE_SIZE == 0
    && HeapMapped(b.dir, KHEAP_END, n) && Mapped(b.dir, PAGE_CLONING_BUFFER, n)
    && b.dir.Lookup(PAGE_CLONING_BUFFER) == Some(b.buffer)
    && b.heapHeader + 9 * 4 == km.firstUnused < b.bound && (forall a :: a in km.tables ==> a + 4 * 1024 <= b.heapHeader)
    && TablesWithin(b.dir.tables, b.bound)
  }

  /** In addresses: everything below the bound is mapped to itself, and the heap and the buffer page are mapped. */
  lemma BootedMeans(b: Booted, km: BootMemory, fa: FrameAllocator, a: nat)
    requires Settled(b, km, fa) && a < 0x1_0000_0000
    requires a < b.bound || 0x0F00_0000 <= a < 0x0F01_0000 || 0xF000_0000 <= a < 0xF000_1000
    ensures b.dir.Shape() && b.dir.Lookup(a).Some?
    ensures var p := b.dir.Lookup(a).value; p.present && p.writeable && p.userMode
    ensures a < b.bound ==> b.dir.Lookup(a).value.address == a / 4096
    ensures a >= b.bound ==> b.dir.Lookup(a).value.address >= b.bound / 4096
  {
    hide Directory.Separate, Directory.InStep, TablesWithin, Owned, TableIndex, PageIndex;
    var n := PageNumber(b.bound);
    b.dir.LookupInPages(a);
    if a < b.bound {
      assert PageNumber(a) < n;
    } else if a < 0x0F01_0000 {
      assert Mapped(b.dir, a, n);
    } else {
      InPage(PAGE_CLONING_BUFFER, a);
      SamePage(b.dir, PAGE_CLONING_BUFFER, a);
    }
  }

  /** src/mm/paging.c:71-88: the rest of the mapping, and the allocation in heap_create; the slack covers all of it */
  method FinishBoot(dir: Directory, km: BootMemory, fa: FrameAllocator, bound: nat) returns (r: Outcome<Booted>)
    requires Ready(dir, km, fa) && Stable(dir, fa, PageNumber(bound)) && HeapTablesPresent(dir)
    requires km.firstUnused + SLACK <= bound && bound % PAGE_SIZE == 0
    requires FirstFrames(fa.Used(), PageNumber(bound)) && TablesWithin(dir.tables, bound)
    modifies dir, km, dir.Pages(), fa.frames.base
    ensures r.Done? ==> r.value.dir == dir && r.value.bound == bound && Settled(r.value, km, fa)
    ensures r.Done? ==> UsedBelow(fa.Used(), PageNumber(bound) + HEAP_PAGES + 1)
    ensures fresh(dir.Pages() - old(dir.Pages()))
    ensures r.Panic? ==> r.fault == NoFreeFrames && fa.Capacity() <= PageNumber(bound) + HEAP_PAGES
  {
    hide PageNumber, TableIndex, PageIndex, Directory.Separate, HeapTablesPresent, TablesWithin;
    var buffer := MapRest(dir, km, fa, PageNumber(bound), PageNumber(bound), bound);
    if buffer.Panic? { return Panic(buffer.fault); }
    var header := km.Kmalloc(HEAP_T_BYTES, false);
    return Done(Booted(dir, bound, header, buffer.value));
  }

  lemma LoopStable(dir: Directory, fa: FrameAllocator, bound: nat)
    requires dir.Shape() && dir.Separate() && fa.Valid() && PAGE_SIZE <= bound <= WORD_LIMIT
    requires Identity(dir, PageNumber(bound)) && FirstFrames(fa.Used(), PageNumber(bound))
    ensures Stable(dir, fa, PageNumber(bound))
  {
    hide Identity, IdentityBelow, Owned;
    IdentityIsBelow(dir, PageNumber(bound));
    IdentityOwned(dir, PageNumber(bound), fa.Used());
  }

  lemma ReachBounds(dir: Directory, km: BootMemory)
    ensures km.firstUnused <= Reach(dir, km)
  {
  }

  /**
   * init_paging up to and including the allocation of the heap's own record. It always completes when there are
   * frames for everything boot can ever use, the heap and the cloning buffer.
   */
  method InitPaging(km: BootMemory, fa: FrameAllocator) returns (r: Outcome<Booted>)
    requires km.Valid() && km.tables == map[] && fa.Valid() && FirstFrames(fa.Used(), 0)
    requires km.firstUnused + BOOT_BYTES <= WORD_LIMIT
    modifies km, fa.frames.base
    ensures r.Done? ==> fresh(r.value.dir) && fresh(r.value.dir.Pages()) && Settled(r.value, km, fa)
    ensures r.Done? ==> r.value.bound < old(km.firstUnused) + BOOT_BYTES + PAGE_SIZE
    ensures r.Done? ==> UsedBelow(fa.Used(), PageNumber(r.value.bound) + HEAP_PAGES + 1)
    ensures r.Panic? ==> r.fault == NoFreeFrames
    ensures fa.Capacity() * PAGE_SIZE >= old(km.firstUnused) + BOOT_BYTES + (HEAP_PAGES + 1) * PAGE_SIZE ==> r.Done?
  {
    hide Identity, FirstFrames, HeapTablesPresent, PageNumber, Directory.Separate, Directory.InStep, Stable, Settled;
    hide TablesWithin, Reach;
    var dir := NewKernelDirectory(km);
    ghost var tables := dir.tables;
    assert FirstFrames(fa.Used(), 0);
    var bound := IdentityMap(dir, km, fa);
    if bound.Panic? { return Panic(bound.fault); }
    LoopStable(dir, fa, bound.value);
    NextPage(bound.value);
    ReachBounds(dir, km);
    HeapTablesKept(tables, dir);
    r := FinishBoot(dir, km, fa, bound.value);
  }
}
