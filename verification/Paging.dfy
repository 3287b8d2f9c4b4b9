/** src/mm/paging.c: the two-level page tables, and the boot-time allocator of src/kmalloc.c behind them. */
module Paging {
  import opened Machine
  import opened Frames

  const PAGES_PER_TABLE: nat := 1024
  const TABLES_PER_DIRECTORY: nat := 1024
  const TABLE_BYTES: nat := 4096
  const PAGE_CLONING_BUFFER: nat := 0xF000_0000

  function PageNumber(address: nat): nat { address / PAGE_SIZE }
  function TableIndex(address: nat): nat { PageNumber(address) / PAGES_PER_TABLE }
  function PageIndex(address: nat): nat { PageNumber(address) % PAGES_PER_TABLE }

  /** The two indices determine the page number. */
  lemma IndicesDetermine(a: nat, b: nat)
    ensures TableIndex(a) == TableIndex(b) && PageIndex(a) == PageIndex(b) <==> PageNumber(a) == PageNumber(b)
    ensures a < WORD_LIMIT ==> TableIndex(a) < TABLES_PER_DIRECTORY && PageNumber(a) < FRAME_LIMIT
    ensures PageIndex(a) < PAGES_PER_TABLE
  {
    hide PageNumber;
    Recompose(PageNumber(a));
    Recompose(PageNumber(b));
    if a < WORD_LIMIT { PageNumberBound(a); }
  }

  lemma Recompose(p: nat)
    ensures p == PAGES_PER_TABLE * (p / PAGES_PER_TABLE) + p % PAGES_PER_TABLE
  {
  }

  lemma PageNumberBound(a: nat)
    requires a < WORD_LIMIT
    ensures PageNumber(a) < FRAME_LIMIT
  {
  }

  /** The address of page `x` of table `t`. */
  function AddressOf(t: nat, x: nat): nat {
    (t * PAGES_PER_TABLE + x) * PAGE_SIZE
  }

  lemma AddressIndices(t: nat, x: nat)
    requires t < TABLES_PER_DIRECTORY && x < PAGES_PER_TABLE
    ensures AddressOf(t, x) < WORD_LIMIT && TableIndex(AddressOf(t, x)) == t && PageIndex(AddressOf(t, x)) == x
  {
  }

  /** Where page number `n` starts. */
  function PageStart(n: nat): nat { n * PAGE_SIZE }

  lemma OwnPage(n: nat)
    requires n < FRAME_LIMIT
    ensures PageStart(n) < WORD_LIMIT && PageNumber(PageStart(n)) == n
  {
  }

  class PageTable {
    const pages: seq<Page>

    ghost predicate Valid() {
      |pages| == PAGES_PER_TABLE && forall i, j :: 0 <= i < j < |pages| ==> pages[i] != pages[j]
    }

    /** A table as memset leaves it: 1024 empty entries. */
    constructor ()
      ensures Valid()
      ensures forall i :: 0 <= i < |pages| ==> fresh(pages[i]) && pages[i].Value() == EMPTY
    {
      var s: seq<Page> := [];
      var n := 0;
      while n < PAGES_PER_TABLE
        invariant n == |s| <= PAGES_PER_TABLE
        invariant forall i :: 0 <= i < |s| ==> fresh(s[i]) && s[i].Value() == EMPTY
        invariant forall i, j :: 0 <= i < j < |s| ==> s[i] != s[j]
      {
        var p := new Page();
        s := s + [p];
        n := n + 1;
      }
      pages := s;
    }
  }

  /** __linear_kmalloc; addresses are physical. `tables` records which table lives at which address. */
  class BootMemory {
    var firstUnused: nat
    ghost var tables: map<nat, PageTable>

    /** Every table lies below the first unused byte. */
    ghost predicate Valid()
      reads this
    {
      0 < firstUnused && forall a :: a in tables ==> a % PAGE_SIZE == 0 && 0 < a && a + 4 * 1024 <= firstUnused
    }

    constructor (first: nat)
      requires 0 < first
      ensures Valid() && firstUnused == first && tables == map[]
    {
      firstUnused := first;
      tables := map[];
    }

    method Kmalloc(size: nat, align: bool) returns (res: nat)
      requires Valid()
      modifies this`firstUnused
      ensures Valid()
      ensures res == if align then PageCeil(old(firstUnused)) else old(firstUnused)
      ensures firstUnused == res + size
    {
      if align && firstUnused % PAGE_SIZE != 0 {
        firstUnused := PageFloor(firstUnused);
        firstUnused := firstUnused + PAGE_SIZE;
      }
      res := firstUnused;
      firstUnused := firstUnused + size;
    }

    /** kmalloc_ap of a page table, zeroed */
    method NewTable() returns (t: PageTable, physical: nat)
      requires Valid()
      modifies this
      ensures Valid() && t.Valid() && fresh(t)
      ensures forall i :: 0 <= i < |t.pages| ==> fresh(t.pages[i]) && t.pages[i].Value() == EMPTY
      ensures physical == PageCeil(old(firstUnused)) && firstUnused == physical + TABLE_BYTES
      ensures physical !in old(tables) && tables == old(tables)[physical := t]
    {
      physical := Kmalloc(TABLE_BYTES, true);
      t := new PageTable();
      tables := tables[physical := t];
    }
  }

  class Directory {
    /** Where the structure itself lies in memory. */
    const address: nat
    var tables: seq<PageTable?>
    var physical: seq<nat>

    ghost predicate Shape()
      reads this
    {
      && |tables| == TABLES_PER_DIRECTORY && |physical| == TABLES_PER_DIRECTORY
      && (forall i :: 0 <= i < |tables| && tables[i] != null ==> tables[i].Valid())
    }

    /** No page belongs to two tables. */
    ghost predicate Separate()
      reads this
    {
      forall i, j, x, y {:trigger tables[i].pages[x], tables[j].pages[y]} ::
        0 <= i < |tables| && 0 <= j < |tables| && i != j && tables[i] != null && tables[j] != null
        && 0 <= x < |tables[i].pages| && 0 <= y < |tables[j].pages| ==>
        tables[i].pages[x] != tables[j].pages[y]
    }

    /** The physical array names the tables of the virtual array: address with present, writeable and user bits. */
    ghost predicate InStep(at: map<nat, PageTable>)
      requires Shape()
      reads this
    {
      forall i :: 0 <= i < TABLES_PER_DIRECTORY ==>
        if tables[i] == null then physical[i] == 0
        else physical[i] % PAGE_SIZE == 7 && physical[i] - 7 in at && at[physical[i] - 7] == tables[i]
    }

    ghost predicate Valid(at: map<nat, PageTable>)
      reads this
    {
      Shape() && Separate() && InStep(at)
    }

    /** The kernel's view: the entry of a virtual address. */
    ghost function Lookup(address: nat): Option<Page>
      requires Shape() && address < WORD_LIMIT
      reads this
    {
      IndicesDetermine(address, 0);
      if tables[TableIndex(address)] == null then None
      else Some(tables[TableIndex(address)].pages[PageIndex(address)])
    }

    /** Every entry of every table. */
    ghost function Pages(): set<Page>
      reads this
    {
      set i, x | 0 <= i < |tables| && tables[i] != null && 0 <= x < |tables[i].pages| :: tables[i].pages[x]
    }

    lemma AllInPages()
      ensures forall i, x :: 0 <= i < |tables| && tables[i] != null && 0 <= x < |tables[i].pages| ==>
        tables[i].pages[x] in Pages()
    {
    }

    lemma LookupInPages(address: nat)
      requires Shape() && address < WORD_LIMIT
      ensures Lookup(address).Some? ==> Lookup(address).value in Pages()
    {
      IndicesDetermine(address, 0);
    }

    /** Where an entry stands. */
    lemma SlotOfPage(p: Page) returns (i: nat, x: nat)
      requires p in Pages()
      ensures i < |tables| && tables[i] != null && x < |tables[i].pages| && tables[i].pages[x] == p
    {
      i, x :| 0 <= i < |tables| && tables[i] != null && 0 <= x < |tables[i].pages| && tables[i].pages[x] == p;
    }

    /** Every entry is the entry of some address. */
    lemma AddressOfPage(p: Page) returns (a: nat)
      requires Shape() && p in Pages()
      ensures a < WORD_LIMIT && Lookup(a) == Some(p)
    {
      var i, x := SlotOfPage(p);
      a := AddressOf(i, x);
      AddressIndices(i, x);
    }

    /**
     * The processor's view, by the walk of section 4.3 of the Intel SDM, volume 3A: the entry it goes by for a write in
     * user mode, for which the directory must have the table present, writeable and accessible to user mode.
     */
    ghost function Walk(address: nat, at: map<nat, PageTable>): Option<Page>
      requires Shape() && address < WORD_LIMIT
      reads this
    {
      var pde := physical[address / 0x40_0000];
      if pde % 8 != 7 then None
      else if pde - pde % 0x1000 !in at then None
      else
        var t := at[pde - pde % 0x1000];
        var i := address / 0x1000 % 0x400;
        if i < |t.pages| then Some(t.pages[i]) else None
    }

    /** An empty directory, as memset leaves it. */
    constructor (address: nat)
      ensures Valid(map[]) && forall i :: 0 <= i < |tables| ==> tables[i] == null
      ensures this.address == address
    {
      this.address := address;
      tables := seq(TABLES_PER_DIRECTORY, _ => null);
      physical := seq(TABLES_PER_DIRECTORY, _ => 0);
    }

    /** Kernel and processor reach the same entry, for every address. */
    lemma WalkIsLookup(address: nat, at: map<nat, PageTable>)
      requires Valid(at) && address < WORD_LIMIT
      ensures Walk(address, at) == Lookup(address)
    {
      hide TableIndex, PageIndex, PageFloor, Directory.Separate;
      IndicesDetermine(address, 0);
      AddressBits(address);
      var i := TableIndex(address);
      if tables[i] != null { PresentBit(physical[i]); }
    }

    /** Distinct pages have distinct entries. */
    lemma LookupInjective(a: nat, b: nat)
      requires Shape() && Separate() && a < WORD_LIMIT && b < WORD_LIMIT
      requires Lookup(a).Some? && Lookup(a) == Lookup(b)
      ensures PageNumber(a) == PageNumber(b)
    {
      hide TableIndex, PageIndex, PageNumber;
      IndicesDetermine(a, b);
      IndicesDetermine(b, a);
    }
  }

  /** The upper ten and the middle ten bits of an address. */
  lemma AddressBits(address: nat)
    ensures TableIndex(address) == address / 0x40_0000 && PageIndex(address) == address / 0x1000 % 0x400
  {
  }

  /** A table's address with its three low bits set: present, writeable, user; and the floor drops them. */
  lemma PresentBit(pde: nat)
    requires pde % PAGE_SIZE == 7
    ensures pde % 8 == 7 && pde - pde % 0x1000 == pde - 7
  {
    assert pde == 8 * (512 * (pde / PAGE_SIZE)) + 7;
  }

  lemma TableBits(physical: nat)
    requires physical % PAGE_SIZE == 0
    ensures (physical + 7) % PAGE_SIZE == 7
  {
  }

  /** Enter a table whose pages no other table has. */
  method Install(i: nat, dir: Directory, table: PageTable, physical: nat,
                 ghost at: map<nat, PageTable>, ghost at': map<nat, PageTable>)
    requires dir.Valid(at) && i < TABLES_PER_DIRECTORY && dir.tables[i] == null
    requires table.Valid() && physical % PAGE_SIZE == 0 && physical !in at && at' == at[physical := table]
    requires forall p :: p in table.pages ==> p !in dir.Pages()
    modifies dir
    ensures dir.Valid(at')
    ensures dir.tables == old(dir.tables)[i := table] && dir.physical == old(dir.physical)[i := physical + 7]
  {
    TableBits(physical);
    dir.tables := dir.tables[i := table];
    dir.physical := dir.physical[i := physical + 7];
    forall j, x, y | 0 <= j < TABLES_PER_DIRECTORY && j != i && dir.tables[j] != null
        && 0 <= x < PAGES_PER_TABLE && 0 <= y < PAGES_PER_TABLE
      ensures table.pages[x] != dir.tables[j].pages[y]
    {
      assert table.pages[x] in table.pages;
      assert old(dir.tables)[j] == dir.tables[j];
      assert old(dir.tables)[j].pages[y] in old(dir.Pages());
    }
  }

  /**
   * The directory, two arrays of 1024 words and one more word, ends below every table and below the first unused byte.
   */
  ghost predicate Clear(dir: Directory, km: BootMemory)
    reads km
  {
    var end := dir.address + 4 * 1024 + 4 * 1024 + 4;
    end <= km.firstUnused && forall a :: a in km.tables ==> end <= a
  }

  /** The same of a directory made later: it lies on no table, and below the first unused byte. */
  ghost predicate Away(dir: Directory, km: BootMemory)
    reads km
  {
    var end := dir.address + 4 * 1024 + 4 * 1024 + 4;
    end <= km.firstUnused && forall a :: a in km.tables ==> a + 4 * 1024 <= dir.address || end <= a
  }

  /** Every table stays where it is. */
  ghost predicate Extends(at: map<nat, PageTable>, at': map<nat, PageTable>) {
    forall a :: a in at ==> a in at' && at'[a] == at[a]
  }

  /** get_page: the entry, created with its table if asked to */
  method GetPage(address: nat, create: bool, dir: Directory, km: BootMemory) returns (page: Option<Page>)
    requires address < WORD_LIMIT && km.Valid() && dir.Valid(km.tables)
    modifies dir, km
    ensures km.Valid() && dir.Valid(km.tables) && Extends(old(km.tables), km.tables)
    ensures old(Clear(dir, km)) ==> Clear(dir, km)
    ensures page == dir.Lookup(address)
    ensures page.None? <==> old(dir.Lookup(address)).None? && !create
    ensures old(dir.Lookup(address)).Some? || !create ==>
      dir.tables == old(dir.tables) && dir.physical == old(dir.physical) && km.firstUnused == old(km.firstUnused)
      && km.tables == old(km.tables)
    ensures old(dir.Lookup(address)).None? && create ==>
      && km.firstUnused == PageCeil(old(km.firstUnused)) + TABLE_BYTES
      && dir.tables == old(dir.tables)[TableIndex(address) := dir.tables[TableIndex(address)]]
      && (forall x :: 0 <= x < PAGES_PER_TABLE ==> dir.tables[TableIndex(address)].pages[x].Value() == EMPTY)
      && (forall x :: 0 <= x < PAGES_PER_TABLE ==> fresh(dir.tables[TableIndex(address)].pages[x]))
    ensures forall b :: 0 <= b < WORD_LIMIT && TableIndex(b) != TableIndex(address) ==>
      dir.Lookup(b) == old(dir.Lookup(b))
  {
    hide TableIndex, PageIndex, PageNumber, PageCeil, Directory.Separate, Directory.InStep;
    IndicesDetermine(address, 0);
    var t, p := TableIndex(address), PageIndex(address);
    if dir.tables[t] != null {
      return Some(dir.tables[t].pages[p]);
    } else if create {
      ghost var at := km.tables;
      var table, physical := km.NewTable();
      Install(t, dir, table, physical, at, km.tables);
      forall b | 0 <= b < WORD_LIMIT && TableIndex(b) != t ensures dir.Lookup(b) == old(dir.Lookup(b)) {
        IndicesDetermine(b, 0);
      }
      return Some(table.pages[p]);
    } else {
      return None;
    }
  }
}
