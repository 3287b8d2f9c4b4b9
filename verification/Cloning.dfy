/** clone_directory of src/mm/paging.c: a copy of the current address space that shares the kernel's tables. */
module Cloning {
  import opened Machine
  import opened Bitsets
  import opened Frames
  import opened Paging
  import opened Sharing
  import Boot

  const BUFFER_TABLE: nat := Boot.BUFFER_TABLE
  const BUFFER_PAGE: nat := 0xF_0000
  const TASK_USER_STACK_BOTTOM: nat := 0xF000_0000
  const TASK_IMAGE_BASE: nat := 0x1000_0000

  /** The entries of a table. */
  ghost function Values(t: PageTable): (s: seq<Entry>)
    requires t.Valid()
    reads t.pages
    ensures |s| == PAGES_PER_TABLE && forall x :: 0 <= x < PAGES_PER_TABLE ==> s[x] == t.pages[x].Value()
  {
    seq(PAGES_PER_TABLE, x requires 0 <= x < PAGES_PER_TABLE reads t.pages => t.pages[x].Value())
  }

  /**
   * What the first `n` entries of a copied table must be: every mapped page has its own new frame with the old
   * contents, and everything else is empty.
   */
  ghost predicate Copied(src: seq<Entry>, dest: seq<Entry>, n: nat, used: iset<nat>, used': iset<nat>,
                         phys: seq<Contents>, phys': seq<Contents>)
  {
    && |src| == |dest| == PAGES_PER_TABLE && n <= PAGES_PER_TABLE && |phys| == |phys'| == FRAME_LIMIT
    && (forall x :: 0 <= x < PAGES_PER_TABLE ==>
          if x < n && src[x].address != 0 then CopiedEntry(src[x], dest[x], used, used', phys, phys')
          else dest[x] == EMPTY)
    && (forall x, y :: 0 <= x < y < n && src[x].address != 0 ==> dest[x].address != dest[y].address)
  }

  ghost predicate CopiedEntry(s: Entry, d: Entry, used: iset<nat>, used': iset<nat>, phys: seq<Contents>,
                              phys': seq<Contents>)
    requires |phys| == |phys'| == FRAME_LIMIT
  {
    && s.address < FRAME_LIMIT && d.address < FRAME_LIMIT
    && d.address != 0 && d.address !in used && d.address in used'
    && phys'[d.address] == phys[s.address]
    && d.present && d.userMode && d.writeable == s.writeable
  }

  /** One more entry, copied into the frame `f`. */
  lemma CopiedStep(src: seq<Entry>, dest: seq<Entry>, n: nat, used: iset<nat>, used': iset<nat>,
                   phys: seq<Contents>, phys': seq<Contents>, f: nat)
    requires Copied(src, dest, n, used, used', phys, phys') && n < PAGES_PER_TABLE
    requires src[n].address != 0 && src[n].address in used && src[n].address < FRAME_LIMIT
    requires f < FRAME_LIMIT && f !in used' && f != 0 && used <= used' && Preserved(used, phys, phys')
    ensures var dest', phys'' := dest[n := Allocated(src[n].writeable, f)], phys'[f := phys'[src[n].address]];
      && Copied(src, dest', n + 1, used, used' + iset{f}, phys, phys'')
      && Preserved(used, phys, phys'')
  {
    var dest', phys'' := dest[n := Allocated(src[n].writeable, f)], phys'[f := phys'[src[n].address]];
    forall x | 0 <= x < n && src[x].address != 0
      ensures CopiedEntry(src[x], dest'[x], used, used' + iset{f}, phys, phys'')
    {
      assert CopiedEntry(src[x], dest[x], used, used', phys, phys');
    }
  }

  /** No frame is in both tables. */
  ghost predicate FramesApart(s: seq<Entry>, t: seq<Entry>) {
    forall x, y :: 0 <= x < |s| && 0 <= y < |t| && s[x].address != 0 ==> s[x].address != t[y].address
  }

  /** A table copied later has other frames than one copied before. */
  lemma CopiedApart(s: seq<Entry>, d: seq<Entry>, s': seq<Entry>, d': seq<Entry>, used: iset<nat>, used': iset<nat>,
                    used'': iset<nat>, before: seq<Contents>, phys': seq<Contents>, phys'': seq<Contents>)
    requires Copied(s, d, PAGES_PER_TABLE, used, used', before, phys')
    requires Copied(s', d', PAGES_PER_TABLE, used', used'', phys', phys'')
    ensures FramesApart(d, d')
  {
    forall x, y | 0 <= x < |d| && 0 <= y < |d'| && d[x].address != 0 ensures d[x].address != d'[y].address {
      assert CopiedEntry(s[x], d[x], used, used', before, phys');
      if d'[y].address != 0 { assert CopiedEntry(s'[y], d'[y], used', used'', phys', phys''); }
    }
  }

  /** Where the buffer page points after the entries `d` were copied through it: at the last frame filled. */
  function LastFrame(d: seq<Entry>, f: nat): nat {
    if d == [] then f
    else if d[|d| - 1].address != 0 then d[|d| - 1].address
    else LastFrame(d[..|d| - 1], f)
  }

  /** The same for several tables in a row. */
  function LastOf(ts: seq<seq<Entry>>, f: nat): nat {
    if ts == [] then f else LastFrame(ts[|ts| - 1], LastOf(ts[..|ts| - 1], f))
  }

  /** One more entry filled, or left empty. */
  lemma LastFrameStep(d: seq<Entry>, d': seq<Entry>, x: nat, f: nat)
    requires x < |d| == |d'| && d'[..x] == d[..x]
    ensures LastFrame(d'[..x + 1], f) == LastFrame([d'[x]], LastFrame(d[..x], f))
  {
    assert d'[..x + 1][..x] == d[..x];
    assert [d'[x]][..0] == [];
  }

  /** It is the frame of one of the entries, or nothing was filled. */
  lemma {:induction false} LastFrameCases(d: seq<Entry>, f: nat)
    ensures if exists x :: 0 <= x < |d| && d[x].address != 0
            then exists x :: 0 <= x < |d| && d[x].address == LastFrame(d, f) && d[x].address != 0
            else LastFrame(d, f) == f
  {
    if d != [] && d[|d| - 1].address == 0 {
      LastFrameCases(d[..|d| - 1], f);
      assert forall x :: 0 <= x < |d| - 1 ==> d[..|d| - 1][x] == d[x];
    }
  }

  /** Some entry of some table was filled. */
  ghost predicate Filled(ts: seq<seq<Entry>>, j: int, x: int) {
    0 <= j < |ts| && 0 <= x < |ts[j]| && ts[j][x].address != 0
  }

  lemma {:induction false} LastOfCases(ts: seq<seq<Entry>>, f: nat)
    ensures if exists j, x :: Filled(ts, j, x) then exists j, x :: Filled(ts, j, x) && ts[j][x].address == LastOf(ts, f)
            else LastOf(ts, f) == f
  {
    if ts != [] {
      var init, t := ts[..|ts| - 1], ts[|ts| - 1];
      LastOfCases(init, f);
      LastFrameCases(t, LastOf(init, f));
      assert forall j, x :: Filled(init, j, x) ==> Filled(ts, j, x);
      assert forall j, x :: Filled(ts, j, x) && j < |init| ==> Filled(init, j, x);
      if x :| 0 <= x < |t| && t[x].address == LastOf(ts, f) && t[x].address != 0 {
        assert Filled(ts, |ts| - 1, x);
      } else if j, x :| Filled(ts, j, x) {
        assert Filled(init, j, x);
      }
    }
  }

  lemma BufferStart()
    ensures PageStart(BUFFER_PAGE) == PAGE_CLONING_BUFFER && PageNumber(PAGE_CLONING_BUFFER) == BUFFER_PAGE
    ensures TableIndex(PAGE_CLONING_BUFFER) == BUFFER_TABLE
  {
  }

  lemma NothingFilled(d: seq<Entry>, f: nat)
    ensures LastFrame(d[..0], f) == f
  {
  }

  lemma LastOfStep(ts: seq<seq<Entry>>, t: seq<Entry>, f: nat)
    ensures LastOf(ts + [t], f) == LastFrame(t, LastOf(ts, f))
  {
    assert (ts + [t])[..|ts|] == ts;
  }

  /** How many entries have a frame. */
  ghost function Count(es: seq<Entry>): nat {
    if es == [] then 0 else Count(es[..|es| - 1]) + if es[|es| - 1].address != 0 then 1 else 0
  }

  lemma CountStep(es: seq<Entry>, x: nat)
    requires x < |es|
    ensures Count(es[..x + 1]) == Count(es[..x]) + if es[x].address != 0 then 1 else 0
  {
    assert es[..x + 1][..x] == es[..x];
  }

  lemma {:induction false} CountWithin(es: seq<Entry>, x: nat)
    requires x <= |es|
    ensures Count(es[..x]) <= Count(es)
    decreases |es| - x
  {
    if x < |es| {
      CountStep(es, x);
      CountWithin(es, x + 1);
    } else {
      assert es[..x] == es;
    }
  }

  /** Frames in use keep their contents. */
  ghost predicate Preserved(used: iset<nat>, phys: seq<Contents>, phys': seq<Contents>) {
    |phys| == |phys'| && forall f :: 0 <= f < |phys| && f in used ==> phys'[f] == phys[f]
  }

  class Mmu {
    const fa: FrameAllocator
    const km: BootMemory
    const kernel: Directory
    var current: Directory
    const buffer: Page
    var phys: seq<Contents>
    /** Does the kernel map no page read-only, nor out of reach of user mode? So it is after boot. */
    ghost const open: bool

    constructor (fa: FrameAllocator, km: BootMemory, kernel: Directory, current: Directory, buffer: Page,
                 phys: seq<Contents>, ghost open: bool)
      ensures this.fa == fa && this.km == km && this.kernel == kernel && this.current == current
      ensures this.buffer == buffer && this.phys == phys && this.open == open
    {
      this.fa, this.km, this.kernel, this.current, this.buffer, this.phys := fa, km, kernel, current, buffer, phys;
      this.open := open;
    }

    /** On an open machine, every page with a frame is open. */
    ghost predicate AllOpen(dir: Directory)
      reads dir, dir.Pages()
    {
      open ==> forall p :: p in dir.Pages() && (p == buffer || p.address != 0) ==> p.Open()
    }

    /** The buffer page is reached through the current directory, and every other mapped page owns a used frame. */
    ghost predicate Valid()
      reads this, fa.frames.base, km, kernel, current, current.Pages()
    {
      && |phys| == FRAME_LIMIT && fa.Valid() && 0 in fa.Used()
      && km.Valid() && current.Valid(km.tables) && kernel.Shape()
      && kernel.tables[BUFFER_TABLE] == current.tables[BUFFER_TABLE]
      && current.Lookup(PAGE_CLONING_BUFFER) == Some(buffer)
      && (forall p :: p in current.Pages() && p != buffer && p.address != 0 ==>
            p.address in fa.Used() && p.address < FRAME_LIMIT)
      && AllOpen(current)
    }

    /** The buffer page is pointed at a frame; no directory is less open for that. */
    method PointBuffer(frame: nat, ghost dir: Directory)
      requires AllOpen(current) && AllOpen(dir)
      modifies buffer
      ensures AllOpen(current) && AllOpen(dir) && buffer.address == frame && buffer.present
    {
      hide Directory.Pages;
      buffer.address := frame;
      buffer.present := true;
    }

    /** clone_page_to_physical: the buffer page is pointed at the frame, and the page is copied through it */
    method ClonePage(source: nat, frame: nat)
      requires source < WORD_LIMIT && frame < FRAME_LIMIT && |phys| == FRAME_LIMIT && current.Shape()
      requires current.Lookup(PAGE_CLONING_BUFFER) == Some(buffer)
      requires current.Lookup(source).Some? && current.Lookup(source).value != buffer && AllOpen(current)
      requires current.Lookup(source).value.address < FRAME_LIMIT
      modifies this`phys, buffer
      ensures phys == old(phys)[frame := old(phys)[old(current.Lookup(source).value.address)]]
      ensures buffer.address == frame && buffer.present
      ensures AllOpen(current)
    {
      PointBuffer(frame, current);
      // the two sides of the memcpy, each found through the current directory
      var to := Translate(PAGE_CLONING_BUFFER);
      var from := Translate(source);
      phys := phys[to := phys[from]];
    }

    /** The frame a mapped virtual page lies in. */
    method Translate(address: nat) returns (frame: nat)
      requires address < WORD_LIMIT && current.Shape() && current.Lookup(address).Some?
      ensures frame == current.Lookup(address).value.address
    {
      IndicesDetermine(address, 0);
      var page := current.tables[TableIndex(address)].pages[PageIndex(address)];
      return page.address;
    }

    /** A page of a table other than the buffer's is not the buffer. */
    lemma NotBuffer(t: nat, x: nat)
      requires current.Shape() && current.Separate() && current.Lookup(PAGE_CLONING_BUFFER) == Some(buffer)
      requires t < TABLES_PER_DIRECTORY && t != BUFFER_TABLE && x < PAGES_PER_TABLE && current.tables[t] != null
      ensures current.tables[t].pages[x] != buffer && current.tables[t].pages[x] in current.Pages()
    {
      AddressIndices(BUFFER_TABLE, 0);
    }

    /** src/mm/paging.c:154-158: a mapped entry gets a new frame and the contents of the old one */
    method CloneMapped(t: nat, x: nat, sp: Page, dp: Page) returns (r: Outcome<()>)
      requires Valid() && t < TABLES_PER_DIRECTORY && t != BUFFER_TABLE
      requires current.tables[t] != null && x < PAGES_PER_TABLE
      requires sp == current.tables[t].pages[x] && sp.address != 0
      requires dp.Value() == EMPTY && dp != buffer && dp !in current.Pages()
      modifies this`phys, buffer, dp, fa.frames.base
      ensures Valid()
      ensures r.Panic? ==> r.fault == NoFreeFrames && fa.Used() == old(fa.Used()) && old(fa.Available()) == 0
      ensures r.Done? ==> old(fa.Available()) == fa.Available() + 1
      ensures r.Done? ==>
        && dp.address < FRAME_LIMIT && dp.address !in old(fa.Used()) && dp.address != 0
        && fa.Used() == old(fa.Used()) + iset{dp.address}
        && dp.Value() == Allocated(old(sp.writeable), dp.address)
        && phys == old(phys)[dp.address := old(phys)[old(sp.address)]]
        && buffer.address == dp.address
    {
      hide Directory.Separate, Directory.InStep, TableIndex, PageIndex, IsStep, Unused, Mmu.AllOpen;
      NotBuffer(t, x);
      AddressIndices(t, x);
      NoneUnused(fa.Used(), fa.Capacity());
      r := PageAlloc(dp, fa, !sp.userMode, sp.writeable);
      if r.Panic? { return; }
      UnusedTaken(old(fa.Used()), fa.Capacity(), dp.address);
      ClonePage(AddressOf(t, x), dp.address);
    }

    /** The source has no page in common with a table that is not part of the current directory. */
    lemma SourceApart(t: nat, src: PageTable, dest: PageTable)
      requires Valid() && t < TABLES_PER_DIRECTORY && t != BUFFER_TABLE && current.tables[t] == src
      requires forall p :: p in dest.pages ==> p !in current.Pages()
      ensures forall y :: 0 <= y < PAGES_PER_TABLE ==> src.pages[y] != buffer && src.pages[y] !in dest.pages
    {
      hide Directory.Separate, Directory.InStep;
      forall y | 0 <= y < PAGES_PER_TABLE ensures src.pages[y] != buffer && src.pages[y] !in dest.pages {
        NotBuffer(t, y);
      }
    }

    /** The first `x` entries of `dest` are copies of those of `src`, which are `sv`. */
    ghost predicate Filling(t: nat, x: nat, src: PageTable, dest: PageTable, sv: seq<Entry>, used: iset<nat>,
                            before: seq<Contents>)
      reads this, fa.frames.base, km, kernel, current, current.Pages(), src.pages, dest.pages
    {
      && Valid() && t < TABLES_PER_DIRECTORY && t != BUFFER_TABLE && current.tables[t] == src
      && src.Valid() && dest.Valid() && buffer !in dest.pages && (forall p :: p in dest.pages ==> p !in current.Pages())
      && Values(src) == sv && Copied(sv, Values(dest), x, used, fa.Used(), before, phys)
      && used <= fa.Used() && 0 in used && Preserved(used, before, phys)
      && (forall e :: e in sv && e.address != 0 ==> e.address in used && e.address < FRAME_LIMIT)
    }

    /** The next entry is still empty; if its source has no frame, that is all there is to it. */
    lemma NextEntry(t: nat, x: nat, src: PageTable, dest: PageTable, sv: seq<Entry>, used: iset<nat>,
                    before: seq<Contents>)
      requires x < PAGES_PER_TABLE == |sv| && Filling(t, x, src, dest, sv, used, before)
      ensures Values(dest)[x] == EMPTY && Values(src)[x] == sv[x]
      ensures sv[x].address == 0 ==> Filling(t, x + 1, src, dest, sv, used, before)
    {
      hide Copied, Preserved, Directory.Separate, Directory.InStep;
      EmptyBeyond(sv, Values(dest), x, used, fa.Used(), before, phys);
    }

    /** src/mm/paging.c:151-159: one entry */
    method CloneEntry(t: nat, x: nat, src: PageTable, dest: PageTable, ghost sv: seq<Entry>, ghost used: iset<nat>,
                      ghost before: seq<Contents>)
      returns (r: Outcome<()>)
      requires x < PAGES_PER_TABLE == |sv| && Filling(t, x, src, dest, sv, used, before)
      modifies this`phys, buffer, dest.pages[x], fa.frames.base
      ensures Valid() && fa.Used() >= old(fa.Used())
      ensures r.Panic? ==> r.fault == NoFreeFrames && sv[x].address != 0 && old(fa.Available()) == 0
      ensures r.Done? ==> Filling(t, x + 1, src, dest, sv, used, before)
      ensures r.Done? ==> old(fa.Available()) == fa.Available() + if sv[x].address != 0 then 1 else 0
      ensures r.Done? ==> Values(dest)[..x] == old(Values(dest)[..x])
      ensures r.Done? ==> buffer.address == LastFrame([Values(dest)[x]], old(buffer.address))
    {
      NextEntry(t, x, src, dest, sv, used, before);
      if src.pages[x].address != 0 {
        r := FillEntry(t, x, src, dest, sv, used, before);
        return;
      }
      hide Mmu.Valid, Copied, Preserved;
      return Done(());
    }

    /** An entry whose source has a frame. */
    method FillEntry(t: nat, x: nat, src: PageTable, dest: PageTable, ghost sv: seq<Entry>, ghost used: iset<nat>,
                     ghost before: seq<Contents>)
      returns (r: Outcome<()>)
      requires x < PAGES_PER_TABLE == |sv| && Filling(t, x, src, dest, sv, used, before)
      requires sv[x].address != 0 && dest.pages[x].Value() == EMPTY
      modifies this`phys, buffer, dest.pages[x], fa.frames.base
      ensures Valid() && fa.Used() >= old(fa.Used())
      ensures r.Panic? ==> r.fault == NoFreeFrames && old(fa.Available()) == 0
      ensures r.Done? ==> Filling(t, x + 1, src, dest, sv, used, before)
      ensures r.Done? ==> Values(dest)[x].address == buffer.address != 0
      ensures r.Done? ==> old(fa.Available()) == fa.Available() + 1
      ensures r.Done? ==> Values(dest)[..x] == old(Values(dest)[..x])
    {
      hide Copied, Preserved, FrameAllocator.Available, Directory.Pages, Mmu.Valid;
      ghost var dv, used', phys' := Values(dest), fa.Used(), phys;
      SourceApart(t, src, dest);
      assert sv[x] in sv;
      r := CloneMapped(t, x, src.pages[x], dest.pages[x]);
      if r.Panic? { return; }
      CopiedStep(sv, dv, x, used, used', before, phys', dest.pages[x].address);
      assert Values(dest) == dv[x := Allocated(sv[x].writeable, dest.pages[x].address)];
    }

    /** The loop of clone_table, into an empty table. */
    method CopyEntries(t: nat, src: PageTable, dest: PageTable) returns (r: Outcome<()>)
      requires Valid() && t < TABLES_PER_DIRECTORY && t != BUFFER_TABLE && current.tables[t] == src
      requires dest.Valid() && buffer !in dest.pages && (forall p :: p in dest.pages ==> p !in current.Pages())
      requires forall x :: 0 <= x < PAGES_PER_TABLE ==> dest.pages[x].Value() == EMPTY
      modifies this`phys, buffer, dest.pages, fa.frames.base
      ensures Valid()
      ensures r.Panic? ==> r.fault == NoFreeFrames && old(fa.Available()) < old(Count(Values(src)))
      ensures r.Done? ==> old(fa.Available()) == fa.Available() + old(Count(Values(src)))
      ensures fa.Used() >= old(fa.Used())
      ensures r.Done? ==>
        && Copied(old(Values(src)), Values(dest), PAGES_PER_TABLE, old(fa.Used()), fa.Used(), old(phys), phys)
        && Preserved(old(fa.Used()), old(phys), phys)
        && buffer.address == LastFrame(Values(dest), old(buffer.address))
    {
      hide Mmu.Filling, LastFrame, Copied, Preserved, FrameAllocator.Available;
      ghost var used, before, sv := fa.Used(), phys, Values(src);
      hide Mmu.Valid;
      NothingFilled(Values(dest), buffer.address);
      NothingYet(t, src, dest);
      var x := 0;
      while x < PAGES_PER_TABLE
        invariant x <= PAGES_PER_TABLE && Valid() && Filling(t, x, src, dest, sv, used, before) && used <= fa.Used()
        invariant buffer.address == LastFrame(Values(dest)[..x], old(buffer.address))
        invariant old(fa.Available()) == fa.Available() + Count(sv[..x])
      {
        ghost var dv := Values(dest);
        CountStep(sv, x);
        CountWithin(sv, x + 1);
        r := CloneEntry(t, x, src, dest, sv, used, before);
        if r.Panic? { return; }
        LastFrameStep(dv, Values(dest), x, old(buffer.address));
        x := x + 1;
      }
      assert Values(dest)[..PAGES_PER_TABLE] == Values(dest) && sv[..PAGES_PER_TABLE] == sv;
      FillingDone(t, src, dest, sv, used, before);
      return Done(());
    }

    lemma NothingYet(t: nat, src: PageTable, dest: PageTable)
      requires Valid() && t < TABLES_PER_DIRECTORY && t != BUFFER_TABLE && current.tables[t] == src && src.Valid()
      requires dest.Valid() && buffer !in dest.pages && (forall p :: p in dest.pages ==> p !in current.Pages())
      requires forall x :: 0 <= x < PAGES_PER_TABLE ==> dest.pages[x].Value() == EMPTY
      ensures Filling(t, 0, src, dest, Values(src), fa.Used(), phys)
    {
      hide Copied, Preserved, Directory.Separate, Directory.InStep;
      OwnedFrames(t);
      EmptyCopied(Values(src), Values(dest), fa.Used(), phys);
    }

    lemma FillingDone(t: nat, src: PageTable, dest: PageTable, sv: seq<Entry>, used: iset<nat>, before: seq<Contents>)
      requires Filling(t, PAGES_PER_TABLE, src, dest, sv, used, before)
      ensures Copied(sv, Values(dest), PAGES_PER_TABLE, used, fa.Used(), before, phys) && Preserved(used, before, phys)
    {
      hide Copied, Preserved, Directory.Separate, Directory.InStep;
    }

    /** clone_table of a table of the current directory */
    method CloneTable(t: nat, src: PageTable) returns (r: Outcome<PageTable>, physical: nat)
      requires Valid() && t < TABLES_PER_DIRECTORY && t != BUFFER_TABLE && current.tables[t] == src
      modifies this`phys, buffer, fa.frames.base, km
      ensures Valid()
      ensures r.Panic? ==> r.fault == NoFreeFrames && old(fa.Available()) < old(Count(Values(src)))
      ensures r.Done? ==> old(fa.Available()) == fa.Available() + old(Count(Values(src)))
      ensures r.Done? ==>
        && r.value.Valid() && fresh(r.value) && (forall p :: p in r.value.pages ==> fresh(p))
        && physical % PAGE_SIZE == 0 && physical !in old(km.tables) && km.tables == old(km.tables)[physical := r.value]
        && old(km.firstUnused) <= physical && physical + 4 * 1024 <= km.firstUnused
        && Copied(old(Values(src)), Values(r.value), PAGES_PER_TABLE, old(fa.Used()), fa.Used(), old(phys), phys)
        && Preserved(old(fa.Used()), old(phys), phys) && fa.Used() >= old(fa.Used())
        && buffer.address == LastFrame(Values(r.value), old(buffer.address))
    {
      hide Copied, Preserved, LastFrame;
      var dest;
      dest, physical := km.NewTable();
      assert Values(src) == old(Values(src));
      var copied := CopyEntries(t, src, dest);
      if copied.Panic? { return Panic(copied.fault), physical; }
      return Done(dest), physical;
    }

    /** None of the table's pages belongs to the current directory. */
    ghost predicate Foreign(t: PageTable)
      reads this`current, current
    {
      forall p :: p in t.pages ==> p !in current.Pages()
    }

    /** Every table of the copy is one of the current directory, at the same place, or has pages of its own. */
    ghost predicate Related(dest: Directory)
      requires dest.Shape() && current.Shape()
      reads this`current, dest, current
    {
      forall j :: 0 <= j < TABLES_PER_DIRECTORY && dest.tables[j] != null ==>
        dest.tables[j] == current.tables[j] || Foreign(dest.tables[j])
    }

    /** src/mm/paging.c:131-133: a kernel table is shared */
    method ShareSlot(i: nat, dest: Directory)
      requires Valid() && i < TABLES_PER_DIRECTORY && dest != current && dest != kernel && current.tables[i] != null
      requires dest.Valid(km.tables) && Related(dest) && dest.tables[i] == null
      modifies dest
      ensures Valid() && dest.Valid(km.tables) && Related(dest)
      ensures dest.tables == old(dest.tables)[i := current.tables[i]]
      ensures dest.physical == old(dest.physical)[i := current.physical[i]]
    {
      dest.tables := dest.tables[i := current.tables[i]];
      dest.physical := dest.physical[i := current.physical[i]];
      forall j, x, y | 0 <= j < TABLES_PER_DIRECTORY && j != i && dest.tables[j] != null
          && 0 <= x < PAGES_PER_TABLE && 0 <= y < PAGES_PER_TABLE
        ensures current.tables[i].pages[x] != dest.tables[j].pages[y]
      {
        assert current.tables[i].pages[x] in current.Pages();
        assert dest.tables[j].pages[y] in dest.tables[j].pages;
      }
    }

    /** src/mm/paging.c:134-138: any other table is copied */
    method CopySlot(i: nat, dest: Directory) returns (r: Outcome<()>)
      requires Valid() && i < TABLES_PER_DIRECTORY && i != BUFFER_TABLE && dest != current && dest != kernel
      requires current.tables[i] != null && dest.Valid(km.tables) && Related(dest) && dest.tables[i] == null
      modifies this`phys, buffer, fa.frames.base, km, dest
      ensures Valid()
      ensures r.Panic? ==> r.fault == NoFreeFrames && old(fa.Available()) < old(Count(Values(current.tables[i])))
      ensures r.Done? ==> old(fa.Available()) == fa.Available() + old(Count(Values(current.tables[i])))
      ensures r.Done? ==>
        && dest.Valid(km.tables) && Related(dest) && (old(Away(dest, km)) ==> Away(dest, km))
        && fa.Used() >= old(fa.Used()) && Preserved(old(fa.Used()), old(phys), phys)
        && dest.tables == old(dest.tables)[i := dest.tables[i]]
        && dest.physical == old(dest.physical)[i := dest.physical[i]]
        && dest.tables[i] != null && fresh(dest.tables[i]) && (forall p :: p in dest.tables[i].pages ==> fresh(p))
        && Copied(old(Values(current.tables[i])), Values(dest.tables[i]), PAGES_PER_TABLE,
                  old(fa.Used()), fa.Used(), old(phys), phys)
        && buffer.address == LastFrame(Values(dest.tables[i]), old(buffer.address))
    {
      hide Copied, Preserved, LastFrame, Directory.Separate;
      ghost var at := km.tables;
      var table, physical := CloneTable(i, current.tables[i]);
      if table.Panic? { return Panic(table.fault); }
      assert dest.Valid(at) && Related(dest);
      Install(i, dest, table.value, physical, at, km.tables);
      return Done(());
    }

    /** Does clone_directory share this slot? */
    predicate Shares(i: nat)
      requires i < |current.tables| && i < |kernel.tables|
      reads this`current, current, kernel
    {
      current.tables[i] == null || kernel.tables[i] == current.tables[i]
    }

    /** The number of pages of slot `i` that clone_directory copies. */
    ghost function ToCopy(i: nat): nat
      requires current.Shape() && kernel.Shape() && i < TABLES_PER_DIRECTORY
      reads this`current, kernel, current, current.Pages()
    {
      current.AllInPages();
      if Shares(i) then 0 else Count(Values(current.tables[i]))
    }

    /** The number of pages in the first `n` slots that it copies. */
    ghost function PagesToCopy(n: nat): nat
      requires current.Shape() && kernel.Shape() && n <= TABLES_PER_DIRECTORY
      reads this`current, kernel, current, current.Pages()
    {
      if n == 0 then 0 else PagesToCopy(n - 1) + ToCopy(n - 1)
    }

    lemma {:induction false} FewerBefore(n: nat, m: nat)
      requires current.Shape() && kernel.Shape() && n <= m <= TABLES_PER_DIRECTORY
      ensures PagesToCopy(n) <= PagesToCopy(m)
      decreases m - n
    {
      if n < m { FewerBefore(n, m - 1); }
    }

    /** The values in slot `j` of both directories; a shared slot has none of its own. */
    ghost function SlotValues(dest: Directory, j: nat): (r: (seq<Entry>, seq<Entry>))
      requires current.Shape() && kernel.Shape() && dest.Shape() && j < TABLES_PER_DIRECTORY
      reads this`current, kernel, current, dest, current.Pages(), dest.Pages()
    {
      current.AllInPages();
      dest.AllInPages();
      if Shares(j) || dest.tables[j] == null then ([], [])
      else (Values(current.tables[j]), Values(dest.tables[j]))
    }

    /** Slot `i` of the copy, as clone_directory leaves it. */
    ghost predicate SlotCloned(dest: Directory, i: nat, used: iset<nat>, before: seq<Contents>)
      requires current.Shape() && kernel.Shape() && dest.Shape() && i < TABLES_PER_DIRECTORY
      reads this, fa.frames.base, kernel, current, dest, current.Pages(), dest.Pages()
    {
      if Shares(i) then dest.tables[i] == current.tables[i] && dest.physical[i] == current.physical[i]
      else
        && dest.tables[i] != null && Foreign(dest.tables[i])
        && var v := SlotValues(dest, i); Copied(v.0, v.1, PAGES_PER_TABLE, used, fa.Used(), before, phys)
    }

    /** The tables copied into the first `n` slots have no frame in common. */
    ghost predicate CopiesApart(dest: Directory, n: nat)
      requires current.Shape() && kernel.Shape() && dest.Shape() && n <= TABLES_PER_DIRECTORY
      reads this`current, kernel, current, dest, current.Pages(), dest.Pages()
    {
      forall j, k :: 0 <= j < k < n && !Shares(j) && !Shares(k) ==>
        FramesApart(SlotValues(dest, j).1, SlotValues(dest, k).1)
    }

    /** What the first `n` slots of the copy hold of their own. */
    ghost function CopiedTables(dest: Directory, n: nat): (ts: seq<seq<Entry>>)
      requires current.Shape() && kernel.Shape() && dest.Shape() && n <= TABLES_PER_DIRECTORY
      reads this`current, kernel, current, dest, current.Pages(), dest.Pages()
      ensures |ts| == n && forall j :: 0 <= j < n ==> ts[j] == SlotValues(dest, j).1
    {
      if n == 0 then [] else CopiedTables(dest, n - 1) + [SlotValues(dest, n - 1).1]
    }

    /** CopySlot leaves the slots before it as they are. */
    method CopyKeeping(i: nat, dest: Directory) returns (r: Outcome<()>)
      requires Valid() && i < TABLES_PER_DIRECTORY && !Shares(i) && dest != current && dest != kernel
      requires dest.Valid(km.tables) && Related(dest) && dest.tables[i] == null
      requires forall j :: 0 <= j < i && !Shares(j) ==> dest.tables[j] != null && Foreign(dest.tables[j])
      modifies this`phys, buffer, fa.frames.base, km, dest
      ensures Valid()
      ensures r.Panic? ==> r.fault == NoFreeFrames && old(fa.Available()) < old(Count(Values(current.tables[i])))
      ensures r.Done? ==> old(fa.Available()) == fa.Available() + old(Count(Values(current.tables[i])))
      ensures r.Done? ==>
        && dest.Valid(km.tables) && Related(dest) && (old(Away(dest, km)) ==> Away(dest, km))
        && fa.Used() >= old(fa.Used()) && Preserved(old(fa.Used()), old(phys), phys)
        && dest.tables == old(dest.tables)[i := dest.tables[i]]
        && dest.physical == old(dest.physical)[i := dest.physical[i]]
        && dest.tables[i] != null && Foreign(dest.tables[i]) && (forall p :: p in dest.tables[i].pages ==> fresh(p))
        && (forall j :: 0 <= j < i ==> SlotValues(dest, j) == old(SlotValues(dest, j)))
        && SlotValues(dest, i).0 == old(Values(current.tables[i]))
        && buffer.address == LastFrame(SlotValues(dest, i).1, old(buffer.address))
        && var v := SlotValues(dest, i); Copied(v.0, v.1, PAGES_PER_TABLE, old(fa.Used()), fa.Used(), old(phys), phys)
    {
      hide Copied, Preserved, LastFrame, Directory.Separate, Directory.InStep, FrameAllocator.Available, Count;
      r := CopySlot(i, dest);
      if r.Panic? { return; }
      forall j | 0 <= j <= i && !Shares(j) ensures Values(current.tables[j]) == old(Values(current.tables[j])) {
        forall x | 0 <= x < PAGES_PER_TABLE { NotBuffer(j, x); }
      }
      forall j | 0 <= j < i && !Shares(j) ensures Values(dest.tables[j]) == old(Values(dest.tables[j])) {
        ForeignNotBuffer(dest.tables[j]);
        assert forall x :: 0 <= x < PAGES_PER_TABLE ==> dest.tables[j].pages[x] in dest.tables[j].pages;
      }
    }

    /** The first `n` slots are done, from the used frames, the memory and the buffer frame given. */
    ghost predicate Progress(dest: Directory, n: nat, used: iset<nat>, before: seq<Contents>, first: nat)
      reads this, fa.frames.base, km, kernel, current, dest, current.Pages(), dest.Pages(), buffer
    {
      && current.Shape() && kernel.Shape() && dest.Valid(km.tables) && n <= TABLES_PER_DIRECTORY && Related(dest)
      && (forall j :: n <= j < TABLES_PER_DIRECTORY ==> dest.tables[j] == null)
      && used <= fa.Used() && Preserved(used, before, phys)
      && (forall j :: 0 <= j < n ==> SlotCloned(dest, j, used, before)) && CopiesApart(dest, n)
      && buffer.address == LastOf(CopiedTables(dest, n), first) && Away(dest, km)
    }

    /** Slot `j` of the copy as it was when the used frames were `used'` and memory was `phys'`. */
    ghost predicate SlotThen(dest: Directory, j: nat, used: iset<nat>, used': iset<nat>, before: seq<Contents>,
                             phys': seq<Contents>)
      requires current.Shape() && kernel.Shape() && dest.Shape() && j < TABLES_PER_DIRECTORY
      reads this`current, kernel, current, dest, current.Pages(), dest.Pages()
    {
      if Shares(j) then dest.tables[j] == current.tables[j] && dest.physical[j] == current.physical[j]
      else
        && dest.tables[j] != null && Foreign(dest.tables[j])
        && var v := SlotValues(dest, j); Copied(v.0, v.1, PAGES_PER_TABLE, used, used', before, phys')
    }

    /** One more copied slot leaves those before it copied, with other frames. */
    lemma OneMore(dest: Directory, i: nat, used: iset<nat>, used': iset<nat>, before: seq<Contents>,
                  phys': seq<Contents>)
      requires current.Shape() && kernel.Shape() && dest.Shape() && i < TABLES_PER_DIRECTORY && !Shares(i)
      requires forall j :: 0 <= j < i ==> SlotThen(dest, j, used, used', before, phys')
      requires CopiesApart(dest, i) && used <= used' <= fa.Used()
      requires Preserved(used, before, phys') && Preserved(used', phys', phys)
      requires dest.tables[i] != null && Foreign(dest.tables[i])
      requires forall e :: e in SlotValues(dest, i).0 && e.address != 0 ==> e.address in used
      requires var v := SlotValues(dest, i); Copied(v.0, v.1, PAGES_PER_TABLE, used', fa.Used(), phys', phys)
      ensures CopiesApart(dest, i + 1) && Preserved(used, before, phys)
      ensures forall j :: 0 <= j <= i ==> SlotCloned(dest, j, used, before)
    {
      hide Copied, Preserved, FramesApart, Mmu.SlotValues, Mmu.Foreign;
      var v := SlotValues(dest, i);
      PreservedJoin(used, used', before, phys', phys);
      CopiedEarlier(v.0, v.1, PAGES_PER_TABLE, used, used', fa.Used(), before, phys', phys);
      forall j | 0 <= j < i
        ensures SlotCloned(dest, j, used, before) && (!Shares(j) ==> FramesApart(SlotValues(dest, j).1, v.1))
      {
        assert SlotThen(dest, j, used, used', before, phys');
        if !Shares(j) {
          var w := SlotValues(dest, j);
          CopiedApart(w.0, w.1, v.0, v.1, used, used', fa.Used(), before, phys', phys);
          CopiedLater(w.0, w.1, PAGES_PER_TABLE, used, used', fa.Used(), before, phys', phys);
        }
      }
    }

    /** A copied slot, and what it means for the slots before it. */
    method CopyOne(i: nat, dest: Directory, ghost used: iset<nat>, ghost before: seq<Contents>, ghost first: nat)
      returns (r: Outcome<()>)
      requires Valid() && i < TABLES_PER_DIRECTORY && !Shares(i) && dest != current && dest != kernel
      requires forall p :: p in current.Pages() && p != buffer && p.address != 0 ==> p.address in used
      requires Progress(dest, i, used, before, first)
      modifies this`phys, buffer, fa.frames.base, km, dest
      ensures Valid()
      ensures r.Panic? ==> r.fault == NoFreeFrames && old(fa.Available()) < old(ToCopy(i))
      ensures r.Done? ==> old(fa.Available()) == fa.Available() + old(ToCopy(i))
      ensures r.Done? ==> Progress(dest, i + 1, used, before, first)
      ensures r.Done? ==> dest.Shape() && dest.tables == old(dest.tables)[i := dest.tables[i]]
      ensures r.Done? ==> dest.tables[i] != null && forall p :: p in dest.tables[i].pages ==> fresh(p)
    {
      hide Copied, Preserved, FramesApart, LastFrame, LastOf, Directory.Separate, Directory.InStep, Mmu.SlotValues;
      hide FrameAllocator.Available, Count, Mmu.Foreign;
      ghost var used', phys', ts := fa.Used(), phys, CopiedTables(dest, i);
      SourceFrames(i, used);
      forall j | 0 <= j < i
        ensures SlotThen(dest, j, used, used', before, phys')
        ensures !Shares(j) ==> dest.tables[j] != null && Foreign(dest.tables[j])
      {
        assert SlotCloned(dest, j, used, before);
      }
      r := CopyKeeping(i, dest);
      if r.Panic? { return; }
      forall j | 0 <= j < i ensures SlotThen(dest, j, used, used', before, phys') {
        assert old(SlotThen(dest, j, used, used', before, phys'));
        assert dest.tables[j] == old(dest.tables)[j] && dest.physical[j] == old(dest.physical)[j];
      }
      OneMore(dest, i, used, used', before, phys');
      assert CopiedTables(dest, i + 1) == ts + [SlotValues(dest, i).1];
      LastOfStep(ts, SlotValues(dest, i).1, first);
    }

    lemma ForeignNotBuffer(t: PageTable)
      requires Foreign(t) && current.Shape() && current.Lookup(PAGE_CLONING_BUFFER) == Some(buffer)
      ensures buffer !in t.pages
    {
      current.LookupInPages(PAGE_CLONING_BUFFER);
    }

    lemma SourceFrames(t: nat, used: iset<nat>)
      requires current.Shape() && current.Separate() && current.Lookup(PAGE_CLONING_BUFFER) == Some(buffer)
      requires t < TABLES_PER_DIRECTORY && t != BUFFER_TABLE && current.tables[t] != null
      requires forall p :: p in current.Pages() && p != buffer && p.address != 0 ==> p.address in used
      ensures forall e :: e in Values(current.tables[t]) && e.address != 0 ==> e.address in used
    {
      forall x | 0 <= x < PAGES_PER_TABLE
        ensures Values(current.tables[t])[x].address != 0 ==> Values(current.tables[t])[x].address in used
      {
        NotBuffer(t, x);
      }
    }

    /** A shared or missing slot: the slots before it stay as they are. */
    method ShareKeeping(i: nat, dest: Directory)
      requires Valid() && i < TABLES_PER_DIRECTORY && Shares(i) && dest != current && dest != kernel
      requires dest.Valid(km.tables) && Related(dest) && dest.tables[i] == null
      modifies dest
      ensures Valid() && dest.Valid(km.tables) && Related(dest)
      ensures dest.tables == old(dest.tables)[i := current.tables[i]]
      ensures dest.physical == old(dest.physical)[i := current.physical[i]]
      ensures forall j :: 0 <= j < i ==> SlotValues(dest, j) == old(SlotValues(dest, j))
    {
      hide Values, Directory.Separate;
      if current.tables[i] != null {
        ShareSlot(i, dest);
      }
    }

    /** And what it means for them. */
    method ShareOne(i: nat, dest: Directory, ghost used: iset<nat>, ghost before: seq<Contents>, ghost first: nat)
      requires Valid() && i < TABLES_PER_DIRECTORY && Shares(i) && dest != current && dest != kernel
      requires Progress(dest, i, used, before, first)
      modifies dest
      ensures Valid() && Progress(dest, i + 1, used, before, first)
      ensures dest.Shape() && dest.tables == old(dest.tables)[i := dest.tables[i]]
    {
      hide Copied, Preserved, LastFrame, LastOf, FramesApart, Directory.Separate, Directory.InStep, Mmu.SlotValues;
      ghost var ts := CopiedTables(dest, i);
      ShareKeeping(i, dest);
      forall j | 0 <= j < i ensures SlotCloned(dest, j, used, before) {
        assert old(SlotCloned(dest, j, used, before));
        assert dest.tables[j] == old(dest.tables)[j] && dest.physical[j] == old(dest.physical)[j];
      }
      NothingOwn(dest, i);
      assert CopiedTables(dest, i + 1) == ts + [[]];
      LastOfStep(ts, [], first);
      NothingFilled([], LastOf(ts, first));
    }

    lemma NothingOwn(dest: Directory, i: nat)
      requires current.Shape() && kernel.Shape() && dest.Shape() && i < TABLES_PER_DIRECTORY && Shares(i)
      ensures SlotValues(dest, i).1 == []
    {
    }

    /** src/mm/paging.c:130-140: one slot, with those before it */
    method CloneSlot(i: nat, dest: Directory, ghost used: iset<nat>, ghost before: seq<Contents>, ghost first: nat)
      returns (r: Outcome<()>)
      requires Valid() && i < TABLES_PER_DIRECTORY && dest != current && dest != kernel
      requires forall p :: p in current.Pages() && p != buffer && p.address != 0 ==> p.address in used
      requires Progress(dest, i, used, before, first)
      modifies this`phys, buffer, fa.frames.base, km, dest
      ensures Valid()
      ensures r.Panic? ==> r.fault == NoFreeFrames && old(fa.Available()) < old(ToCopy(i))
      ensures r.Done? ==> old(fa.Available()) == fa.Available() + old(ToCopy(i))
      ensures r.Done? ==> Progress(dest, i + 1, used, before, first)
      ensures r.Done? ==> dest.Shape() && dest.tables == old(dest.tables)[i := dest.tables[i]]
      ensures r.Done? && !Shares(i) ==> dest.tables[i] != null && forall p :: p in dest.tables[i].pages ==> fresh(p)
    {
      hide Mmu.Progress, Directory.Separate, Directory.InStep, FrameAllocator.Available, Count;
      if current.tables[i] == null || kernel.tables[i] == current.tables[i] {
        ShareOne(i, dest, used, before, first);
        return Done(());
      }
      r := CopyOne(i, dest, used, before, first);
    }

    /** A mapped page of a directory, the buffer page aside. */
    ghost predicate Maps(dir: Directory, a: nat)
      requires dir.Shape()
      reads dir, dir.Pages()
    {
      && a < WORD_LIMIT && dir.Lookup(a).Some? && dir.Lookup(a).value != buffer
      && (dir.LookupInPages(a); dir.Lookup(a).value.address != 0)
    }

    /**
     * The copy means what the original meant: every mapped page reads the same through both as it did before;
     * kernel pages are the same page, any other page has a frame that was free.
     */
    ghost predicate SameMeaning(dest: Directory, used: iset<nat>, before: seq<Contents>)
      requires current.Shape() && kernel.Shape() && dest.Shape() && |phys| == |before| == FRAME_LIMIT
      reads this, kernel, current, dest, current.Pages(), dest.Pages()
    {
      forall a :: Maps(current, a) ==> MeansSame(dest, a, used, before)
    }

    ghost predicate MeansSame(dest: Directory, a: nat, used: iset<nat>, before: seq<Contents>)
      requires current.Shape() && kernel.Shape() && dest.Shape() && |phys| == |before| == FRAME_LIMIT
      requires Maps(current, a)
      reads this, kernel, current, dest, current.Pages(), dest.Pages()
    {
      IndicesDetermine(a, 0);
      current.LookupInPages(a);
      dest.LookupInPages(a);
      && Maps(dest, a)
      && var c, d := current.Lookup(a).value, dest.Lookup(a).value;
         && c.address in used && c.address < FRAME_LIMIT && d.address < FRAME_LIMIT
         && phys[d.address] == phys[c.address] == before[c.address]
         && if Shares(TableIndex(a)) then d == c else d.address !in used
    }

    lemma ClonedMeans(dest: Directory, used: iset<nat>, before: seq<Contents>)
      requires Cloned(dest, used, before) && |before| == FRAME_LIMIT && Preserved(used, before, phys)
      ensures SameMeaning(dest, used, before)
    {
      hide Directory.Separate, Directory.InStep;
      forall a | Maps(current, a) ensures MeansSame(dest, a, used, before) {
        IndicesDetermine(a, 0);
        current.LookupInPages(a);
        var i, x := TableIndex(a), PageIndex(a);
        assert SlotCloned(dest, i, used, before);
        if !Shares(i) {
          ForeignNotBuffer(dest.tables[i]);
          assert dest.tables[i].pages[x] in dest.tables[i].pages;
          assert CopiedEntry(Values(current.tables[i])[x], Values(dest.tables[i])[x], used, fa.Used(), before, phys);
        }
      }
    }

    // ----- what the copy can be used for -----

    /** No two pages of a directory have one frame, the buffer page aside. */
    ghost predicate Injective(dir: Directory)
      reads dir, dir.Pages()
    {
      forall p, q :: p in dir.Pages() && q in dir.Pages() && p != q && p != buffer && q != buffer && p.address != 0 ==>
        p.address != q.address
    }

    /** Every page with a frame owns a used one, the buffer page aside. */
    ghost predicate OwnsFrames(dir: Directory)
      reads fa.frames.base, dir, dir.Pages()
    {
      forall p :: p in dir.Pages() && p != buffer && p.address != 0 ==>
        p.address in fa.Used() && p.address < FRAME_LIMIT
    }

    /** A directory to which the machine can switch. */
    ghost predicate Usable(dir: Directory)
      reads this, fa.frames.base, km, kernel, dir, dir.Pages()
    {
      && dir.Valid(km.tables) && kernel.Shape() && kernel.tables[BUFFER_TABLE] == dir.tables[BUFFER_TABLE]
      && dir.Lookup(PAGE_CLONING_BUFFER) == Some(buffer)
      && OwnsFrames(dir) && Injective(dir) && AllOpen(dir)
    }

    /** A copy, slot by slot: the state in which the lemmas below look at it. */
    ghost predicate Cloned(dest: Directory, used: iset<nat>, before: seq<Contents>)
      reads this, fa.frames.base, km, kernel, current, dest, current.Pages(), dest.Pages()
    {
      && Valid() && dest.Valid(km.tables)
      && (forall p :: p in current.Pages() && p != buffer && p.address != 0 ==> p.address in used)
      && (forall i :: 0 <= i < TABLES_PER_DIRECTORY ==> SlotCloned(dest, i, used, before))
      && CopiesApart(dest, TABLES_PER_DIRECTORY)
    }

    /** What an entry of slot `i` of the copy can be: shared with the original, or in a frame of its own. */
    lemma EntryOfCopy(dest: Directory, used: iset<nat>, before: seq<Contents>, i: nat, x: nat)
      requires Cloned(dest, used, before) && i < TABLES_PER_DIRECTORY && x < PAGES_PER_TABLE && dest.tables[i] != null
      ensures dest.tables[i].pages[x] in dest.Pages()
      ensures Shares(i) ==> dest.tables[i] == current.tables[i] && dest.tables[i].pages[x] in current.Pages()
      ensures !Shares(i) ==> dest.tables[i].pages[x] != buffer && dest.tables[i].pages[x] !in current.Pages()
      ensures !Shares(i) && dest.tables[i].pages[x].address != 0 ==>
        var p := dest.tables[i].pages[x];
        p.address !in used && p.address in fa.Used() && p.address < FRAME_LIMIT && (open ==> p.Open())
    {
      hide Directory.Separate, Directory.InStep;
      current.AllInPages();
      dest.AllInPages();
      assert SlotCloned(dest, i, used, before);
      if !Shares(i) {
        ForeignNotBuffer(dest.tables[i]);
        assert dest.tables[i].pages[x] in dest.tables[i].pages;
        var v := SlotValues(dest, i);
        if v.1[x].address != 0 {
          assert CopiedEntry(v.0[x], v.1[x], used, fa.Used(), before, phys);
          NotBuffer(i, x);
          assert v.0[x] == current.tables[i].pages[x].Value();
        }
      }
    }

    /** Frames of two entries of the copy. */
    lemma EntriesApart(dest: Directory, used: iset<nat>, before: seq<Contents>, i: nat, x: nat, j: nat, y: nat)
      requires Cloned(dest, used, before) && Injective(current) && i <= j < TABLES_PER_DIRECTORY
      requires x < PAGES_PER_TABLE && y < PAGES_PER_TABLE && dest.tables[i] != null && dest.tables[j] != null
      requires var p, q := dest.tables[i].pages[x], dest.tables[j].pages[y];
        p != q && p != buffer && q != buffer && p.address != 0
      ensures dest.tables[i].pages[x].address != dest.tables[j].pages[y].address
    {
      hide Directory.Separate, Directory.InStep, Copied, FramesApart, Mmu.Injective;
      EntryOfCopy(dest, used, before, i, x);
      EntryOfCopy(dest, used, before, j, y);
      if Shares(i) && Shares(j) {
        InjectiveAt(current, dest.tables[i].pages[x], dest.tables[j].pages[y]);
      } else if !Shares(i) && !Shares(j) {
        var v, w := SlotValues(dest, i), SlotValues(dest, j);
        assert v.1[x] == dest.tables[i].pages[x].Value() && w.1[y] == dest.tables[j].pages[y].Value();
        if i == j {
          assert SlotCloned(dest, i, used, before);
          CopiedOnce(v.0, v.1, used, fa.Used(), before, phys, x, y);
        } else {
          ApartAt(v.1, w.1, x, y);
        }
      }
    }

    lemma InjectiveAt(dir: Directory, p: Page, q: Page)
      requires Injective(dir) && p in dir.Pages() && q in dir.Pages() && p != q && p != buffer && q != buffer
      ensures p.address != 0 ==> p.address != q.address
    {
    }

    /** The machine can switch to a copy, as src/mm/paging.c:93 does. */
    lemma CopyUsable(dest: Directory, used: iset<nat>, before: seq<Contents>)
      requires Cloned(dest, used, before) && Injective(current)
      ensures Usable(dest)
    {
      hide Directory.Separate, Directory.InStep, Mmu.SlotCloned, Mmu.CopiesApart, Copied;
      assert SlotCloned(dest, BUFFER_TABLE, used, before);
      BufferInCopy(dest, used, before);
      forall p | p in dest.Pages() && p != buffer && p.address != 0
        ensures p.address in fa.Used() && p.address < FRAME_LIMIT && (open ==> p.Open())
      {
        var i, x := dest.SlotOfPage(p);
        EntryOfCopy(dest, used, before, i, x);
      }
      forall p, q | p in dest.Pages() && q in dest.Pages() && p != q && p != buffer && q != buffer && p.address != 0
        ensures p.address != q.address
      {
        var i, x := dest.SlotOfPage(p);
        var j, y := dest.SlotOfPage(q);
        if i <= j {
          EntriesApart(dest, used, before, i, x, j, y);
        } else if q.address != 0 {
          EntriesApart(dest, used, before, j, y, i, x);
        }
      }
    }

    /** The buffer page, which is also the user stack page of every task, is in a table that each copy shares. */
    lemma BufferInCopy(dest: Directory, used: iset<nat>, before: seq<Contents>)
      requires Valid() && dest.Valid(km.tables) && SlotCloned(dest, BUFFER_TABLE, used, before)
      ensures dest.Lookup(TASK_USER_STACK_BOTTOM) == Some(buffer)
      ensures dest.tables[BUFFER_TABLE] == current.tables[BUFFER_TABLE]
    {
    }

    // ----- original and copy as two spaces -----

    /** The frame of every mapped page of a directory, by page number; the buffer page aside. */
    ghost function FrameMap(dir: Directory): map<nat, nat>
      requires dir.Shape()
      reads dir, dir.Pages()
    {
      map n: nat | n < FRAME_LIMIT && Maps(dir, PageStart(n)) :: FrameAt(dir, PageStart(n))
    }

    ghost function FrameAt(dir: Directory, a: nat): nat
      requires dir.Shape() && Maps(dir, a)
      reads dir, dir.Pages()
    {
      dir.LookupInPages(a);
      dir.Lookup(a).value.address
    }

    ghost function SpacesOf(dest: Directory): Spaces
      requires current.Shape() && kernel.Shape() && dest.Shape()
      reads this`current, kernel, current, dest, current.Pages(), dest.Pages()
    {
      Spaces(FrameMap(current), FrameMap(dest), iset n: nat | n < FRAME_LIMIT && SharesPage(n))
    }

    ghost predicate SharesPage(n: nat)
      requires current.Shape() && kernel.Shape() && n < FRAME_LIMIT
      reads this`current, kernel, current
    {
      OwnPage(n);
      IndicesDetermine(PageStart(n), 0);
      Shares(TableIndex(PageStart(n)))
    }

    /** A page mapped in the copy is mapped in the original, and how their frames compare. */
    lemma PageOfCopy(dest: Directory, used: iset<nat>, before: seq<Contents>, b: nat)
      requires Cloned(dest, used, before) && Maps(dest, b) && TableIndex(b) < TABLES_PER_DIRECTORY
      ensures Maps(current, b)
      ensures Shares(TableIndex(b)) ==> dest.Lookup(b) == current.Lookup(b)
      ensures !Shares(TableIndex(b)) ==> FrameAt(dest, b) !in used
    {
      hide Directory.Separate, Directory.InStep, TableIndex, PageIndex;
      IndicesDetermine(b, 0);
      var i, x := TableIndex(b), PageIndex(b);
      dest.LookupInPages(b);
      EntryOfCopy(dest, used, before, i, x);
      assert SlotCloned(dest, i, used, before);
      if !Shares(i) {
        var v := SlotValues(dest, i);
        assert v.1[x].address != 0;
        NotBuffer(i, x);
        assert v.0[x].address != 0;
      }
    }

    /** A page of the original and a page of the copy have one frame exactly when they are one shared page. */
    lemma PagesMeet(dest: Directory, used: iset<nat>, before: seq<Contents>, a: nat, b: nat)
      requires Cloned(dest, used, before) && Injective(current) && Maps(current, a) && Maps(dest, b)
      requires TableIndex(b) < TABLES_PER_DIRECTORY
      ensures FrameAt(current, a) == FrameAt(dest, b) <==> PageNumber(a) == PageNumber(b) && Shares(TableIndex(b))
    {
      hide Directory.InStep, TableIndex, PageIndex, PageNumber, Mmu.SlotCloned, Mmu.CopiesApart, Mmu.Injective;
      PageOfCopy(dest, used, before, b);
      current.LookupInPages(a);
      current.LookupInPages(b);
      if Shares(TableIndex(b)) {
        if PageNumber(a) == PageNumber(b) {
          Boot.SamePage(current, a, b);
        } else {
          if current.Lookup(a) == current.Lookup(b) { current.LookupInjective(a, b); }
          InjectiveAt(current, current.Lookup(a).value, current.Lookup(b).value);
        }
      }
    }

    /** The copy maps exactly the pages of the original. */
    lemma SamePages(dest: Directory, used: iset<nat>, before: seq<Contents>)
      requires Cloned(dest, used, before) && |before| == FRAME_LIMIT && SameMeaning(dest, used, before)
      ensures SpacesOf(dest).original.Keys == SpacesOf(dest).copy.Keys
    {
      hide Directory.Separate, Directory.InStep, Mmu.SlotCloned, Mmu.CopiesApart;
      hide TableIndex, PageIndex, PageNumber, PageStart, Mmu.FrameAt, Mmu.Maps;
      forall n: nat | n < FRAME_LIMIT ensures Maps(current, PageStart(n)) <==> Maps(dest, PageStart(n)) {
        OwnPage(n);
        IndicesDetermine(PageStart(n), 0);
        if Maps(current, PageStart(n)) { assert MeansSame(dest, PageStart(n), used, before); }
        if Maps(dest, PageStart(n)) { PageOfCopy(dest, used, before, PageStart(n)); }
      }
    }

    /** And the two are isolated: a frame seen from both sides is a shared page. */
    lemma ClonedIsolated(dest: Directory, used: iset<nat>, before: seq<Contents>)
      requires Cloned(dest, used, before) && Injective(current)
      ensures Isolated(SpacesOf(dest))
    {
      hide Directory.Separate, Directory.InStep, Mmu.SlotCloned, Mmu.CopiesApart, Mmu.Injective;
      hide TableIndex, PageIndex, PageNumber, PageStart, Mmu.FrameAt, Mmu.Maps;
      var sp := SpacesOf(dest);
      forall p, q | p in sp.original && q in sp.copy
        ensures sp.original[p] == sp.copy[q] <==> p == q && p in sp.shared
      {
        OwnPage(p);
        OwnPage(q);
        IndicesDetermine(PageStart(q), 0);
        PagesMeet(dest, used, before, PageStart(p), PageStart(q));
      }
    }

    // ----- all pages, the buffer page included -----

    /** Page number `n` of a directory has a frame, whichever page it is. */
    ghost predicate Reaches(dir: Directory, n: nat)
      requires dir.Shape() && n < FRAME_LIMIT
      reads dir, dir.Pages()
    {
      OwnPage(n);
      dir.LookupInPages(PageStart(n));
      dir.Lookup(PageStart(n)).Some? && dir.Lookup(PageStart(n)).value.address != 0
    }

    ghost function Reached(dir: Directory, n: nat): nat
      requires dir.Shape() && n < FRAME_LIMIT && Reaches(dir, n)
      reads dir, dir.Pages()
    {
      OwnPage(n);
      dir.LookupInPages(PageStart(n));
      dir.Lookup(PageStart(n)).value.address
    }

    /** The frame of every page of a directory that has one, by page number. */
    ghost function AllFrames(dir: Directory): map<nat, nat>
      requires dir.Shape()
      reads dir, dir.Pages()
    {
      map n: nat | n < FRAME_LIMIT && Reaches(dir, n) :: Reached(dir, n)
    }

    ghost function AllSpaces(dest: Directory): Spaces
      requires current.Shape() && kernel.Shape() && dest.Shape()
      reads this`current, kernel, current, dest, current.Pages(), dest.Pages()
    {
      Spaces(AllFrames(current), AllFrames(dest), SpacesOf(dest).shared)
    }

    /** Beyond the pages of FrameMap there is the buffer page, with the frame its entry now has. */
    lemma ReachedFrame(dir: Directory, n: nat)
      requires dir.Shape() && dir.Separate() && dir.Lookup(PAGE_CLONING_BUFFER) == Some(buffer) && n < FRAME_LIMIT
      ensures n != BUFFER_PAGE ==> (Reaches(dir, n) <==> Maps(dir, PageStart(n)))
      ensures n != BUFFER_PAGE && Reaches(dir, n) ==> Reached(dir, n) == FrameAt(dir, PageStart(n))
      ensures n == BUFFER_PAGE ==> (Reaches(dir, n) <==> buffer.address != 0)
      ensures n == BUFFER_PAGE && Reaches(dir, n) ==> Reached(dir, n) == buffer.address
    {
      hide PageStart, PageNumber, TableIndex, PageIndex, Directory.Separate, Directory.Lookup, Directory.Pages;
      OwnPage(n);
      BufferStart();
      dir.LookupInPages(PageStart(n));
      if dir.Lookup(PageStart(n)) == Some(buffer) { dir.LookupInjective(PageStart(n), PAGE_CLONING_BUFFER); }
    }

    /** Every page with a frame is in a table that the copy shares: there is nothing to copy. */
    ghost predicate NothingToCopy()
      requires current.Shape() && kernel.Shape()
      reads this`current, kernel, current, current.Pages()
    {
      forall n: nat :: n < FRAME_LIMIT && Maps(current, PageStart(n)) ==> SharesPage(n)
    }

    /** No page but the buffer page has frame `f`. */
    ghost predicate OwnFrame(f: nat)
      requires current.Shape()
      reads this`current, current, current.Pages()
    {
      forall n: nat :: n < FRAME_LIMIT && Maps(current, PageStart(n)) ==> FrameAt(current, PageStart(n)) != f
    }

    lemma BufferIsShared()
      requires Valid()
      ensures SharesPage(BUFFER_PAGE)
    {
      hide Directory.Separate, Directory.InStep, PageNumber;
      BufferStart();
    }

    /** The buffer page is left on the frame of some page private to the copy. */
    ghost predicate Parked(dest: Directory, q: nat)
      requires current.Shape() && kernel.Shape() && dest.Shape()
      reads this`current, kernel, current, dest, current.Pages(), dest.Pages(), buffer
    {
      && q < FRAME_LIMIT && !SharesPage(q) && Maps(dest, PageStart(q)) && Maps(current, PageStart(q))
      && FrameAt(dest, PageStart(q)) == buffer.address
    }

    /** An entry filled in the copy is the entry of an unshared page. */
    lemma FilledPage(dest: Directory, used: iset<nat>, before: seq<Contents>, j: nat, x: nat) returns (q: nat)
      requires Cloned(dest, used, before) && Filled(CopiedTables(dest, TABLES_PER_DIRECTORY), j, x)
      ensures q < FRAME_LIMIT && !SharesPage(q) && Maps(dest, PageStart(q)) && Maps(current, PageStart(q))
      ensures FrameAt(dest, PageStart(q)) == CopiedTables(dest, TABLES_PER_DIRECTORY)[j][x].address
    {
      hide Directory.Separate, Directory.InStep, TableIndex, PageIndex, PageNumber, Mmu.CopiesApart;
      assert CopiedTables(dest, TABLES_PER_DIRECTORY)[j] == SlotValues(dest, j).1;
      assert SlotCloned(dest, j, used, before);
      EntryOfCopy(dest, used, before, j, x);
      q := j * PAGES_PER_TABLE + x;
      assert PageStart(q) == AddressOf(j, x);
      AddressIndices(j, x);
      OwnPage(q);
      PageOfCopy(dest, used, before, PageStart(q));
    }

    /** And the entry of every unshared page was filled. */
    lemma PageFilled(dest: Directory, used: iset<nat>, before: seq<Contents>, q: nat)
      requires Cloned(dest, used, before) && q < FRAME_LIMIT && !SharesPage(q) && Maps(current, PageStart(q))
      ensures exists j, x :: Filled(CopiedTables(dest, TABLES_PER_DIRECTORY), j, x)
    {
      hide Directory.Separate, Directory.InStep, TableIndex, PageIndex, PageNumber, Mmu.CopiesApart;
      OwnPage(q);
      IndicesDetermine(PageStart(q), 0);
      var j, x := TableIndex(PageStart(q)), PageIndex(PageStart(q));
      current.LookupInPages(PageStart(q));
      assert SlotCloned(dest, j, used, before);
      var v := SlotValues(dest, j);
      assert CopiedTables(dest, TABLES_PER_DIRECTORY)[j] == v.1;
      assert v.0[x].address != 0 && CopiedEntry(v.0[x], v.1[x], used, fa.Used(), before, phys);
      assert Filled(CopiedTables(dest, TABLES_PER_DIRECTORY), j, x);
    }

    /** Where clone_directory leaves the buffer page. */
    lemma BufferLeft(dest: Directory, used: iset<nat>, before: seq<Contents>, first: nat)
      requires Cloned(dest, used, before)
      requires buffer.address == LastOf(CopiedTables(dest, TABLES_PER_DIRECTORY), first)
      ensures NothingToCopy() ==> buffer.address == first
      ensures !NothingToCopy() ==> exists q :: Parked(dest, q)
    {
      hide Mmu.Cloned, Mmu.Maps, Mmu.SharesPage, LastOf, Mmu.FrameAt, Mmu.CopiedTables, PageStart;
      assert current.Shape() && kernel.Shape() && dest.Shape() by { ClonedShapes(dest, used, before); }
      var ts := CopiedTables(dest, TABLES_PER_DIRECTORY);
      LastOfCases(ts, first);
      if j, x :| Filled(ts, j, x) && ts[j][x].address == LastOf(ts, first) {
        var q := FilledPage(dest, used, before, j, x);
        assert Parked(dest, q);
      } else if !NothingToCopy() {
        var n: nat :| n < FRAME_LIMIT && Maps(current, PageStart(n)) && !SharesPage(n);
        PageFilled(dest, used, before, n);
      }
    }

    lemma ClonedShapes(dest: Directory, used: iset<nat>, before: seq<Contents>)
      requires Cloned(dest, used, before)
      ensures current.Shape() && kernel.Shape() && dest.Shape() && Valid() && dest.Separate() && current.Separate()
      ensures current.Lookup(PAGE_CLONING_BUFFER) == Some(buffer)
    {
    }

    /** Where two pages, neither the buffer page, have one frame: as before. */
    lemma OthersMeet(dest: Directory, used: iset<nat>, before: seq<Contents>, p: nat, q: nat)
      requires Cloned(dest, used, before) && Injective(current) && dest.Lookup(PAGE_CLONING_BUFFER) == Some(buffer)
      requires p < FRAME_LIMIT && q < FRAME_LIMIT && Reaches(current, p) && Reaches(dest, q)
      requires p != BUFFER_PAGE && q != BUFFER_PAGE
      ensures Reached(current, p) == Reached(dest, q) <==> p == q && SharesPage(p)
    {
      hide Mmu.Cloned, Mmu.Injective, Mmu.Maps, Mmu.FrameAt, Mmu.Reaches, Mmu.Reached;
      hide PageStart, PageNumber, TableIndex, PageIndex;
      ClonedShapes(dest, used, before);
      ReachedFrame(current, p);
      ReachedFrame(dest, q);
      OwnPage(p);
      OwnPage(q);
      IndicesDetermine(PageStart(q), 0);
      PagesMeet(dest, used, before, PageStart(p), PageStart(q));
    }

    /** Frames of the original are used ones, those private to the copy are not. */
    lemma OriginalUsed(dest: Directory, used: iset<nat>, before: seq<Contents>, p: nat)
      requires Cloned(dest, used, before) && p < FRAME_LIMIT && Maps(current, PageStart(p))
      ensures FrameAt(current, PageStart(p)) in used
    {
      current.LookupInPages(PageStart(p));
    }

    lemma CopyUnused(dest: Directory, used: iset<nat>, before: seq<Contents>, q: nat)
      requires Cloned(dest, used, before) && q < FRAME_LIMIT && Maps(dest, PageStart(q))
      ensures Maps(current, PageStart(q))
      ensures if SharesPage(q) then FrameAt(dest, PageStart(q)) == FrameAt(current, PageStart(q))
              else FrameAt(dest, PageStart(q)) !in used
    {
      hide Mmu.Cloned, PageStart, PageNumber, TableIndex, PageIndex;
      ClonedShapes(dest, used, before);
      OwnPage(q);
      IndicesDetermine(PageStart(q), 0);
      PageOfCopy(dest, used, before, PageStart(q));
    }

    /** Two pages of one directory, neither the buffer page, have different frames. */
    lemma FramesDiffer(dir: Directory, p: nat, q: nat)
      requires dir.Shape() && dir.Separate() && Injective(dir) && p < FRAME_LIMIT && q < FRAME_LIMIT && p != q
      requires Maps(dir, PageStart(p)) && Maps(dir, PageStart(q))
      ensures FrameAt(dir, PageStart(p)) != FrameAt(dir, PageStart(q))
    {
      hide PageStart, PageNumber, TableIndex, PageIndex, Directory.Separate, Mmu.Injective;
      OwnPage(p);
      OwnPage(q);
      dir.LookupInPages(PageStart(p));
      dir.LookupInPages(PageStart(q));
      if dir.Lookup(PageStart(p)) == dir.Lookup(PageStart(q)) { dir.LookupInjective(PageStart(p), PageStart(q)); }
      InjectiveAt(dir, dir.Lookup(PageStart(p)).value, dir.Lookup(PageStart(q)).value);
    }

    /** When something was copied, the buffer page leaks exactly one private page of the copy. */
    lemma LeaksOne(dest: Directory, used: iset<nat>, before: seq<Contents>, q0: nat)
      requires Cloned(dest, used, before) && Injective(current) && Usable(dest) && Parked(dest, q0)
      ensures IsolatedBut(AllSpaces(dest), Leak(BUFFER_PAGE, q0))
    {
      hide Mmu.Cloned, Mmu.Injective, Mmu.Maps, Mmu.FrameAt, Mmu.Reaches, Mmu.Reached, Mmu.SharesPage;
      hide PageStart, PageNumber, TableIndex, PageIndex, Directory.Separate, Directory.InStep, Directory.Lookup;
      ClonedShapes(dest, used, before);
      BufferIsShared();
      var sp := AllSpaces(dest);
      CopyUnused(dest, used, before, q0);
      forall p, q | p in sp.original && q in sp.copy
        ensures sp.original[p] == sp.copy[q] <==> (p == q && p in sp.shared) || Leak(BUFFER_PAGE, q0) == Leak(p, q)
      {
        ReachedFrame(current, p);
        ReachedFrame(dest, q);
        if p != BUFFER_PAGE && q != BUFFER_PAGE {
          OthersMeet(dest, used, before, p, q);
        } else if p != BUFFER_PAGE {
          OriginalUsed(dest, used, before, p);
        } else if q != BUFFER_PAGE && q != q0 {
          FramesDiffer(dest, q, q0);
        }
      }
    }

    /** When nothing was copied, the copy has exactly the frames of the original. */
    lemma NothingCopied(dest: Directory, used: iset<nat>, before: seq<Contents>, q: nat)
      requires Cloned(dest, used, before) && q < FRAME_LIMIT && Maps(dest, PageStart(q)) && NothingToCopy()
      ensures Maps(current, PageStart(q)) && FrameAt(dest, PageStart(q)) == FrameAt(current, PageStart(q))
    {
      hide Mmu.Cloned;
      CopyUnused(dest, used, before, q);
    }

    /**
     * Original and copy are isolated on all pages, the buffer page included, exactly when there was nothing to copy
     * and the buffer page had a frame of its own before.
     */
    lemma IsolatedIff(dest: Directory, used: iset<nat>, before: seq<Contents>, first: nat)
      requires Cloned(dest, used, before) && Injective(current) && Usable(dest)
      requires buffer.address == LastOf(CopiedTables(dest, TABLES_PER_DIRECTORY), first)
      ensures Isolated(AllSpaces(dest)) <==> NothingToCopy() && OwnFrame(first)
    {
      hide Mmu.Cloned, Mmu.Injective, Mmu.Maps, Mmu.FrameAt, Mmu.Reaches, Mmu.Reached, Mmu.SharesPage, LastOf;
      hide PageStart, PageNumber, TableIndex, PageIndex, Directory.Separate, Directory.InStep, Directory.Lookup;
      ClonedShapes(dest, used, before);
      BufferLeft(dest, used, before, first);
      BufferIsShared();
      var sp := AllSpaces(dest);
      if !NothingToCopy() {
        var q0 :| Parked(dest, q0);
        LeakNotIsolated(dest, used, before, q0);
      } else if OwnFrame(first) {
        forall p, q | p in sp.original && q in sp.copy
          ensures sp.original[p] == sp.copy[q] <==> (p == q && p in sp.shared) || NoLeak == Leak(p, q)
        {
          ReachedFrame(current, p);
          ReachedFrame(dest, q);
          if p != BUFFER_PAGE && q != BUFFER_PAGE {
            OthersMeet(dest, used, before, p, q);
          } else if q != BUFFER_PAGE {
            NothingCopied(dest, used, before, q);
          }
        }
      } else {
        var n: nat :| n < FRAME_LIMIT && Maps(current, PageStart(n)) && FrameAt(current, PageStart(n)) == first;
        SharedFrameNotIsolated(dest, used, before, n);
      }
    }

    lemma BufferReached(dir: Directory)
      requires dir.Shape() && dir.Separate() && dir.Lookup(PAGE_CLONING_BUFFER) == Some(buffer) && buffer.address != 0
      ensures BUFFER_PAGE in AllFrames(dir) && AllFrames(dir)[BUFFER_PAGE] == buffer.address
    {
      hide Mmu.Reaches, Mmu.Reached;
      ReachedFrame(dir, BUFFER_PAGE);
    }

    lemma PageReached(dir: Directory, n: nat)
      requires dir.Shape() && dir.Separate() && dir.Lookup(PAGE_CLONING_BUFFER) == Some(buffer)
      requires n < FRAME_LIMIT && Maps(dir, PageStart(n))
      ensures n != BUFFER_PAGE && n in AllFrames(dir) && AllFrames(dir)[n] == FrameAt(dir, PageStart(n)) != 0
    {
      hide Mmu.Reaches, Mmu.Reached;
      BufferStart();
      ReachedFrame(dir, n);
    }

    /** A copied page that has the buffer's frame is reached by the original through the buffer page. */
    lemma LeakNotIsolated(dest: Directory, used: iset<nat>, before: seq<Contents>, q0: nat)
      requires Cloned(dest, used, before) && Usable(dest) && Parked(dest, q0)
      ensures !Isolated(AllSpaces(dest))
    {
      hide Mmu.Cloned, Mmu.Injective, Mmu.Maps, Mmu.FrameAt, Mmu.AllFrames, Mmu.SharesPage;
      ClonedShapes(dest, used, before);
      PageReached(dest, q0);
      BufferReached(current);
      var sp := AllSpaces(dest);
      assert sp.original[BUFFER_PAGE] == sp.copy[q0];
    }

    /** A shared page that has the buffer's frame is reached under two addresses. */
    lemma SharedFrameNotIsolated(dest: Directory, used: iset<nat>, before: seq<Contents>, n: nat)
      requires Cloned(dest, used, before) && Usable(dest) && n < FRAME_LIMIT && Maps(current, PageStart(n))
      requires FrameAt(current, PageStart(n)) == buffer.address
      ensures !Isolated(AllSpaces(dest))
    {
      hide Mmu.Cloned, Mmu.Injective, Mmu.Maps, Mmu.FrameAt, Mmu.AllFrames, Mmu.SharesPage;
      ClonedShapes(dest, used, before);
      PageReached(current, n);
      BufferReached(dest);
      var sp := AllSpaces(dest);
      assert sp.original[n] == sp.copy[BUFFER_PAGE];
    }

    // ----- clone_directory and switch_page_directory -----

    /** What holds between calls: the machine is valid, and no two pages of the current directory share a frame. */
    ghost predicate Sound()
      reads this, fa.frames.base, km, kernel, current, current.Pages()
    {
      Valid() && Injective(current)
    }

    /** The directory that clone_directory starts from. */
    method EmptyCopy() returns (dest: Directory)
      requires Valid()
      modifies km`firstUnused
      ensures fresh(dest) && dest.Shape() && Valid() && Progress(dest, 0, fa.Used(), phys, buffer.address)
    {
      hide Directory.Separate, Mmu.Progress;
      var physical := km.Kmalloc(Boot.DIRECTORY_BYTES, true);
      dest := new Directory(physical);
      EmptyInStep(dest, km.tables);
      NothingDone(dest);
    }

    /** The loop of clone_directory. */
    method CopySlots() returns (r: Outcome<Directory>)
      requires Valid()
      modifies this`phys, buffer, fa.frames.base, km
      ensures Valid()
      ensures r.Panic? ==> r.fault == NoFreeFrames && old(fa.Available()) < old(PagesToCopy(TABLES_PER_DIRECTORY))
      ensures r.Done? ==> old(fa.Available()) == fa.Available() + old(PagesToCopy(TABLES_PER_DIRECTORY))
      ensures r.Done? ==> fresh(r.value) && Cloned(r.value, old(fa.Used()), old(phys))
      ensures r.Done? ==> fresh(r.value.Pages() - current.Pages()) && Away(r.value, km)
      ensures r.Done? ==> Preserved(old(fa.Used()), old(phys), phys)
      ensures r.Done? ==> buffer.address == LastOf(CopiedTables(r.value, TABLES_PER_DIRECTORY), old(buffer.address))
    {
      hide Mmu.Progress, Mmu.Cloned, Preserved, LastOf, Mmu.CopiedTables, Directory.Separate, Directory.InStep;
      hide Mmu.ToCopy, FrameAllocator.Available;
      ghost var used, before, first := fa.Used(), phys, buffer.address;
      forall n: nat | n <= TABLES_PER_DIRECTORY ensures PagesToCopy(n) <= PagesToCopy(TABLES_PER_DIRECTORY) {
        FewerBefore(n, TABLES_PER_DIRECTORY);
      }
      var dest := EmptyCopy();
      var i := 0;
      while i < TABLES_PER_DIRECTORY
        invariant i <= TABLES_PER_DIRECTORY && Valid() && Progress(dest, i, used, before, first)
        invariant old(fa.Available()) == fa.Available() + old(PagesToCopy(i))
        invariant dest.Shape() && forall j, p :: 0 <= j < i && !Shares(j) && OfSlot(dest, j, p) ==> fresh(p)
      {
        SameCost(i);
        assert old(PagesToCopy(i + 1) <= PagesToCopy(TABLES_PER_DIRECTORY));
        label begun:
        var slot := CloneSlot(i, dest, used, before, first);
        if slot.Panic? { return Panic(slot.fault); }
        forall j: nat, p | j <= i && !Shares(j) && OfSlot(dest, j, p) ensures fresh(p) {
          if j < i { assert old@begun(!Shares(j) && OfSlot(dest, j, p)); }
        }
        i := i + 1;
      }
      ProgressDone(dest, used, before, first);
      forall p | p in dest.Pages() && p !in current.Pages() ensures fresh(p) {
        ghost var j := OwnPages(dest, used, before, p);
      }
      return Done(dest);
    }

    ghost predicate OfSlot(dest: Directory, j: nat, p: Page)
      requires dest.Shape() && j < TABLES_PER_DIRECTORY
      reads dest
    {
      dest.tables[j] != null && p in dest.tables[j].pages
    }

    /** A page of the copy that is not one of the original is in a copied table. */
    lemma OwnPages(dest: Directory, used: iset<nat>, before: seq<Contents>, p: Page) returns (j: nat)
      requires Cloned(dest, used, before) && p in dest.Pages() && p !in current.Pages()
      ensures dest.Shape() && current.Shape() && kernel.Shape()
      ensures j < TABLES_PER_DIRECTORY && !Shares(j) && OfSlot(dest, j, p)
    {
      hide Copied, Mmu.CopiesApart, Mmu.SlotValues, Directory.Separate, Directory.InStep;
      var x;
      j, x := dest.SlotOfPage(p);
      SharedTables(dest, used, before);
      current.AllInPages();
    }

    /** What is copied from a slot does not depend on the buffer page. */
    twostate lemma SameCost(i: nat)
      requires old(Valid()) && Valid() && current == old(current) && i < TABLES_PER_DIRECTORY
      requires current.tables == old(current.tables) && kernel.tables == old(kernel.tables)
      requires forall p :: p in old(current.Pages()) && p != buffer ==> p.Value() == old(p.Value())
      ensures ToCopy(i) == old(ToCopy(i))
    {
      hide Directory.Separate, Directory.InStep, Count;
      if !Shares(i) {
        forall x | 0 <= x < PAGES_PER_TABLE
          ensures current.tables[i].pages[x].Value() == old(current.tables[i].pages[x].Value())
        {
          NotBuffer(i, x);
        }
        assert Values(current.tables[i]) == old(Values(current.tables[i]));
      }
    }

    lemma NothingDone(dest: Directory)
      requires Valid() && dest.Valid(km.tables) && forall j :: 0 <= j < TABLES_PER_DIRECTORY ==> dest.tables[j] == null
      requires Away(dest, km)
      ensures Progress(dest, 0, fa.Used(), phys, buffer.address)
    {
      hide Copied, FramesApart, Directory.Separate, Directory.InStep, Mmu.SlotValues;
      PreservedSelf(fa.Used(), phys);
    }

    lemma ProgressDone(dest: Directory, used: iset<nat>, before: seq<Contents>, first: nat)
      requires Valid() && Progress(dest, TABLES_PER_DIRECTORY, used, before, first)
      requires forall p :: p in current.Pages() && p != buffer && p.address != 0 ==> p.address in used
      ensures Cloned(dest, used, before) && Preserved(used, before, phys) && Away(dest, km)
      ensures buffer.address == LastOf(CopiedTables(dest, TABLES_PER_DIRECTORY), first)
    {
      hide Copied, Preserved, FramesApart, LastFrame, LastOf, Directory.Separate, Directory.InStep, Mmu.SlotValues;
    }

    /** Page `n` is mapped in the current directory and a copy would not share it. */
    ghost predicate Private(n: nat)
      requires current.Shape() && kernel.Shape()
      reads this`current, kernel, current, current.Pages()
    {
      n < FRAME_LIMIT && Maps(current, PageStart(n)) && !SharesPage(n)
    }

    /** The pages below `m` that clone_directory copies. */
    ghost function CopySet(m: nat): set<nat>
      requires current.Shape() && kernel.Shape()
      reads this`current, kernel, current, current.Pages()
    {
      set n: nat | n < m && Private(n)
    }

    /** An entry of a slot that is not shared has a frame exactly when its page is private. */
    lemma EntryPrivate(i: nat, x: nat)
      requires Valid() && i < TABLES_PER_DIRECTORY && x < PAGES_PER_TABLE
      ensures Private(i * PAGES_PER_TABLE + x) <==> !Shares(i) && current.tables[i].pages[x].address != 0
    {
      hide Directory.Separate, Directory.InStep, TableIndex, PageIndex, PageNumber;
      var n := i * PAGES_PER_TABLE + x;
      assert PageStart(n) == AddressOf(i, x);
      AddressIndices(i, x);
      if !Shares(i) { NotBuffer(i, x); }
    }

    /** The pages to copy, counted slot by slot and entry by entry. */
    lemma {:induction false} CopySetCounts(i: nat, x: nat)
      requires Valid() && i < TABLES_PER_DIRECTORY && x <= PAGES_PER_TABLE
      ensures |CopySet(i * PAGES_PER_TABLE + x)| ==
        PagesToCopy(i) + if Shares(i) then 0 else Count(Values(current.tables[i])[..x])
      decreases i, x
    {
      hide Directory.Separate, Directory.InStep, Directory.Lookup, Directory.Pages, Mmu.Private, Mmu.CopySet;
      hide Mmu.PagesToCopy;
      var m := i * PAGES_PER_TABLE + x;
      if x > 0 {
        CopySetCounts(i, x - 1);
        EntryPrivate(i, x - 1);
        CopySetStep(m - 1);
        if !Shares(i) { CountStep(Values(current.tables[i]), x - 1); }
      } else if i == 0 {
        NothingBelow();
      } else {
        CopySetCounts(i - 1, PAGES_PER_TABLE);
        SlotCount(i - 1);
      }
      if x == 0 && !Shares(i) { assert Count(Values(current.tables[i])[..0]) == 0; }
    }

    lemma CopySetStep(m: nat)
      requires current.Shape() && kernel.Shape()
      ensures |CopySet(m + 1)| == |CopySet(m)| + if Private(m) then 1 else 0
    {
      hide Mmu.Private;
      assert CopySet(m + 1) == CopySet(m) + if Private(m) then {m} else {};
    }

    lemma NothingBelow()
      requires current.Shape() && kernel.Shape()
      ensures |CopySet(0)| == 0 == PagesToCopy(0)
    {
      assert CopySet(0) == {};
    }

    lemma SlotCount(i: nat)
      requires current.Shape() && kernel.Shape() && i < TABLES_PER_DIRECTORY
      ensures PagesToCopy(i + 1) ==
        PagesToCopy(i) + if Shares(i) then 0 else Count(Values(current.tables[i])[..PAGES_PER_TABLE])
    {
      hide Count;
      if !Shares(i) {
        assert Values(current.tables[i])[..PAGES_PER_TABLE] == Values(current.tables[i]);
      }
    }

    lemma PagesToCopyIs()
      requires Valid()
      ensures PagesToCopy(TABLES_PER_DIRECTORY) == |CopySet(FRAME_LIMIT)|
    {
      hide Directory.Separate, Directory.InStep, Directory.Lookup, Mmu.CopySet, Mmu.PagesToCopy, Mmu.Shares;
      CopySetCounts(TABLES_PER_DIRECTORY - 1, PAGES_PER_TABLE);
      SlotCount(TABLES_PER_DIRECTORY - 1);
    }

    /** Whether there is something to copy does not depend on the buffer page, nor on the contents of memory. */
    twostate lemma SameGuard()
      requires old(current.Shape()) && old(kernel.Shape()) && current == old(current)
      requires current.tables == old(current.tables) && kernel.tables == old(kernel.tables)
      requires current.physical == old(current.physical) && kernel.physical == old(kernel.physical)
      requires forall p :: p in old(current.Pages()) && p != buffer ==> p.address == old(p.address)
      ensures NothingToCopy() == old(NothingToCopy())
      ensures forall f: nat :: OwnFrame(f) == old(OwnFrame(f))
    {
      hide PageStart, PageNumber, TableIndex, PageIndex;
      forall n: nat | n < FRAME_LIMIT
        ensures Maps(current, PageStart(n)) == old(Maps(current, PageStart(n))) && SharesPage(n) == old(SharesPage(n))
        ensures Maps(current, PageStart(n)) ==>
          FrameAt(current, PageStart(n)) == old(FrameAt(current, PageStart(n)))
      {
        OwnPage(n);
        current.LookupInPages(PageStart(n));
      }
    }

    /** clone_directory of the current directory */
    method CloneDirectory() returns (r: Outcome<Directory>)
      requires Sound()
      modifies this`phys, buffer, fa.frames.base, km
      ensures Sound()
      ensures r.Panic? ==> r.fault == NoFreeFrames
      ensures r.Panic? <==> old(fa.Available() < |CopySet(FRAME_LIMIT)|)
      ensures r.Done? ==> fa.Available() == old(fa.Available() - |CopySet(FRAME_LIMIT)|)
      ensures r.Done? ==>
        && fresh(r.value) && fresh(r.value.Pages() - current.Pages())
        && Cloned(r.value, old(fa.Used()), old(phys)) && Preserved(old(fa.Used()), old(phys), phys)
        && SameMeaning(r.value, old(fa.Used()), old(phys))
        && Usable(r.value) && TablesCloned(r.value) && Away(r.value, km)
        && buffer.address == LastOf(CopiedTables(r.value, TABLES_PER_DIRECTORY), old(buffer.address))
        && (Isolated(AllSpaces(r.value)) <==> old(NothingToCopy() && OwnFrame(buffer.address)))
        && (old(NothingToCopy()) ==> buffer.address == old(buffer.address))
        && (old(!NothingToCopy()) ==> exists q ::
              Parked(r.value, q) && IsolatedBut(AllSpaces(r.value), Leak(BUFFER_PAGE, q)))
        && Isolated(SpacesOf(r.value)) && SpacesOf(r.value).original.Keys == SpacesOf(r.value).copy.Keys
    {
      hide Preserved, Mmu.SlotCloned, Mmu.CopiesApart, Mmu.SameMeaning, Mmu.SpacesOf, Mmu.Usable, Isolated;
      hide IsolatedBut, LastOf, Mmu.CopiedTables, Mmu.AllSpaces, Mmu.NothingToCopy, Mmu.OwnFrame, Mmu.Parked;
      hide Mmu.PagesToCopy, Mmu.CopySet, FrameAllocator.Available, Mmu.TablesCloned;
      ghost var used, before, first := fa.Used(), phys, buffer.address;
      PagesToCopyIs();
      r := CopySlots();
      assert Injective(current);
      if r.Panic? { return; }
      SameGuard();
      ClonedMeans(r.value, used, before);
      CopyUsable(r.value, used, before);
      ClonedTables(r.value, used, before);
      ClonedIsolated(r.value, used, before);
      SamePages(r.value, used, before);
      BufferLeft(r.value, used, before, first);
      IsolatedIff(r.value, used, before, first);
      if !NothingToCopy() {
        ghost var q :| Parked(r.value, q);
        LeaksOne(r.value, used, before, q);
      }
    }

    /** switch_page_directory, to any usable directory */
    method SwitchDirectory(dir: Directory)
      requires Sound() && Usable(dir)
      modifies this`current
      ensures Sound() && current == dir
    {
      current := dir;
    }

    /** Clone and switch, as at the end of init_paging: the machine can do so again and again. */
    method CloneAndSwitch() returns (r: Outcome<()>)
      requires Sound()
      modifies this`phys, this`current, buffer, fa.frames.base, km
      ensures Sound()
      ensures r.Panic? ==> r.fault == NoFreeFrames
      ensures r.Panic? <==> old(fa.Available() < |CopySet(FRAME_LIMIT)|)
      ensures r.Done? ==> fa.Available() == old(fa.Available() - |CopySet(FRAME_LIMIT)|)
      ensures r.Done? ==> fresh(current)
      ensures r.Done? && old(NothingToCopy()) ==> buffer.address == old(buffer.address)
      ensures r.Done? ==> forall i :: 0 <= i < TABLES_PER_DIRECTORY && old(Shares(i)) ==>
        current.tables[i] == old(current.tables[i])
    {
      hide Mmu.Usable, Mmu.Cloned, Mmu.SameMeaning, Isolated, IsolatedBut, Mmu.SpacesOf, Mmu.AllSpaces, Preserved;
      hide LastOf, Mmu.CopiedTables, Mmu.OwnFrame, Mmu.Parked, Mmu.NothingToCopy, Directory.Separate, Directory.InStep;
      hide Mmu.CopySet, FrameAllocator.Available;
      ghost var used, before := fa.Used(), phys;
      var copy := CloneDirectory();
      if copy.Panic? { return Panic(copy.fault); }
      SharedTables(copy.value, used, before);
      SwitchDirectory(copy.value);
      return Done(());
    }

    /** Table by table: missing ones stay missing, the kernel's are shared, and no page of any other is shared. */
    ghost predicate TablesCloned(dest: Directory)
      requires current.Shape() && kernel.Shape() && dest.Shape()
      reads this`current, kernel, current, dest
    {
      forall i :: 0 <= i < 1024 ==>
        if current.tables[i] == null then dest.tables[i] == null
        else if current.tables[i] == kernel.tables[i] then dest.tables[i] == current.tables[i]
        else dest.tables[i] != null && forall p :: p in dest.tables[i].pages ==> p !in current.Pages()
    }

    lemma ClonedTables(dest: Directory, used: iset<nat>, before: seq<Contents>)
      requires Cloned(dest, used, before)
      ensures current.Shape() && kernel.Shape() && dest.Shape() && TablesCloned(dest)
    {
      hide Copied, Mmu.CopiesApart, Mmu.SlotValues, Directory.Separate, Directory.InStep;
      forall i | 0 <= i < 1024
        ensures Shares(i) ==> dest.tables[i] == current.tables[i]
        ensures !Shares(i) ==> dest.tables[i] != null && forall p :: p in dest.tables[i].pages ==> p !in current.Pages()
      {
        assert SlotCloned(dest, i, used, before);
      }
    }

    lemma SharedTables(dest: Directory, used: iset<nat>, before: seq<Contents>)
      requires Cloned(dest, used, before)
      ensures current.Shape() && kernel.Shape() && dest.Shape()
      ensures forall i :: 0 <= i < TABLES_PER_DIRECTORY && Shares(i) ==> dest.tables[i] == current.tables[i]
    {
      hide Copied, Mmu.CopiesApart, Mmu.SlotValues, Directory.Separate, Directory.InStep;
      forall i | 0 <= i < TABLES_PER_DIRECTORY && Shares(i) ensures dest.tables[i] == current.tables[i] {
        assert SlotCloned(dest, i, used, before);
      }
    }

    // ----- the leak, on a machine -----

    /** What the buffer page then reads: the contents of the leaked page. */
    lemma BufferReads(dest: Directory, used: iset<nat>, before: seq<Contents>, q: nat)
      requires Cloned(dest, used, before) && |before| == FRAME_LIMIT && SameMeaning(dest, used, before)
      requires Parked(dest, q) && FrameAt(current, PageStart(q)) < FRAME_LIMIT
      ensures buffer.address < FRAME_LIMIT && phys[buffer.address] == before[FrameAt(current, PageStart(q))]
    {
      hide Mmu.Cloned, PageStart, PageNumber, TableIndex, PageIndex, Mmu.SharesPage;
      ClonedShapes(dest, used, before);
      assert MeansSame(dest, PageStart(q), used, before);
    }

    /** get_page(a, TRUE, ...) in the current directory, where the table of `a` is missing: nothing is mapped by it. */
    method ObtainNew(a: nat) returns (page: Page)
      requires Sound() && current != kernel && a < WORD_LIMIT && current.Lookup(a).None?
      modifies current, km
      ensures Sound() && current.Lookup(a) == Some(page) && fresh(page) && page.address == 0
      ensures TableIndex(a) < TABLES_PER_DIRECTORY && kernel.tables[TableIndex(a)] != current.tables[TableIndex(a)]
      ensures current.tables == old(current.tables)[TableIndex(a) := current.tables[TableIndex(a)]]
      ensures forall b :: Maps(current, b) ==> old(Maps(current, b))
    {
      hide PageNumber, TableIndex, PageIndex, Directory.Separate, Directory.InStep, Boot.Reach, Boot.KeepsTables;
      BufferStart();
      IndicesDetermine(a, PAGE_CLONING_BUFFER);
      page := Boot.Obtain(a, true, current, km);
      assert Boot.KeepsEntry(old(current.Lookup(PAGE_CLONING_BUFFER)), current.Lookup(PAGE_CLONING_BUFFER));
      assert Boot.KeepsEntry(old(current.Lookup(a)), current.Lookup(a));
      forall b: nat | Maps(current, b) ensures old(Maps(current, b)) {
        assert Boot.KeepsEntry(old(current.Lookup(b)), current.Lookup(b));
        assert old(current.Lookup(b)).Some?;
        assert old(current.Lookup(b).value.address) != 0;
      }
    }

    /** page_alloc of an empty page of the current directory keeps the machine sound. */
    method GiveOwn(page: Page) returns (r: Outcome<()>)
      requires Sound() && page in current.Pages() && page != buffer && page.address == 0
      modifies page, fa.frames.base
      ensures r.Panic? ==> r.fault == NoFreeFrames
      ensures r.Panic? <==> old(fa.Available()) == 0
      ensures r.Done? ==> fa.Available() == old(fa.Available()) - 1
      ensures r.Done? ==> Sound() && page.address != 0
    {
      hide PageNumber, TableIndex, PageIndex, Directory.Separate, Directory.InStep, IsStep, Unused;
      ghost var pages := current.Pages();
      NoneUnused(fa.Used(), fa.Capacity());
      r := PageAlloc(page, fa, false, true);
      if r.Panic? { return; }
      UnusedTaken(old(fa.Used()), fa.Capacity(), page.address);
      assert current.Pages() == pages;
      hide Directory.Pages;
      assert forall p :: p in pages && p != page ==> p.address == old(p.address);
    }

    /** page_alloc(get_page(a, TRUE, ...)) for such an address. */
    method MapNew(a: nat) returns (r: Outcome<()>)
      requires Sound() && current != kernel && a < WORD_LIMIT && current.Lookup(a).None?
      modifies current, km, fa.frames.base
      ensures r.Panic? ==> r.fault == NoFreeFrames
      ensures r.Panic? <==> old(fa.Available()) == 0
      ensures r.Done? ==> fa.Available() == old(fa.Available()) - 1
      ensures r.Done? ==> Sound() && Maps(current, a)
      ensures r.Done? ==> TableIndex(a) < TABLES_PER_DIRECTORY && !Shares(TableIndex(a))
      ensures r.Done? ==> forall b :: Maps(current, b) && PageNumber(b) != PageNumber(a) ==> old(Maps(current, b))
      ensures r.Done? ==> current.tables == old(current.tables)[TableIndex(a) := current.tables[TableIndex(a)]]
    {
      hide PageNumber, TableIndex, PageIndex, Directory.Separate, Directory.InStep, IsStep;
      var page := ObtainNew(a);
      label obtained:
      current.LookupInPages(a);
      r := GiveOwn(page);
      if r.Panic? { return; }
      forall b | Maps(current, b) && PageNumber(b) != PageNumber(a) ensures old(Maps(current, b)) {
        if current.Lookup(b) == Some(page) { current.LookupInjective(a, b); }
        assert old@obtained(current.Lookup(b)) == current.Lookup(b);
        assert old@obtained(current.Lookup(b).value.address) != 0;
        assert old@obtained(Maps(current, b));
      }
    }

    /** After MapNew on a machine with nothing to copy, exactly the new page is to be copied. */
    method MapOnly(a: nat) returns (r: Outcome<()>)
      requires Sound() && current != kernel && NothingToCopy() && a < WORD_LIMIT && current.Lookup(a).None?
      modifies current, km, fa.frames.base
      ensures r.Panic? ==> r.fault == NoFreeFrames
      ensures r.Panic? <==> old(fa.Available()) == 0
      ensures r.Done? ==> fa.Available() == old(fa.Available()) - 1
      ensures r.Done? ==> Sound() && Maps(current, a) && forall n :: Private(n) <==> n == PageNumber(a)
    {
      hide PageNumber, TableIndex, PageIndex, Directory.Separate, Directory.InStep, PageStart, Mmu.Injective;
      r := MapNew(a);
      if r.Panic? { return; }
      ghost var k := PageNumber(a);
      IndicesDetermine(a, 0);
      OwnPage(k);
      Boot.SamePage(current, a, PageStart(k));
      IndicesDetermine(a, PageStart(k));
      forall n | Private(n) ensures n == k {
        OwnPage(n);
        IndicesDetermine(PageStart(n), 0);
      }
    }

    /** One page written through a directory. */
    method WriteTo(dir: Directory, a: nat, c: Contents)
      requires dir.Shape() && a < WORD_LIMIT && dir.Lookup(a).Some? && dir.Lookup(a).value.address < |phys|
      modifies this`phys
      ensures phys == old(phys)[dir.Lookup(a).value.address := c]
    {
      IndicesDetermine(a, 0);
      var page := dir.tables[TableIndex(a)].pages[PageIndex(a)];
      phys := phys[page.address := c];
    }

    /** When one page is copied, the buffer page is left on its frame in the copy. */
    lemma LeakedAt(dest: Directory, used: iset<nat>, before: seq<Contents>, a: nat, q: nat)
      requires Cloned(dest, used, before) && |before| == FRAME_LIMIT && SameMeaning(dest, used, before)
      requires Maps(current, a) && Parked(dest, q) && q == PageNumber(a)
      ensures Maps(dest, a) && FrameAt(dest, a) == buffer.address < FRAME_LIMIT
      ensures FrameAt(current, a) < FRAME_LIMIT && FrameAt(current, a) != buffer.address
      ensures phys[buffer.address] == phys[FrameAt(current, a)]
    {
      hide Mmu.Cloned, PageStart, PageNumber, TableIndex, PageIndex, Mmu.SharesPage, Directory.Separate;
      ClonedShapes(dest, used, before);
      OwnPage(q);
      Boot.SamePage(current, a, PageStart(q));
      Boot.SamePage(dest, a, PageStart(q));
      CopyUnused(dest, used, before, q);
      assert MeansSame(dest, a, used, before);
    }

    /** clone_directory when exactly the page of `a` is to be copied. */
    method CloneOne(a: nat) returns (r: Outcome<Directory>)
      requires Sound() && Maps(current, a) && forall n :: Private(n) <==> n == PageNumber(a)
      modifies this`phys, buffer, fa.frames.base, km
      ensures r.Panic? ==> r.fault == NoFreeFrames
      ensures r.Panic? <==> old(fa.Available()) == 0
      ensures r.Done? ==> Sound() && Usable(r.value) && Maps(current, a) && Maps(r.value, a)
      ensures r.Done? ==> FrameAt(r.value, a) == buffer.address < FRAME_LIMIT
      ensures r.Done? ==> FrameAt(current, a) < FRAME_LIMIT && FrameAt(current, a) != buffer.address
      ensures r.Done? ==> phys[buffer.address] == phys[FrameAt(current, a)]
    {
      hide Mmu.Injective, Mmu.Cloned, Mmu.SameMeaning, Mmu.Usable, Isolated, IsolatedBut, Preserved, LastOf, Mmu.Sound;
      hide Mmu.CopiedTables, Mmu.AllSpaces, Mmu.SpacesOf, Mmu.OwnFrame, PageStart, PageNumber, TableIndex, PageIndex;
      hide Mmu.CopySet, FrameAllocator.Available, Mmu.Private, Mmu.Maps, Mmu.FrameAt, Mmu.NothingToCopy, Mmu.Parked;
      ghost var used, before := fa.Used(), phys;
      SoundParts();
      OneToCopy(PageNumber(a));
      r := CloneDirectory();
      if r.Panic? { return; }
      ClonedShapes(r.value, used, before);
      ghost var q :| Parked(r.value, q) && IsolatedBut(AllSpaces(r.value), Leak(BUFFER_PAGE, q));
      SamePrivate();
      ParkedPrivate(r.value, q);
      LeakedAt(r.value, used, before, a, q);
    }

    lemma ParkedPrivate(dest: Directory, q: nat)
      requires current.Shape() && kernel.Shape() && dest.Shape() && Parked(dest, q)
      ensures Private(q)
    {
    }

    lemma OneToCopy(k: nat)
      requires current.Shape() && kernel.Shape() && forall n :: Private(n) <==> n == k
      ensures |CopySet(FRAME_LIMIT)| == 1 && !NothingToCopy()
    {
      assert Private(k);
      hide Mmu.Private;
      assert CopySet(FRAME_LIMIT) == {k};
    }

    lemma SoundParts()
      requires Sound()
      ensures Valid() && current.Shape() && kernel.Shape()
    {
    }

    /** Which pages are to be copied does not depend on the buffer page, nor on the contents of memory. */
    twostate lemma SamePrivate()
      requires old(current.Shape()) && old(kernel.Shape()) && current == old(current)
      requires current.tables == old(current.tables) && kernel.tables == old(kernel.tables)
      requires current.physical == old(current.physical) && kernel.physical == old(kernel.physical)
      requires forall p :: p in old(current.Pages()) && p != buffer ==> p.address == old(p.address)
      ensures forall n: nat :: Private(n) == old(Private(n))
      ensures forall b: nat :: Maps(current, b) == old(Maps(current, b))
    {
      hide PageStart, PageNumber, TableIndex, PageIndex;
      forall b: nat | b < WORD_LIMIT ensures Maps(current, b) == old(Maps(current, b)) {
        current.LookupInPages(b);
      }
      forall n: nat | n < FRAME_LIMIT ensures SharesPage(n) == old(SharesPage(n)) {
        OwnPage(n);
      }
    }

    /**
     * One page is mapped at `a`, the directory is cloned, and `c` is written to the user stack page through the
     * original: the copy then reads `c` at `a`, where the original still reads what both read before.
     */
    method StackLeak(a: nat, c: Contents) returns (r: Outcome<Directory>, ghost seen: Contents)
      requires Sound() && current != kernel && NothingToCopy() && a < WORD_LIMIT && current.Lookup(a).None?
      modifies this`phys, current, km, buffer, fa.frames.base
      ensures r.Panic? ==> r.fault == NoFreeFrames
      ensures r.Panic? <==> old(fa.Available()) < 2
      ensures r.Done? ==> Valid() && Maps(current, a) && r.value.Shape() && Maps(r.value, a)
      ensures r.Done? ==> FrameAt(current, a) < |phys| && FrameAt(r.value, a) < |phys|
      ensures r.Done? ==> phys[FrameAt(r.value, a)] == c && phys[FrameAt(current, a)] == seen
    {
      hide PageNumber, TableIndex, PageIndex, PageStart, Directory.Separate, Directory.InStep, Mmu.Injective;
      hide Mmu.NothingToCopy, Mmu.Private;
      seen := [];
      var mapped := MapOnly(a);
      if mapped.Panic? { return Panic(mapped.fault), seen; }
      r := CloneOne(a);
      if r.Panic? { return; }
      seen := phys[buffer.address];
      hide Mmu.Sound, Mmu.Usable;
      UsableShape(r.value);
      WriteStack(r.value, a, c);
    }

    lemma UsableShape(dir: Directory)
      requires Sound() && Usable(dir)
      ensures Valid() && dir.Shape()
    {
    }

    /** A write to the user stack page, seen where a page has its frame. */
    method WriteStack(copy: Directory, a: nat, c: Contents)
      requires Valid() && copy.Shape() && Maps(current, a) && Maps(copy, a)
      requires FrameAt(copy, a) == buffer.address < FRAME_LIMIT && FrameAt(current, a) < FRAME_LIMIT
      modifies this`phys
      ensures Valid() && copy.Shape() && Maps(current, a) && Maps(copy, a)
      ensures FrameAt(copy, a) == old(FrameAt(copy, a)) && FrameAt(current, a) == old(FrameAt(current, a))
      ensures phys == old(phys)[FrameAt(copy, a) := c]
    {
      hide Directory.Separate, Directory.InStep, TableIndex, PageIndex;
      WriteTo(current, TASK_USER_STACK_BOTTOM, c);
      current.LookupInPages(a);
      copy.LookupInPages(a);
    }

    /** The mapped pages of a table other than the buffer's own used frames. */
    lemma OwnedFrames(t: nat)
      requires Valid() && t < TABLES_PER_DIRECTORY && t != BUFFER_TABLE && current.tables[t] != null
      ensures forall e :: e in Values(current.tables[t]) && e.address != 0 ==>
        e.address in fa.Used() && e.address < FRAME_LIMIT
    {
      forall x | 0 <= x < PAGES_PER_TABLE
        ensures var f := Values(current.tables[t])[x].address; f != 0 ==> f in fa.Used() && f < FRAME_LIMIT
      {
        NotBuffer(t, x);
      }
    }
  }

  /** What boot leaves is a machine whose current directory is the kernel's. */
  lemma BootedIsSound(m: Mmu, b: Boot.Booted)
    requires Boot.Settled(b, m.km, m.fa) && m.kernel == b.dir && m.current == b.dir && m.buffer == b.buffer
    requires |m.phys| == FRAME_LIMIT
    ensures m.Sound()
  {
    hide Boot.IdentityBelow, Boot.HeapMapped, PageNumber, TableIndex, PageIndex;
  }

  /** A directory with the kernel's tables has nothing to copy. */
  lemma KernelTables(m: Mmu)
    requires m.current.Shape() && m.kernel.Shape() && m.current.tables == m.kernel.tables
    ensures m.NothingToCopy()
  {
    hide PageStart, TableIndex, PageIndex, PageNumber;
  }

  /** No page of some pages but `buffer` has frame `f`. */
  ghost predicate Alone(pages: set<Page>, buffer: Page, f: nat)
    reads pages
  {
    forall p :: p in pages && p != buffer && p.address != 0 ==> p.address != f
  }

  lemma AloneIsOwn(m: Mmu, f: nat)
    requires m.current.Shape() && Alone(m.current.Pages(), m.buffer, f)
    ensures m.OwnFrame(f)
  {
    hide PageStart, TableIndex, PageIndex, PageNumber;
    forall n: nat | n < FRAME_LIMIT && m.Maps(m.current, PageStart(n)) ensures m.FrameAt(m.current, PageStart(n)) != f {
      m.current.LookupInPages(PageStart(n));
    }
  }

  lemma ImageTableMissing(tables: seq<PageTable?>, bound: nat)
    requires |tables| == TABLES_PER_DIRECTORY && Boot.TablesWithin(tables, bound) && bound <= TASK_IMAGE_BASE
    ensures TableIndex(TASK_IMAGE_BASE) == 64 && tables[64] == null
  {
    assert AddressOf(64, 0) == TASK_IMAGE_BASE;
  }

  lemma BootedPages(b: Boot.Booted, km: BootMemory, fa: FrameAllocator)
    requires Boot.Settled(b, km, fa)
    ensures PageNumber(b.bound) * PAGE_SIZE == b.bound
  {
  }

  /** What boot promises to the first clone. */
  lemma BootedParts(m: Mmu, b: Boot.Booted)
    requires Boot.Settled(b, m.km, m.fa) && m.kernel == b.dir && m.current == b.dir && m.buffer == b.buffer
    requires |m.phys| == FRAME_LIMIT
    ensures m.Sound() && m.NothingToCopy() && Alone(b.dir.Pages(), b.buffer, b.buffer.address)
    ensures b.buffer in b.dir.Pages() && Boot.TablesWithin(b.dir.tables, b.bound) && b.dir.Shape()
  {
    hide Mmu.Sound, Mmu.NothingToCopy, Boot.IdentityBelow, Boot.HeapMapped, PageNumber, TableIndex, PageIndex;
    hide Boot.TablesWithin, Directory.Separate, Directory.InStep;
    BootedIsSound(m, b);
    KernelTables(m);
    b.dir.LookupInPages(PAGE_CLONING_BUFFER);
  }

  /** A clone that copies nothing always completes, and leaves the machine as it was, on another directory. */
  method FirstClone(m: Mmu)
    requires m.Sound() && m.NothingToCopy() && m.current == m.kernel
    requires Alone(m.kernel.Pages(), m.buffer, m.buffer.address)
    modifies m`phys, m`current, m.buffer, m.fa.frames.base, m.km
    ensures m.Sound() && fresh(m.current) && m.current.tables == m.kernel.tables
    ensures m.NothingToCopy() && m.OwnFrame(m.buffer.address) && m.fa.Available() == old(m.fa.Available())
  {
    hide Directory.Separate, Directory.InStep, Mmu.OwnFrame, Mmu.Injective, FrameAllocator.Available;
    ghost var pages := m.kernel.Pages();
    assert m.CopySet(FRAME_LIMIT) == {};
    hide Mmu.NothingToCopy, Mmu.CopySet;
    var r := m.CloneAndSwitch();
    assert m.current.tables == m.kernel.tables;
    assert m.current.Pages() == pages;
    KernelTables(m);
    AloneIsOwn(m, m.buffer.address);
  }

  /**
   * init_paging to its end: boot, then a first clone and the switch to it (src/mm/paging.c:43-95). The copy has
   * nothing to copy in turn, and the buffer page has a frame of its own.
   */
  method Start(km: BootMemory, fa: FrameAllocator, phys: seq<Contents>) returns (r: Outcome<Mmu>)
    requires km.Valid() && km.tables == map[] && fa.Valid() && FirstFrames(fa.Used(), 0) && |phys| == FRAME_LIMIT
    requires km.firstUnused + Boot.BOOT_BYTES <= WORD_LIMIT
    modifies km, fa.frames.base
    ensures r.Panic? ==> r.fault == NoFreeFrames
    ensures fa.Capacity() * PAGE_SIZE >= old(km.firstUnused) + Boot.BOOT_BYTES + (Boot.HEAP_PAGES + 1) * PAGE_SIZE ==>
      r.Done?
    ensures r.Done? ==>
      (fa.Capacity() - Boot.HEAP_PAGES - 2 - fa.Available()) * PAGE_SIZE <= old(km.firstUnused) + Boot.BOOT_BYTES
    ensures r.Done? ==> fresh(r.value) && fresh(r.value.current) && fresh(r.value.buffer)
    ensures r.Done? ==> r.value.Sound() && r.value.km == km && r.value.fa == fa && r.value.current != r.value.kernel
    ensures r.Done? ==> r.value.NothingToCopy() && r.value.OwnFrame(r.value.buffer.address)
    ensures r.Done? ==> r.value.open
    ensures r.Done? ==> r.value.current.tables == r.value.kernel.tables
    ensures r.Done? ==> fresh(r.value.current.Pages())
    ensures r.Done? && old(km.firstUnused) + Boot.BOOT_BYTES + PAGE_SIZE <= TASK_IMAGE_BASE ==>
      r.value.current.Lookup(TASK_IMAGE_BASE).None?
  {
    hide Boot.Stable, Boot.HeapMapped, Boot.Mapped, Boot.TablesWithin, Alone, Mmu.Injective, Mmu.Valid;
    hide Directory.Separate, Directory.InStep, Mmu.NothingToCopy, Mmu.OwnFrame, PageNumber, TableIndex, PageIndex;
    var booted := Boot.InitPaging(km, fa);
    if booted.Panic? { return Panic(booted.fault); }
    var dir := booted.value.dir;
    var m := new Mmu(fa, km, dir, dir, booted.value.buffer, phys, true);
    BootedParts(m, booted.value);
    ghost var tables := dir.tables;
    ghost var k := PageNumber(booted.value.bound) + Boot.HEAP_PAGES + 1;
    BootedPages(booted.value, km, fa);
    UnusedAbove(fa.Used(), fa.Capacity(), k);
    FirstClone(m);
    if booted.value.bound <= TASK_IMAGE_BASE { ImageTableMissing(tables, booted.value.bound); }
    return Done(m);
  }

  /** The kernel booted, one page mapped as task_create maps an image, and one write to the user stack. */
  method BootAndLeak(km: BootMemory, fa: FrameAllocator, phys: seq<Contents>, c: Contents)
    returns (r: Outcome<Directory>, m: Mmu?, ghost seen: Contents)
    requires km.Valid() && km.tables == map[] && fa.Valid() && FirstFrames(fa.Used(), 0) && |phys| == FRAME_LIMIT
    requires km.firstUnused + Boot.BOOT_BYTES + PAGE_SIZE <= TASK_IMAGE_BASE
    modifies km, fa.frames.base
    ensures r.Panic? ==> r.fault == NoFreeFrames
    ensures fa.Capacity() * PAGE_SIZE >= old(km.firstUnused) + Boot.BOOT_BYTES + (Boot.HEAP_PAGES + 4) * PAGE_SIZE ==>
      r.Done?
    ensures r.Done? ==> m != null && m.Valid() && r.value.Shape()
    ensures r.Done? ==> m.Maps(m.current, TASK_IMAGE_BASE) && m.Maps(r.value, TASK_IMAGE_BASE)
    ensures r.Done? ==> m.FrameAt(m.current, TASK_IMAGE_BASE) < |m.phys|
    ensures r.Done? ==> m.FrameAt(r.value, TASK_IMAGE_BASE) < |m.phys|
    ensures r.Done? ==> m.phys[m.FrameAt(r.value, TASK_IMAGE_BASE)] == c
    ensures r.Done? ==> m.phys[m.FrameAt(m.current, TASK_IMAGE_BASE)] == seen
  {
    hide Mmu.Sound, Mmu.NothingToCopy, Mmu.OwnFrame, Mmu.Maps, Mmu.FrameAt, Directory.Lookup;
    seen := [];
    var started := Start(km, fa, phys);
    if started.Panic? { return Panic(started.fault), null, seen; }
    m := started.value;
    r, seen := m.StackLeak(TASK_IMAGE_BASE, c);
  }

  /** Two entries of a copied table have different frames. */
  lemma CopiedOnce(s: seq<Entry>, d: seq<Entry>, used: iset<nat>, used': iset<nat>,
                   phys: seq<Contents>, phys': seq<Contents>, x: nat, y: nat)
    requires Copied(s, d, PAGES_PER_TABLE, used, used', phys, phys') && x < PAGES_PER_TABLE && y < PAGES_PER_TABLE
    requires x != y && d[x].address != 0
    ensures d[x].address != d[y].address
  {
  }

  lemma ApartAt(d: seq<Entry>, d': seq<Entry>, x: nat, y: nat)
    requires FramesApart(d, d') && x < |d| && y < |d'|
    ensures d[x].address != 0 ==> d[x].address != d'[y].address
  {
  }

  /** Later frames and writes to them do not undo a copy. */
  lemma CopiedLater(src: seq<Entry>, dest: seq<Entry>, n: nat, used: iset<nat>, used': iset<nat>, used'': iset<nat>,
                    phys: seq<Contents>, phys': seq<Contents>, phys'': seq<Contents>)
    requires Copied(src, dest, n, used, used', phys, phys') && used' <= used'' && Preserved(used', phys', phys'')
    ensures Copied(src, dest, n, used, used'', phys, phys'')
  {
    forall x | 0 <= x < n && src[x].address != 0 ensures CopiedEntry(src[x], dest[x], used, used'', phys, phys'') {
      assert CopiedEntry(src[x], dest[x], used, used', phys, phys');
    }
  }

  /** A copy made later is a copy of the earlier contents, which were preserved. */
  lemma CopiedEarlier(src: seq<Entry>, dest: seq<Entry>, n: nat, used: iset<nat>, used': iset<nat>, used'': iset<nat>,
                      phys: seq<Contents>, phys': seq<Contents>, phys'': seq<Contents>)
    requires Copied(src, dest, n, used', used'', phys', phys'') && used <= used' && Preserved(used, phys, phys')
    requires forall e :: e in src && e.address != 0 ==> e.address in used
    ensures Copied(src, dest, n, used, used'', phys, phys'')
  {
    forall x | 0 <= x < n && src[x].address != 0 ensures CopiedEntry(src[x], dest[x], used, used'', phys, phys'') {
      assert CopiedEntry(src[x], dest[x], used', used'', phys', phys'');
      assert src[x] in src;
    }
  }

  lemma PreservedJoin(used: iset<nat>, used': iset<nat>, phys: seq<Contents>, phys': seq<Contents>,
                      phys'': seq<Contents>)
    requires Preserved(used, phys, phys') && Preserved(used', phys', phys'') && used <= used'
    ensures Preserved(used, phys, phys'')
  {
  }

  lemma PreservedSelf(used: iset<nat>, phys: seq<Contents>)
    ensures Preserved(used, phys, phys)
  {
  }

  lemma EmptyInStep(dir: Directory, at: map<nat, PageTable>)
    requires dir.Valid(map[]) && forall i :: 0 <= i < |dir.tables| ==> dir.tables[i] == null
    ensures dir.Valid(at)
  {
  }

  lemma EmptyCopied(src: seq<Entry>, dest: seq<Entry>, used: iset<nat>, phys: seq<Contents>)
    requires |src| == |dest| == PAGES_PER_TABLE && |phys| == FRAME_LIMIT
    requires forall x :: 0 <= x < PAGES_PER_TABLE ==> dest[x] == EMPTY
    ensures Copied(src, dest, 0, used, used, phys, phys) && Preserved(used, phys, phys)
  {
  }

  /** The next entry is still empty, and nothing is to be done for an unmapped page. */
  lemma EmptyBeyond(src: seq<Entry>, dest: seq<Entry>, n: nat, used: iset<nat>, used': iset<nat>,
                    phys: seq<Contents>, phys': seq<Contents>)
    requires Copied(src, dest, n, used, used', phys, phys') && n < PAGES_PER_TABLE
    ensures dest[n] == EMPTY
    ensures src[n].address == 0 && 0 in used ==> Copied(src, dest, n + 1, used, used', phys, phys')
  {
    forall x | 0 <= x < n && src[x].address != 0 && src[n].address == 0 ensures dest[x].address != dest[n].address {
      assert CopiedEntry(src[x], dest[x], used, used', phys, phys');
    }
  }
}
