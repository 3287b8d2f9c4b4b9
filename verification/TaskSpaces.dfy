/** The address space that task_create of src/task/task.c gives to a task. */
module TaskSpaces {
  import opened Machine
  import opened Bitsets
  import opened Frames
  import opened Paging
  import opened Sharing
  import opened Cloning
  import Boot

  const TASK_KERNEL_STACK_BOTTOM: nat := 0x2000_0000

  /** A directory with more tables in memory than before. */
  lemma ValidExtended(dir: Directory, at: map<nat, PageTable>, at': map<nat, PageTable>)
    requires dir.Valid(at) && Extends(at, at')
    ensures dir.Valid(at')
  {
  }

  /** The frames some pages have now. */
  ghost function FramesOf(pages: set<Page>): (r: map<Page, nat>)
    reads pages
    ensures r.Keys == pages
  {
    map p | p in pages :: p.address
  }

  /** Used frames, no two the same, the buffer page aside. */
  ghost predicate Apart(frames: map<Page, nat>, buffer: Page, used: iset<nat>) {
    && (forall p :: p in frames && p != buffer && frames[p] != 0 ==> frames[p] in used && frames[p] < FRAME_LIMIT)
    && (forall p, q :: p in frames && q in frames && p != q && p != buffer && q != buffer && frames[p] != 0 ==>
          frames[p] != frames[q])
  }

  lemma AreApart(m: Mmu, dir: Directory)
    requires m.Injective(dir) && m.OwnsFrames(dir)
    ensures Apart(FramesOf(dir.Pages()), m.buffer, m.fa.Used())
  {
    hide Directory.Pages;
  }

  /** Pages that keep their frames, or have none, or are `page` with a frame that was free, share none. */
  lemma StayApart(m: Mmu, dir: Directory, was: map<Page, nat>, used: iset<nat>, page: Page)
    requires Apart(was, m.buffer, used) && m.fa.Used() >= used
    requires forall p :: p in dir.Pages() && p != m.buffer && p != page && p.address != 0 ==>
      p in was && p.address == was[p]
    requires page in dir.Pages() && page != m.buffer ==>
      && page in was
      && (page.address != was[page] ==>
           page.address !in used && page.address in m.fa.Used() && page.address < FRAME_LIMIT)
    ensures m.Injective(dir) && m.OwnsFrames(dir)
  {
    hide Directory.Pages;
  }

  /** get_page(a, TRUE, dir), in a directory that is not the current one. */
  method ObtainIn(m: Mmu, dir: Directory, a: nat) returns (page: Page)
    requires m.Sound() && m.Usable(dir) && dir != m.current && dir != m.kernel && a < WORD_LIMIT
    modifies dir, m.km
    ensures m.Sound() && m.Usable(dir) && dir.Lookup(a) == Some(page) && page in dir.Pages()
    ensures fresh(dir.Pages() - old(dir.Pages())) && Boot.KeepsTables(old(dir.tables), dir.tables)
  {
    hide TableIndex, PageIndex, PageNumber, Directory.Separate, Directory.InStep, Boot.Reach, Extends, Apart;
    hide Mmu.Injective, Directory.Pages, Boot.AddsTable;
    BufferStart();
    AreApart(m, dir);
    AreApart(m, m.current);
    ghost var used, mine, others := m.fa.Used(), FramesOf(dir.Pages()), FramesOf(m.current.Pages());
    ghost var at := m.km.tables;
    page := Boot.Obtain(a, true, dir, m.km);
    ValidExtended(m.current, at, m.km.tables);
    dir.LookupInPages(a);
    assert Boot.KeepsEntry(old(dir.Lookup(PAGE_CLONING_BUFFER)), dir.Lookup(PAGE_CLONING_BUFFER));
    StayApart(m, dir, mine, used, m.buffer);
    StayApart(m, m.current, others, used, m.buffer);
  }

  /** page_alloc as the kernel always calls it, to make pages writeable: every page with a frame stays open. */
  method AllocOpen(m: Mmu, dir: Directory, page: Page) returns (r: Outcome<()>)
    requires m.fa.Valid() && m.AllOpen(dir) && m.AllOpen(m.current) && page in dir.Pages()
    modifies page, m.fa.frames.base
    ensures r.Panic? ==> r.fault == NoFreeFrames && old(m.fa.Available()) == 0
    ensures r.Done? ==> m.AllOpen(dir) && m.AllOpen(m.current)
    ensures old(page.address) != 0 ==> r.Done? && page.Value() == old(page.Value()) && m.fa.Used() == old(m.fa.Used())
    ensures old(page.address) == 0 && r.Done? ==>
      LeastFree(old(m.fa.Used()), m.fa.Capacity(), page.address) && m.fa.Used() == old(m.fa.Used()) + iset{page.address}
  {
    hide IsStep, Unused;
    ghost var mine, others := dir.Pages(), m.current.Pages();
    NoneUnused(m.fa.Used(), m.fa.Capacity());
    r := PageAlloc(page, m.fa, false, true);
    assert dir.Pages() == mine && m.current.Pages() == others;
  }

  /** It also keeps the frames of both directories apart. */
  method AllocApart(m: Mmu, dir: Directory, page: Page) returns (r: Outcome<()>)
    requires m.fa.Valid() && page in dir.Pages() && m.AllOpen(dir) && m.AllOpen(m.current)
    requires m.Injective(dir) && m.OwnsFrames(dir) && m.Injective(m.current) && m.OwnsFrames(m.current)
    modifies page, m.fa.frames.base
    ensures r.Panic? ==> r.fault == NoFreeFrames && old(m.fa.Available()) == 0
    ensures r.Done? ==> m.AllOpen(dir) && m.Injective(dir) && m.OwnsFrames(dir)
    ensures r.Done? ==> m.AllOpen(m.current) && m.Injective(m.current) && m.OwnsFrames(m.current)
    ensures r.Done? ==> page.address != 0 || 0 !in old(m.fa.Used())
    ensures r.Done? ==> m.fa.Used() >= old(m.fa.Used()) && m.fa.Available() + 1 >= old(m.fa.Available())
    ensures old(page.address) != 0 ==> page.address == old(page.address)
  {
    hide Mmu.AllOpen, Mmu.Injective, Mmu.OwnsFrames, Apart, Unused;
    AreApart(m, dir);
    AreApart(m, m.current);
    ghost var used, mine, others := m.fa.Used(), FramesOf(dir.Pages()), FramesOf(m.current.Pages());
    r := AllocOpen(m, dir, page);
    if r.Panic? { return; }
    if m.fa.Used() != used { UnusedTaken(used, m.fa.Capacity(), page.address); }
    assert dir.Pages() == mine.Keys && m.current.Pages() == others.Keys;
    hide Directory.Pages;
    StayApart(m, dir, mine, used, page);
    StayApart(m, m.current, others, used, page);
  }

  /** page_alloc of a page of such a directory. */
  method GiveIn(m: Mmu, dir: Directory, page: Page) returns (r: Outcome<()>)
    requires m.Sound() && m.Usable(dir) && page in dir.Pages()
    modifies page, m.fa.frames.base
    ensures r.Panic? ==> r.fault == NoFreeFrames && old(m.fa.Available()) == 0
    ensures r.Done? ==> m.Sound() && m.Usable(dir) && page.address != 0
    ensures r.Done? ==> m.fa.Available() + 1 >= old(m.fa.Available())
    ensures old(page.address) != 0 ==> page.address == old(page.address)
  {
    hide TableIndex, PageIndex, PageNumber, Directory.Separate, Directory.InStep, FrameAllocator.Available;
    hide Mmu.Injective, Mmu.AllOpen;
    r := AllocApart(m, dir, page);
  }

  lemma UsableShape(m: Mmu, dir: Directory)
    requires m.Usable(dir)
    ensures dir.Shape() && dir.Lookup(TASK_USER_STACK_BOTTOM) == Some(m.buffer)
  {
  }

  /** page_alloc(get_page(a, TRUE, dir)) */
  method MapIn(m: Mmu, dir: Directory, a: nat) returns (r: Outcome<Page>)
    requires m.Sound() && m.Usable(dir) && dir != m.current && dir != m.kernel && a < WORD_LIMIT
    modifies dir, m.km, dir.Pages(), m.fa.frames.base
    ensures r.Panic? ==> r.fault == NoFreeFrames && old(m.fa.Available()) == 0
    ensures r.Done? ==> m.Sound() && m.Usable(dir) && Found(dir, a, r.value)
    ensures r.Done? ==> m.fa.Available() + 1 >= old(m.fa.Available())
    ensures r.Done? ==> fresh(dir.Pages() - old(dir.Pages())) && Boot.KeepsTables(old(dir.tables), dir.tables)
    ensures r.Done? ==> forall p :: p in old(dir.Pages()) && old(p.address) != 0 ==> p.address == old(p.address)
  {
    hide Mmu.Sound, Mmu.Usable, FrameAllocator.Available;
    var page := ObtainIn(m, dir, a);
    var given := GiveIn(m, dir, page);
    if given.Panic? { return Panic(given.fault); }
    UsableShape(m, dir);
    return Done(page);
  }

  /** mm_memcpy_physical of one whole page to a page-aligned address: through the cloning buffer, which stays there */
  method CopyToFrame(m: Mmu, dir: Directory, frame: nat, image: Contents)
    requires m.Sound() && m.Usable(dir) && frame < FRAME_LIMIT
    modifies m`phys, m.buffer
    ensures m.Sound() && m.Usable(dir)
    ensures m.phys == old(m.phys)[frame := image] && m.buffer.address == frame
  {
    hide TableIndex, PageIndex, PageNumber, Directory.Separate, Directory.InStep, Mmu.Injective;
    hide Mmu.AllOpen, Apart;
    AreApart(m, dir);
    AreApart(m, m.current);
    ghost var used, mine, others := m.fa.Used(), FramesOf(dir.Pages()), FramesOf(m.current.Pages());
    m.PointBuffer(frame, dir);
    var to := m.Translate(PAGE_CLONING_BUFFER);
    m.phys := m.phys[to := image];
    StayApart(m, dir, mine, used, m.buffer);
    StayApart(m, m.current, others, used, m.buffer);
  }

  /** The entry of an address has a frame. */
  ghost predicate Found(dir: Directory, a: nat, page: Page)
    reads dir, page
  {
    dir.Shape() && a < WORD_LIMIT && dir.Lookup(a) == Some(page) && page.address != 0
  }

  /** The same, while another address is mapped already. */
  method MapNext(m: Mmu, dir: Directory, a: nat, ghost b: nat, ghost other: Page) returns (r: Outcome<Page>)
    requires m.Sound() && m.Usable(dir) && dir != m.current && dir != m.kernel && a < WORD_LIMIT
    requires Found(dir, b, other)
    modifies dir, m.km, dir.Pages(), m.fa.frames.base
    ensures r.Panic? ==> r.fault == NoFreeFrames && old(m.fa.Available()) == 0
    ensures r.Done? ==> m.Sound() && m.Usable(dir) && Found(dir, a, r.value) && Found(dir, b, other)
    ensures r.Done? ==> m.fa.Available() + 1 >= old(m.fa.Available())
    ensures r.Done? ==> fresh(dir.Pages() - old(dir.Pages()))
  {
    hide Mmu.Sound, FrameAllocator.Available, TableIndex, PageIndex, Directory.Separate, Directory.InStep;
    hide Mmu.Injective;
    dir.LookupInPages(b);
    IndicesDetermine(b, 0);
    r := MapIn(m, dir, a);
  }

  /** Two addresses other than the buffer page. */
  lemma FoundMaps(m: Mmu, dir: Directory, a: nat, page: Page)
    requires m.Usable(dir) && Found(dir, a, page) && PageNumber(a) != PageNumber(PAGE_CLONING_BUFFER)
    ensures m.Maps(dir, a) && m.FrameAt(dir, a) == page.address < FRAME_LIMIT && page != m.buffer
  {
    hide TableIndex, PageIndex, PageNumber, Directory.Separate, Directory.InStep, Mmu.Injective;
    dir.LookupInPages(a);
    if page == m.buffer { dir.LookupInjective(a, PAGE_CLONING_BUFFER); }
  }

  /** The pages of a new task: src/task/task.c:47-50 */
  method MapTask(m: Mmu, dir: Directory) returns (r: Outcome<Page>)
    requires m.Sound() && m.Usable(dir) && dir != m.current && dir != m.kernel
    modifies dir, m.km, dir.Pages(), m.fa.frames.base
    ensures r.Panic? ==> r.fault == NoFreeFrames && old(m.fa.Available()) < 3
    ensures r.Done? ==> m.Sound() && m.Usable(dir) && Found(dir, TASK_IMAGE_BASE, r.value)
    ensures r.Done? ==> m.fa.Available() + 3 >= old(m.fa.Available())
    ensures r.Done? ==> m.Maps(dir, TASK_KERNEL_STACK_BOTTOM)
  {
    hide Mmu.Sound, Mmu.Usable, FrameAllocator.Available, TableIndex, PageIndex, Found, Mmu.Maps;
    r := MapIn(m, dir, TASK_IMAGE_BASE);
    if r.Panic? { return; }
    var user := MapNext(m, dir, TASK_USER_STACK_BOTTOM, TASK_IMAGE_BASE, r.value);
    if user.Panic? { return Panic(user.fault); }
    var kernel := MapNext(m, dir, TASK_KERNEL_STACK_BOTTOM, TASK_IMAGE_BASE, r.value);
    if kernel.Panic? { return Panic(kernel.fault); }
    FoundMaps(m, dir, TASK_KERNEL_STACK_BOTTOM, kernel.value);
  }

  /** The processor lets user code read and write at an address. */
  ghost predicate OpenAt(dir: Directory, a: nat)
    requires dir.Shape() && a < WORD_LIMIT
    reads dir, dir.Pages()
  {
    dir.LookupInPages(a);
    dir.Lookup(a).Some? && var p := dir.Lookup(a).value; p.present && p.writeable && p.userMode
  }

  lemma UsableOpen(m: Mmu, dir: Directory, a: nat)
    requires m.Usable(dir) && (m.Maps(dir, a) || a == PAGE_CLONING_BUFFER)
    ensures m.open ==> OpenAt(dir, a)
  {
    hide TableIndex, PageIndex, PageNumber, Directory.Separate, Directory.InStep, Mmu.Injective, Mmu.OwnsFrames;
    dir.LookupInPages(a);
  }

  /**
   * What task_create leaves behind: stack and image are one page; and on an open machine, as after boot, image, kernel
   * stack and user stack are open to user code.
   */
  ghost predicate StackIsImage(m: Mmu, dir: Directory, image: Contents)
    reads m, dir, dir.Pages(), m.buffer
  {
    && dir.Shape() && m.Maps(dir, 0x1000_0000) && m.Maps(dir, 0x2000_0000)
    && (m.open ==> OpenAt(dir, 0x1000_0000) && OpenAt(dir, 0x2000_0000) && OpenAt(dir, 0xF000_0000))
    && dir.Lookup(0xF000_0000) == Some(m.buffer)
    && m.buffer.address == m.FrameAt(dir, 0x1000_0000) < |m.phys| && m.phys[m.buffer.address] == image
  }

  /** The image is copied: src/task/task.c:53 */
  method CopyImage(m: Mmu, dir: Directory, page: Page, image: Contents)
    requires m.Sound() && m.Usable(dir) && Found(dir, TASK_IMAGE_BASE, page) && m.Maps(dir, TASK_KERNEL_STACK_BOTTOM)
    modifies m`phys, m.buffer
    ensures m.Sound() && m.Usable(dir) && StackIsImage(m, dir, image)
  {
    hide Mmu.Sound, Mmu.Usable, TableIndex, PageIndex, OpenAt;
    FoundMaps(m, dir, TASK_IMAGE_BASE, page);
    dir.LookupInPages(TASK_KERNEL_STACK_BOTTOM);
    SoundFrames(m);
    CopyToFrame(m, dir, page.address, image);
    UsableShape(m, dir);
    FoundMaps(m, dir, TASK_IMAGE_BASE, page);
    UsableOpen(m, dir, TASK_IMAGE_BASE);
    UsableOpen(m, dir, TASK_KERNEL_STACK_BOTTOM);
    UsableOpen(m, dir, TASK_USER_STACK_BOTTOM);
  }

  lemma SoundFrames(m: Mmu)
    requires m.Sound()
    ensures |m.phys| == FRAME_LIMIT
  {
  }

  /**
   * The address space task_create makes. Its user stack page is the cloning buffer, which the copying of the image
   * leaves on the frame of the image.
   */
  method CreateSpace(m: Mmu, image: Contents) returns (r: Outcome<Directory>)
    requires m.Sound()
    modifies m`phys, m.km, m.fa.frames.base, m.buffer, m.current.Pages()
    ensures r.Panic? ==> r.fault == NoFreeFrames && old(m.fa.Available() < |m.CopySet(FRAME_LIMIT)| + 3)
    ensures r.Done? ==> fresh(r.value) && m.Sound() && m.Usable(r.value) && StackIsImage(m, r.value, image)
    ensures r.Done? ==> m.fa.Available() + old(|m.CopySet(FRAME_LIMIT)|) + 3 >= old(m.fa.Available())
  {
    hide Mmu.Sound, Mmu.Usable, Mmu.Cloned, Mmu.SameMeaning, Isolated, IsolatedBut, Mmu.SpacesOf, Mmu.AllSpaces;
    hide Preserved, LastOf, Mmu.CopiedTables, Mmu.OwnFrame, Mmu.Parked, Mmu.NothingToCopy, Mmu.CopySet;
    hide FrameAllocator.Available, StackIsImage, Found, Mmu.Maps;
    SoundShapes(m);
    r := m.CloneDirectory();
    if r.Panic? { return; }
    var dir := r.value;
    var mapped := MapTask(m, dir);
    if mapped.Panic? { return Panic(mapped.fault); }
    CopyImage(m, dir, mapped.value, image);
  }

  lemma SoundShapes(m: Mmu)
    requires m.Sound()
    ensures m.current.Shape() && m.kernel.Shape() && m.buffer in m.current.Pages()
  {
    m.current.LookupInPages(PAGE_CLONING_BUFFER);
  }

  /**
   * Two tasks, one after the other, and a write by the first to its own stack: the second then finds it in its code.
   */
  method TwoTasks(m: Mmu, one: Contents, two: Contents, c: Contents)
    returns (r: Outcome<(Directory, Directory)>)
    requires m.Sound()
    modifies m`phys, m.km, m.fa.frames.base, m.buffer, m.current.Pages()
    ensures r.Panic? ==> r.fault == NoFreeFrames
    ensures old(m.current.tables == m.kernel.tables && m.fa.Available() >= 6) ==> r.Done?
    ensures r.Done? ==> r.value.1.Shape() && m.Maps(r.value.1, 0x1000_0000)
    ensures r.Done? ==> m.FrameAt(r.value.1, 0x1000_0000) < |m.phys|
    ensures r.Done? ==> m.phys[m.FrameAt(r.value.1, 0x1000_0000)] == c
    ensures r.Done? ==> r.value.0 != r.value.1
  {
    hide Mmu.Sound, Mmu.Usable, TableIndex, PageIndex, Mmu.CopySet, FrameAllocator.Available;
    NoneToCopy(m);
    var first := CreateSpace(m, one);
    if first.Panic? { return Panic(first.fault); }
    NoneToCopy(m);
    UsableShape(m, first.value);
    var second := CreateSpace(m, two);
    if second.Panic? { return Panic(second.fault); }
    m.WriteTo(first.value, TASK_USER_STACK_BOTTOM, c);
    second.value.LookupInPages(TASK_IMAGE_BASE);
    return Done((first.value, second.value));
  }

  lemma NoneToCopy(m: Mmu)
    requires m.Sound()
    ensures m.current.Shape() && m.kernel.Shape()
    ensures m.current.tables == m.kernel.tables ==> |m.CopySet(FRAME_LIMIT)| == 0
  {
    hide PageStart, TableIndex, PageIndex, PageNumber;
    SoundShapes(m);
    if m.current.tables == m.kernel.tables {
      KernelTables(m);
      assert m.CopySet(FRAME_LIMIT) == {};
    }
  }

  /** The same from boot, as main does it: with enough frames it always gets there. */
  method BootTwoTasks(km: BootMemory, fa: FrameAllocator, phys: seq<Contents>, one: Contents, two: Contents,
                      c: Contents)
    returns (r: Outcome<(Directory, Directory)>, m: Mmu?)
    requires km.Valid() && km.tables == map[] && fa.Valid() && FirstFrames(fa.Used(), 0) && |phys| == FRAME_LIMIT
    requires km.firstUnused + Boot.BOOT_BYTES <= WORD_LIMIT
    modifies km, fa.frames.base
    ensures fa.Capacity() * PAGE_SIZE >= old(km.firstUnused) + Boot.BOOT_BYTES + (Boot.HEAP_PAGES + 8) * PAGE_SIZE ==>
      r.Done?
    ensures r.Done? ==> m != null && r.value.1.Shape() && m.Maps(r.value.1, 0x1000_0000)
    ensures r.Done? ==> m.FrameAt(r.value.1, 0x1000_0000) < |m.phys|
    ensures r.Done? ==> m.phys[m.FrameAt(r.value.1, 0x1000_0000)] == c && r.value.0 != r.value.1
  {
    hide Mmu.Sound, Mmu.NothingToCopy, Mmu.OwnFrame, Mmu.Maps, Mmu.FrameAt, Directory.Lookup, FrameAllocator.Available;
    var started := Start(km, fa, phys);
    if started.Panic? { return Panic(started.fault), null; }
    m := started.value;
    r := TwoTasks(m, one, two, c);
  }
}
