/** src/mm/frame.c, and page_alloc and page_free of src/mm/paging.c: who owns which physical frame. */
module Frames {
  import opened Machine
  import opened Bitsets

  const FRAME_LIMIT: nat := 0x10_0000   // frames fit the 20-bit address field

  // ----- the frame allocator -----

  class FrameAllocator {
    const frames: Bitset
    const numFrames: nat

    /** init_frames */
    constructor (totalMemory: nat)
      requires totalMemory < WORD_LIMIT
      ensures numFrames == totalMemory / PAGE_SIZE && fresh(frames) && fresh(frames.base)
      ensures Used() == iset{} && Valid()
      ensures numFrames <= Capacity() == BITS * ((numFrames + BITS - 1) / BITS) < numFrames + BITS
    {
      var n := totalMemory / PAGE_SIZE;
      numFrames := n;
      frames := new Bitset(n);
      new;
      assert BITS * ((n + BITS - 1) / BITS) <= n + BITS - 1;
      assert n < FRAME_LIMIT;
    }

    ghost function Capacity(): nat {
      BITS * frames.base.Length
    }

    ghost predicate Valid() {
      Capacity() <= FRAME_LIMIT
    }

    ghost function Used(): iset<nat>
      reads frames.base
    {
      frames.Members()
    }

    /** The number of frames that can still be issued. */
    ghost function Available(): nat
      reads frames.base
    {
      Unused(Used(), Capacity())
    }

    /** frame_alloc: the least free frame */
    method Alloc() returns (r: Outcome<nat>)
      requires Valid()
      modifies frames.base
      ensures match r
        case Done(frame) => LeastFree(old(Used()), Capacity(), frame) && Used() == old(Used()) + iset{frame}
        case Panic(f) => f == NoFreeFrames && Used() == old(Used()) && forall i :: 0 <= i < Capacity() ==> i in Used()
      ensures r.Done? ==> (r.value >= numFrames <==> forall i :: 0 <= i < numFrames ==> i in old(Used()))
    {
      var frame := frames.FindFree();
      if frame == NONE_FREE {
        forall i | 0 <= i < Capacity() ensures i in Used() {
          NoLeastFree(Used(), Capacity(), i);
        }
        return Panic(NoFreeFrames);
      }
      assert frame / BITS < frames.base.Length;
      frames.Set(frame);
      return Done(frame);
    }

    /** frame_free: frame 0 is never given back */
    method Free(frame: nat)
      modifies frames.base
      ensures Used() == if frame != 0 then old(Used()) - iset{frame} else old(Used())
    {
      if frame != 0 {
        frames.Clear(frame);
      }
    }
  }

  /** Exactly the first `n` frames are used. */
  ghost predicate FirstFrames(used: iset<nat>, n: nat) {
    forall i: nat :: i in used <==> i < n
  }

  /** The least free frame is the next one. */
  lemma NextFrame(used: iset<nat>, n: nat, cap: nat)
    requires FirstFrames(used, n)
    ensures forall frame: nat :: LeastFree(used, cap, frame) ==> frame == n
    ensures (forall i :: 0 <= i < cap ==> i in used) ==> cap <= n
  {
    assert n !in used;
  }

  /** How many of the first `cap` frames are unused. */
  ghost function Unused(used: iset<nat>, cap: nat): nat {
    if cap == 0 then 0 else Unused(used, cap - 1) + if cap - 1 in used then 0 else 1
  }

  lemma {:induction false} UnusedTaken(used: iset<nat>, cap: nat, f: nat)
    requires f !in used
    ensures Unused(used, cap) == Unused(used + iset{f}, cap) + if f < cap then 1 else 0
  {
    if cap > 0 { UnusedTaken(used, cap - 1, f); }
  }

  lemma {:induction false} NoneUnused(used: iset<nat>, cap: nat)
    ensures Unused(used, cap) == 0 <==> forall i :: 0 <= i < cap ==> i in used
  {
    if cap > 0 { NoneUnused(used, cap - 1); }
  }

  lemma {:induction false} UnusedAbove(used: iset<nat>, cap: nat, k: nat)
    requires forall f: nat :: f in used ==> f < k
    ensures Unused(used, cap) + k >= cap
  {
    if cap > 0 { UnusedAbove(used, cap - 1, k); }
  }

  /** Rounding leaves no room above the number of frames exactly when that is a multiple of 32. */
  lemma NoFramesBeyondIff(n: nat)
    ensures BITS * ((n + BITS - 1) / BITS) >= n
    ensures BITS * ((n + BITS - 1) / BITS) == n <==> n % BITS == 0
  {
  }

  /** When all `n` frames of a machine are taken, frame `n`, which does not exist, is issued unless 32 divides `n`. */
  method FrameBeyond(n: nat) returns (fa: FrameAllocator, r: Outcome<nat>)
    requires n < FRAME_LIMIT
    ensures fa.numFrames == n && r == if n % BITS != 0 then Done(n) else Panic(NoFreeFrames)
  {
    NoFramesBeyondIff(n);
    fa := new FrameAllocator(n * PAGE_SIZE);
    for i := 0 to n
      invariant fresh(fa.frames.base) && fa.Valid() && fa.numFrames == n
      invariant FirstFrames(fa.Used(), i)
    {
      NextFrame(fa.Used(), i, fa.Capacity());
      var taken := fa.Alloc();
    }
    NextFrame(fa.Used(), n, fa.Capacity());
    r := fa.Alloc();
  }

  lemma {:induction false} NoLeastFree(used: iset<nat>, cap: nat, i: nat)
    requires i < cap && forall j :: !LeastFree(used, cap, j)
    ensures i in used && forall j :: 0 <= j < i ==> j in used
  {
    if i > 0 { NoLeastFree(used, cap, i - 1); }
    assert !LeastFree(used, cap, i);
  }

  // ----- pages and their frames, on values -----

  /** The fields of a page table entry that the kernel uses. */
  datatype Entry = Entry(present: bool, writeable: bool, userMode: bool, address: nat)

  const EMPTY: Entry := Entry(false, false, false, 0)

  /** The frames in use, and every page entry by name. */
  datatype Ownership = Ownership(used: iset<nat>, cap: nat, pages: map<nat, Entry>)

  datatype PageOp = AllocPage(page: nat, writeable: bool) | FreePage(page: nat)

  /** What page_alloc does to the entry, given the frame it was handed. */
  function Allocated(writeable: bool, frame: nat): Entry {
    Entry(true, writeable, true, frame)
  }

  function Freed(e: Entry): Entry {
    e.(address := 0, present := false)
  }

  /** Page `p` is given the least free frame. */
  ghost predicate Takes(o: Ownership, p: nat, w: bool, frame: nat, o': Ownership) {
    && LeastFree(o.used, o.cap, frame)
    && o' == o.(used := o.used + iset{frame}, pages := o.pages[p := Allocated(w, frame)])
  }

  ghost predicate Step(o: Ownership, op: PageOp, o': Ownership) {
    match op
    case AllocPage(p, w) =>
      p in o.pages &&
      if o.pages[p].address != 0 then o' == o
      else exists frame :: Takes(o, p, w, frame, o')
    case FreePage(p) =>
      p in o.pages &&
      o' == o.(used := if o.pages[p].address != 0 then o.used - iset{o.pages[p].address} else o.used,
               pages := o.pages[p := Freed(o.pages[p])])
  }

  /** No two pages own one frame, owned frames are marked, and every frame fits the address field. */
  ghost predicate Sound(o: Ownership) {
    && o.cap <= FRAME_LIMIT
    && (forall p :: p in o.pages && o.pages[p].address != 0 ==>
          o.pages[p].address in o.used && o.pages[p].address < FRAME_LIMIT)
    && (forall p, q :: p in o.pages && q in o.pages && p != q && o.pages[p].address != 0 ==>
          o.pages[p].address != o.pages[q].address)
  }

  lemma StepKeepsSound(o: Ownership, op: PageOp, o': Ownership)
    requires Sound(o) && Step(o, op, o')
    ensures Sound(o')
    ensures 0 in o.used ==> 0 in o'.used
    ensures op.AllocPage? && o' != o && 0 in o.used ==> o'.pages[op.page].address != 0
  {
  }

  ghost predicate Run(states: seq<Ownership>, ops: seq<PageOp>) {
    |states| == |ops| + 1 && forall i :: 0 <= i < |ops| ==> Step(states[i], ops[i], states[i + 1])
  }

  /** Over every run; and once frame 0 is taken, no later page is given it. */
  lemma {:induction false} RunKeepsSound(states: seq<Ownership>, ops: seq<PageOp>)
    requires Run(states, ops) && Sound(states[0])
    ensures forall i :: 0 <= i < |states| ==> Sound(states[i])
    ensures 0 in states[0].used ==> forall i :: 0 <= i < |states| ==> 0 in states[i].used
    ensures 0 in states[0].used ==> forall i :: 0 <= i < |ops| && ops[i].AllocPage? && states[i + 1] != states[i] ==>
      ops[i].page in states[i + 1].pages && states[i + 1].pages[ops[i].page].address != 0
  {
    var n := |ops|;
    if n > 0 {
      assert forall i :: 0 <= i < n ==> states[..n][i] == states[i];
      assert forall i :: 0 <= i < n - 1 ==> ops[..n - 1][i] == ops[i];
      RunKeepsSound(states[..n], ops[..n - 1]);
      assert Step(states[n - 1], ops[n - 1], states[n]);
      StepKeepsSound(states[n - 1], ops[n - 1], states[n]);
    }
  }

  // ----- pages as objects -----

  class Page {
    var present: bool
    var writeable: bool
    var userMode: bool
    var address: nat

    constructor ()
      ensures Value() == EMPTY
    {
      present, writeable, userMode, address := false, false, false, 0;
    }

    ghost function Value(): Entry
      reads this
    {
      Entry(present, writeable, userMode, address)
    }

    /** User code may read and write it. */
    ghost predicate Open()
      reads this
    {
      present && writeable && userMode
    }
  }

  /** What a call did to one page and to the frames is a step of every ownership that holds the page. */
  ghost predicate IsStep(op: PageOp, cap: nat, used: iset<nat>, e: Entry, used': iset<nat>, e': Entry) {
    forall pages: map<nat, Entry> :: op.page in pages && pages[op.page] == e ==>
      Step(Ownership(used, cap, pages), op, Ownership(used', cap, pages[op.page := e']))
  }

  lemma AllocIsStep(p: nat, w: bool, cap: nat, used: iset<nat>, e: Entry, used': iset<nat>, e': Entry)
    requires e.address != 0 ==> used' == used && e' == e
    requires e.address == 0 ==>
      LeastFree(used, cap, e'.address) && used' == used + iset{e'.address} && e' == Allocated(w, e'.address)
    ensures IsStep(AllocPage(p, w), cap, used, e, used', e')
  {
    forall pages: map<nat, Entry> | p in pages && pages[p] == e
      ensures Step(Ownership(used, cap, pages), AllocPage(p, w), Ownership(used', cap, pages[p := e']))
    {
      var o, o' := Ownership(used, cap, pages), Ownership(used', cap, pages[p := e']);
      if e.address != 0 {
        assert pages[p := e'] == pages;
      } else {
        assert Takes(o, p, w, e'.address, o');
      }
    }
  }

  /** page_alloc; every page is made accessible to user mode */
  method PageAlloc(page: Page, fa: FrameAllocator, kernelMode: bool, writeable: bool) returns (r: Outcome<()>)
    requires fa.Valid()
    modifies page, fa.frames.base
    ensures old(page.address) != 0 ==> r == Done(()) && page.Value() == old(page.Value()) && fa.Used() == old(fa.Used())
    ensures old(page.address) == 0 && r.Done? ==>
      && LeastFree(old(fa.Used()), fa.Capacity(), page.address)
      && page.Value() == Allocated(writeable, page.address)
      && page.present && page.userMode && page.writeable == writeable
      && fa.Used() == old(fa.Used()) + iset{page.address}
    ensures r.Panic? ==> r.fault == NoFreeFrames && page.Value() == old(page.Value()) && fa.Used() == old(fa.Used())
    ensures r.Panic? ==> forall i :: 0 <= i < fa.Capacity() ==> i in old(fa.Used())
    ensures r.Done? ==> forall p: nat ::
      IsStep(AllocPage(p, writeable), fa.Capacity(), old(fa.Used()), old(page.Value()), fa.Used(), page.Value())
  {
    hide IsStep;
    if page.address != 0 {
      forall p: nat { AllocIsStep(p, writeable, fa.Capacity(), fa.Used(), page.Value(), fa.Used(), page.Value()); }
      return Done(());
    }
    var frame := fa.Alloc();
    if frame.Panic? { return Panic(frame.fault); }
    page.present := true;
    page.writeable := writeable;
    page.userMode := true;
    page.address := frame.value;
    forall p: nat
      ensures IsStep(AllocPage(p, writeable), fa.Capacity(), old(fa.Used()), old(page.Value()), fa.Used(), page.Value())
    {
      AllocIsStep(p, writeable, fa.Capacity(), old(fa.Used()), old(page.Value()), fa.Used(), page.Value());
    }
    return Done(());
  }

  /** page_free */
  method PageFree(page: Page, fa: FrameAllocator)
    modifies page, fa.frames.base
    ensures page.Value() == Freed(old(page.Value()))
    ensures !page.present && page.address == 0
    ensures page.writeable == old(page.writeable) && page.userMode == old(page.userMode)
    ensures fa.Used() == if old(page.address) != 0 then old(fa.Used()) - iset{old(page.address)} else old(fa.Used())
    ensures forall p: nat ::
      IsStep(FreePage(p), fa.Capacity(), old(fa.Used()), old(page.Value()), fa.Used(), page.Value())
  {
    fa.Free(page.address);
    page.address := 0;
    page.present := false;
  }
}
