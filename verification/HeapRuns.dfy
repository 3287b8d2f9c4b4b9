/** Whole runs of the heap: creation, then any mix of requests and releases of live pointers. */
module HeapRuns {
  import opened Machine
  import opened OrderedArrays
  import opened HeapLayout
  import opened HeapAlloc
  import opened HeapFree
  import opened HeapLaws
  import opened HeapOrder

  const INDEX_BYTES: nat := 4 * INDEX_SIZE

  /** heap_create: the index comes first, then one hole whose footer is never written. */
  function Create(start: nat, end: nat, limit: nat): Outcome<Layout>
    requires start + INDEX_BYTES < end
  {
    if start % PAGE_SIZE != 0 || end % PAGE_SIZE != 0 then Panic(Misaligned)
    else
      var body := PageCeil(start + INDEX_BYTES);
      Done(Layout(body, end, limit, [Block(body, end - body, true, false)], [body]))
  }

  /** What the callers of heap_create guarantee about the region. */
  ghost predicate Region(start: nat, end: nat, limit: nat) {
    start + INDEX_BYTES < end <= limit <= ADDRESS_LIMIT
  }

  lemma CreateWellFormed(start: nat, end: nat, limit: nat)
    requires Region(start, end, limit) && Create(start, end, limit).Done?
    ensures var l := Create(start, end, limit).value;
      && WellFormed(l) && Coalesced(l.blocks) && InOrder(l)
      && l.start == start + INDEX_BYTES && l.end - l.start >= PAGE_SIZE
  {
    var l := Create(start, end, limit).value;
    assert l.blocks[1..] == [];
    forall a ensures Occurs(l.index, a) == Holes(l.blocks, a) {
      CountsSingle(l.blocks[0], a, l.blocks[0]);
    }
  }

  /** The kernel's own heap, src/kheap.h:7-9, is such a region. */
  lemma KernelRegion()
    ensures Region(0x0F00_0000, 0x0F01_0000, 0x0FFF_F000)
    ensures Create(0x0F00_0000, 0x0F01_0000, 0x0FFF_F000).Done?
    ensures Sound(Session(Create(0x0F00_0000, 0x0F01_0000, 0x0FFF_F000).value, map[]))
  {
    CreateWellFormed(0x0F00_0000, 0x0F01_0000, 0x0FFF_F000);
  }

  // ----- sessions -----

  /** Aligned requests are those of heap_alloc with line 223 corrected; unaligned ones do not reach that line. */
  datatype Op = Request(size: nat, align: bool) | Release(ptr: nat)

  /** A layout, and the size asked for behind every pointer not yet released. */
  datatype Session = Session(layout: Layout, asked: map<nat, nat>)

  /** Every live block is accounted for, at least as long as asked, and nothing else is. */
  ghost predicate Accounted(s: Session) {
    && (forall b: Block :: b in s.layout.blocks && !b.hole ==>
          b.Pointer() in s.asked && s.asked[b.Pointer()] + TAGS <= b.size)
    && (forall p :: p in s.asked ==> IsLive(s.layout, p))
  }

  ghost predicate Sound(s: Session) {
    WellFormed(s.layout) && Accounted(s)
  }

  /** One step. Releasing a pointer that is not live is misuse; releasing null does nothing. */
  function Step(s: Session, op: Op): Outcome<Session>
    requires WellFormed(s.layout)
  {
    match op
    case Request(n, align) =>
      (match Alloc(s.layout, n, align)
       case Done(r) => Done(Session(r.layout, s.asked[r.ptr := n]))
       case Panic(f) => Panic(f))
    case Release(p) =>
      if p == 0 then Done(s)
      else if !IsLive(s.layout, p) then Panic(Undefined)
      else
        match Free(s.layout, p)
        case Done(l) => Done(Session(l, s.asked - {p}))
        case Panic(f) => Panic(f)
  }

  // ----- one step keeps soundness -----

  lemma LiveAtPointer(l: Layout, b: Block)
    requires WellFormed(l) && b in l.blocks && !b.hole
    ensures IsLive(l, b.Pointer()) && l.blocks[At(l, b.Pointer())] == b
  {
    var k :| 0 <= k < |l.blocks| && l.blocks[k] == b;
    FindUnique(l.blocks, l.start, l.end, k);
  }

  lemma RequestAccounted(s: Session, n: nat, align: bool)
    requires Sound(s) && Alloc(s.layout, n, align).Done?
    ensures Sound(Step(s, Request(n, align)).value)
    ensures Step(s, Request(n, align)).value.asked.Keys == s.asked.Keys + {Alloc(s.layout, n, align).value.ptr}
    ensures Alloc(s.layout, n, align).value.ptr !in s.asked
  {
    var r := Alloc(s.layout, n, align).value;
    AllocWellFormed(s.layout, n, align);
    var b := AllocServes(s.layout, n, align);
    RequestFresh(s, r, b);
    RequestAccounts(s, r, b, n);
  }

  /** The new pointer was not in use. */
  lemma RequestFresh(s: Session, r: Placed, b: Block)
    requires Sound(s) && WellFormed(r.layout) && LiveAdds(s.layout.blocks, r.layout.blocks, b)
    requires !b.hole && b.Pointer() == r.ptr
    ensures r.ptr !in s.asked
    ensures b in r.layout.blocks && IsLive(r.layout, r.ptr)
  {
    LiveMember(r.layout.blocks, b);
    LiveAtPointer(r.layout, b);
    if r.ptr in s.asked {
      var c := s.layout.blocks[At(s.layout, r.ptr)];
      LiveMember(s.layout.blocks, c);
      LiveMember(r.layout.blocks, c);
      LiveAtPointer(r.layout, c);
      LiveAtMostOne(r.layout.blocks, r.layout.start, r.layout.end, b);
    }
  }

  lemma RequestAccounts(s: Session, r: Placed, b: Block, n: nat)
    requires Sound(s) && WellFormed(r.layout) && LiveAdds(s.layout.blocks, r.layout.blocks, b)
    requires !b.hole && b.Pointer() == r.ptr && n + TAGS <= b.size && r.ptr !in s.asked
    requires IsLive(r.layout, r.ptr)
    ensures Accounted(Session(r.layout, s.asked[r.ptr := n]))
  {
    var s' := Session(r.layout, s.asked[r.ptr := n]);
    forall c: Block | c in r.layout.blocks && !c.hole
      ensures c.Pointer() in s'.asked && s'.asked[c.Pointer()] + TAGS <= c.size
    {
      LiveMember(r.layout.blocks, c);
      LiveMember(s.layout.blocks, c);
    }
    forall p | p in s'.asked ensures IsLive(r.layout, p) {
      if p != r.ptr {
        var c := s.layout.blocks[At(s.layout, p)];
        LiveMember(s.layout.blocks, c);
        LiveMember(r.layout.blocks, c);
        LiveAtPointer(r.layout, c);
      }
    }
  }

  lemma ReleaseAccounted(s: Session, p: nat)
    requires Sound(s) && IsLive(s.layout, p) && Free(s.layout, p).Done?
    ensures Sound(Session(Free(s.layout, p).value, s.asked - {p}))
    ensures p in s.asked
  {
    var l := Free(s.layout, p).value;
    var b := s.layout.blocks[At(s.layout, p)];
    FreeWellFormed(s.layout, p);
    FreeReleases(s.layout, p);
    ReleaseAccounts(s, l, b);
  }

  lemma ReleaseAccounts(s: Session, l: Layout, b: Block)
    requires Sound(s) && WellFormed(l) && LiveAdds(l.blocks, s.layout.blocks, b)
    requires b in s.layout.blocks && !b.hole
    ensures Accounted(Session(l, s.asked - {b.Pointer()}))
  {
    LiveAtMostOne(s.layout.blocks, s.layout.start, s.layout.end, b);
    LiveAtPointer(s.layout, b);
    forall c: Block | c in l.blocks && !c.hole
      ensures c.Pointer() in s.asked && c.Pointer() != b.Pointer() && s.asked[c.Pointer()] + TAGS <= c.size
    {
      LiveMember(l.blocks, c);
      LiveMember(s.layout.blocks, c);
      LiveAtPointer(s.layout, c);
    }
    forall p | p in s.asked && p != b.Pointer() ensures IsLive(l, p) {
      var c := s.layout.blocks[At(s.layout, p)];
      LiveMember(s.layout.blocks, c);
      LiveMember(l.blocks, c);
      LiveAtPointer(l, c);
    }
  }

  // ----- runs -----

  lemma StepSound(s: Session, op: Op)
    requires Sound(s)
    ensures Step(s, op).Done? ==> Sound(Step(s, op).value)
    ensures Step(s, op).Panic? ==> Step(s, op).fault in {HeapExhausted, IndexFull, Undefined, RemainderTooSmall}
    ensures Step(s, op) == Panic(Undefined) ==> op.Release? && op.ptr !in s.asked
    ensures Step(s, op) == Panic(RemainderTooSmall) ==> op.Request? && op.align
  {
    hide Alloc, Free, WellFormed, Accounted, IsLive;
    if op.Request? {
      if Alloc(s.layout, op.size, op.align).Done? {
        RequestAccounted(s, op.size, op.align);
      } else {
        AllocFaults(s.layout, op.size, op.align);
      }
    } else if op.ptr != 0 && IsLive(s.layout, op.ptr) {
      FreeWellFormed(s.layout, op.ptr);
      if Free(s.layout, op.ptr).Done? { ReleaseAccounted(s, op.ptr); }
    } else if op.ptr != 0 {
      NotAsked(s, op.ptr);
    }
  }

  lemma NotAsked(s: Session, p: nat)
    requires Sound(s) && !IsLive(s.layout, p)
    ensures p !in s.asked
  {
    hide WellFormed;
  }

  ghost function Run(s: Session, ops: seq<Op>): Outcome<Session>
    requires Sound(s)
    decreases |ops|
  {
    if ops == [] then Done(s)
    else
      StepSound(s, ops[0]);
      match Step(s, ops[0])
      case Panic(f) => Panic(f)
      case Done(s1) => Run(s1, ops[1..])
  }

  ghost predicate Unaligned(ops: seq<Op>) {
    forall i :: 0 <= i < |ops| && ops[i].Request? ==> !ops[i].align
  }

  /**
   * Every run keeps the tiling, the index and the accounts; without aligned requests it can stop only for want of
   * room, or by releasing a pointer that is not outstanding at that point.
   */
  lemma {:induction false} RunSound(s: Session, ops: seq<Op>)
    requires Sound(s)
    ensures Run(s, ops).Done? ==> Sound(Run(s, ops).value)
    ensures Run(s, ops).Panic? ==> Run(s, ops).fault in {HeapExhausted, IndexFull, Undefined, RemainderTooSmall}
    ensures Unaligned(ops) ==> Run(s, ops) != Panic(RemainderTooSmall)
    ensures Run(s, ops) == Panic(Undefined) ==> exists i :: 0 <= i < |ops| && Misused(s, ops, i)
    decreases |ops|
  {
    hide Step, Accounted, WellFormed;
    if ops != [] {
      StepSound(s, ops[0]);
      if Step(s, ops[0]).Done? {
        var s1 := Step(s, ops[0]).value;
        RunSound(s1, ops[1..]);
        if Run(s1, ops[1..]) == Panic(Undefined) {
          var i :| 0 <= i < |ops[1..]| && Misused(s1, ops[1..], i);
          MisusedLater(s, ops, i);
        }
      } else if Step(s, ops[0]) == Panic(Undefined) {
        assert ops[..0] == [];
        assert Misused(s, ops, 0);
      }
    }
  }

  /** Call `i` is reached, and releases a pointer that is not outstanding there. */
  ghost predicate Misused(s: Session, ops: seq<Op>, i: nat)
    requires Sound(s)
  {
    && i < |ops| && ops[i].Release? && Run(s, ops[..i]).Done?
    && ops[i].ptr !in Run(s, ops[..i]).value.asked
  }

  lemma MisusedLater(s: Session, ops: seq<Op>, i: nat)
    requires Sound(s) && ops != [] && Step(s, ops[0]).Done? && Sound(Step(s, ops[0]).value)
    requires Misused(Step(s, ops[0]).value, ops[1..], i)
    ensures Misused(s, ops, i + 1)
  {
    hide Step, Sound;
    assert ops[..i + 1][1..] == ops[1..][..i];
  }

  // ----- coalesced runs -----

  ghost predicate Tidy(s: Session) {
    Coalesced(s.layout.blocks) && AllFooted(s.layout.blocks)
  }

  lemma StepTidy(s: Session, op: Op)
    requires Sound(s) && Tidy(s) && Step(s, op).Done? && (op.Request? ==> !op.align)
    ensures Tidy(Step(s, op).value)
  {
    match op
    case Request(n, _) =>
      AllocCoalesced(s.layout, n);
      AllocFooted(s.layout, n);
    case Release(p) =>
      if p != 0 {
        FreeCoalescedIff(s.layout, p);
        FreeFooted(s.layout, p);
      }
  }

  lemma {:induction false} RunTidy(s: Session, ops: seq<Op>)
    requires Sound(s) && Tidy(s) && Unaligned(ops) && Run(s, ops).Done?
    ensures Tidy(Run(s, ops).value)
    decreases |ops|
  {
    if ops != [] {
      StepSound(s, ops[0]);
      StepTidy(s, ops[0]);
      RunTidy(Step(s, ops[0]).value, ops[1..]);
    }
  }

  /** The first request, when it fits the initial hole, writes every footer. */
  lemma FirstRequestTidies(l: Layout, n: nat)
    requires WellFormed(l) && Coalesced(l.blocks) && |l.blocks| == 1 && l.blocks[0].hole
    requires n + TAGS <= l.blocks[0].size
    ensures Alloc(l, n, false).Done?
    ensures var bs := Alloc(l, n, false).value.layout.blocks; Coalesced(bs) && AllFooted(bs)
  {
    FindUnique(l.blocks, l.start, l.end, 0);
    FirstFitComplete(l, n + TAGS, false);
    assert Fits(l.blocks, l.blocks[0].addr, n + TAGS, false);
    UnalignedPanics(l, n);
    AllocCoalesced(l, n);
    var l1, i, size := UnalignedBlocks(l, n);
    FirstPieces(l.blocks, size);
  }

  lemma FirstPieces(bs: seq<Block>, size: nat)
    requires |bs| == 1 && size <= bs[0].size
    ensures AllFooted(Splice(bs, 0, 1, Pieces(bs[0], 0, size)))
  {
    FrontlessPieces(bs[0], size);
  }

  /** From creation: if the first request fits the initial hole, no two adjacent blocks are ever both holes. */
  lemma RunFromCreation(start: nat, end: nat, limit: nat, n: nat, ops: seq<Op>)
    requires Region(start, end, limit) && start % PAGE_SIZE == 0 && end % PAGE_SIZE == 0
    requires n + TAGS <= end - start - INDEX_BYTES && Unaligned(ops)
    ensures var l := Create(start, end, limit).value;
      && Sound(Session(l, map[]))
      && var r := Run(Session(l, map[]), [Request(n, false)] + ops);
         r.Done? ==> Sound(r.value) && Tidy(r.value)
  {
    var l := Create(start, end, limit).value;
    var s := Session(l, map[]);
    CreateWellFormed(start, end, limit);
    assert Accounted(s) by {
      assert l.blocks == [l.blocks[0]];
    }
    RunSound(s, [Request(n, false)] + ops);
    StepSound(s, Request(n, false));
    FirstRequestTidies(l, n);
    var s1 := Step(s, Request(n, false)).value;
    assert ([Request(n, false)] + ops)[0] == Request(n, false) && ([Request(n, false)] + ops)[1..] == ops;
    if Run(s1, ops).Done? {
      RunTidy(s1, ops);
    }
  }

  // ----- draining the heap -----

  /** One hole from start to end, and the index knows it. */
  ghost predicate OneHole(l: Layout) {
    l.start <= l.end && l.blocks == [Block(l.start, l.end - l.start, true, true)] && l.index == [l.start]
  }

  /** A tidy heap with nothing outstanding is one hole over the whole arena. */
  lemma NothingOutstanding(s: Session)
    requires Sound(s) && Tidy(s) && s.asked == map[]
    ensures OneHole(s.layout)
  {
    var l := s.layout;
    forall k | 0 <= k < |l.blocks| ensures l.blocks[k].hole {
      assert l.blocks[k] in l.blocks;
    }
    DrainedIsOneHole(l);
    OneHoleIndex(l);
  }

  lemma OneHoleIndex(l: Layout)
    requires Indexed(l) && |l.blocks| == 1 && l.blocks[0].hole
    ensures l.index == [l.blocks[0].addr]
  {
    var a := l.blocks[0].addr;
    assert l.blocks == [l.blocks[0]];
    IndexCounts(l);
    assert |l.index| == 1;
    CountsSingle(l.blocks[0], l.index[0], l.blocks[0]);
    OccursIn(l.index, l.index[0]);
  }

  ghost function Releases(order: seq<nat>): seq<Op> {
    if order == [] then [] else [Release(order[0])] + Releases(order[1..])
  }

  lemma {:induction false} ReleasesUnaligned(order: seq<nat>)
    ensures Unaligned(Releases(order)) && |Releases(order)| == |order|
  {
    if order != [] { ReleasesUnaligned(order[1..]); }
  }

  lemma {:induction false} ReleasesEmpty(s: Session, order: seq<nat>)
    requires Sound(s) && Run(s, Releases(order)).Done?
    ensures forall p :: p in Run(s, Releases(order)).value.asked ==> p in s.asked && (p in order ==> p == 0)
    decreases |order|
  {
    hide Free, Alloc, IsLive, WellFormed, Accounted;
    if order != [] {
      var s1 := Step(s, Release(order[0])).value;
      StepSound(s, Release(order[0]));
      assert Releases(order)[1..] == Releases(order[1..]);
      ReleasesEmpty(s1, order[1..]);
    }
  }

  /** Releasing every live pointer, in any order, leaves one hole spanning the arena. */
  lemma DrainInAnyOrder(s: Session, order: seq<nat>)
    requires Sound(s) && Tidy(s) && Run(s, Releases(order)).Done?
    requires forall p :: p in s.asked ==> p in order
    ensures OneHole(Run(s, Releases(order)).value.layout)
  {
    RunSound(s, Releases(order));
    ReleasesUnaligned(order);
    RunTidy(s, Releases(order));
    ReleasesEmpty(s, order);
    var s' := Run(s, Releases(order)).value;
    assert !IsLive(s'.layout, 0);
    assert s'.asked == map[];
    NothingOutstanding(s');
  }

  ghost predicate Distinct(order: seq<nat>) {
    forall i, j :: 0 <= i < j < |order| ==> order[i] != order[j]
  }

  // ----- how many holes there can be -----

  function HoleCount(bs: seq<Block>): nat {
    if bs == [] then 0 else (if bs[0].hole then 1 else 0) + HoleCount(bs[1..])
  }

  function LiveCount(bs: seq<Block>): nat {
    if bs == [] then 0 else (if bs[0].hole then 0 else 1) + LiveCount(bs[1..])
  }

  /** Holes that are kept apart are at most one more than the live blocks between them. */
  lemma {:induction false} CoalescedCounts(bs: seq<Block>)
    requires Coalesced(bs)
    ensures HoleCount(bs) <= LiveCount(bs) + if bs != [] && bs[0].hole then 1 else 0
  {
    if bs != [] { CoalescedCounts(bs[1..]); }
  }

  lemma {:induction false} CountsUpdate(bs: seq<Block>, k: nat, h: Block)
    requires k < |bs| && !bs[k].hole && h.hole
    ensures HoleCount(bs[k := h]) == HoleCount(bs) + 1 && LiveCount(bs[k := h]) == LiveCount(bs) - 1
  {
    if k > 0 {
      CountsUpdate(bs[1..], k - 1, h);
      assert bs[k := h][1..] == bs[1..][k - 1 := h];
    } else {
      assert bs[k := h][1..] == bs[1..];
    }
  }

  /** A live block without a hole beside it leaves room for one more hole. */
  lemma LonelyCounts(bs: seq<Block>, k: nat)
    requires Coalesced(bs) && AllFooted(bs) && k < |bs| && !bs[k].hole
    requires !MergesLeft(bs, k) && !MergesRight(bs, k)
    ensures HoleCount(bs) < LiveCount(bs)
  {
    var h := bs[k].(hole := true);
    FuseCoalesced(bs, k, k + 1, h);
    assert Splice(bs, k, k + 1, [h]) == bs[k := h];
    CoalescedCounts(bs[k := h]);
    CountsUpdate(bs, k, h);
  }

  function HoleAddresses(bs: seq<Block>): (s: seq<nat>)
    ensures |s| == HoleCount(bs)
  {
    if bs == [] then [] else (if bs[0].hole then [bs[0].addr] else []) + HoleAddresses(bs[1..])
  }

  lemma {:induction false} AddressesOccur(bs: seq<Block>, a: nat)
    ensures Occurs(HoleAddresses(bs), a) == Holes(bs, a)
  {
    if bs != [] { AddressesOccur(bs[1..], a); }
  }

  lemma SameLength(s: seq<nat>, t: seq<nat>)
    requires forall a: nat :: Occurs(s, a) == Occurs(t, a)
    ensures |s| == |t|
  {
    var x: multiset<nat>, y: multiset<nat> := multiset(s), multiset(t);
    forall a: nat ensures x[a] == y[a] { assert Occurs(s, a) == Occurs(t, a); }
    assert x == y;
    assert |x| == |s| && |y| == |t|;
  }

  lemma IndexCounts(l: Layout)
    requires Indexed(l)
    ensures |l.index| == HoleCount(l.blocks)
  {
    var s := HoleAddresses(l.blocks);
    forall a: nat ensures Occurs(s, a) == Occurs(l.index, a) {
      AddressesOccur(l.blocks, a);
      assert Occurs(l.index, a) == Holes(l.blocks, a);
    }
    SameLength(s, l.index);
  }

  function LivePointers(bs: seq<Block>): set<nat> {
    if bs == [] then {} else (if bs[0].hole then {} else {bs[0].Pointer()}) + LivePointers(bs[1..])
  }

  lemma {:induction false} PointersCount(bs: seq<Block>, lo: nat, hi: nat)
    requires Tiles(bs, lo, hi)
    ensures |LivePointers(bs)| == LiveCount(bs) && forall p :: p in LivePointers(bs) ==> p >= lo + HEADER_SIZE
  {
    if bs != [] { PointersCount(bs[1..], bs[0].End(), hi); }
  }

  lemma {:induction false} PointersMember(bs: seq<Block>, p: nat)
    ensures p in LivePointers(bs) <==> exists k :: 0 <= k < |bs| && !bs[k].hole && bs[k].Pointer() == p
  {
    if bs != [] {
      PointersMember(bs[1..], p);
      assert forall k :: 0 <= k < |bs[1..]| ==> bs[1..][k] == bs[k + 1];
      if exists k :: 0 <= k < |bs| && !bs[k].hole && bs[k].Pointer() == p {
        var k :| 0 <= k < |bs| && !bs[k].hole && bs[k].Pointer() == p;
        if k > 0 { assert bs[1..][k - 1] == bs[k]; }
      }
    }
  }

  /** The accounts have one entry for each live block. */
  lemma AskedCounts(s: Session)
    requires Sound(s)
    ensures |s.asked| == LiveCount(s.layout.blocks)
  {
    var bs := s.layout.blocks;
    PointersCount(bs, s.layout.start, s.layout.end);
    forall p: nat ensures p in s.asked <==> p in LivePointers(bs) {
      PointersMember(bs, p);
      if p in s.asked { assert IsLive(s.layout, p); }
      if p in LivePointers(bs) {
        var k :| 0 <= k < |bs| && !bs[k].hole && bs[k].Pointer() == p;
        assert bs[k] in bs;
      }
    }
    assert s.asked.Keys == LivePointers(bs);
    assert |s.asked| == |s.asked.Keys|;
  }

  // ----- releases that return -----

  /** Room for `n` releases: that many free index entries, or a tidy heap of at most 2 * 2048 holes and live blocks. */
  ghost predicate Roomy(s: Session, n: nat) {
    || |s.layout.index| + n <= INDEX_SIZE
    || (Tidy(s) && |s.layout.index| + |s.asked| <= 2 * INDEX_SIZE)
  }

  lemma FreeHasRoom(s: Session, p: nat)
    requires Sound(s) && IsLive(s.layout, p) && Roomy(s, 1)
    ensures Free(s.layout, p).Done? && |Free(s.layout, p).value.index| <= |s.layout.index| + 1
  {
    hide Pass;
    var l := s.layout;
    FreeWellFormed(l, p);
    if Free(l, p).Panic? {
      LonelyCounts(l.blocks, At(l, p));
      IndexCounts(l);
      AskedCounts(s);
    } else {
      var l2 := FreeHalves(l, At(l, p));
    }
  }

  lemma AskedIsLive(s: Session, p: nat)
    requires Sound(s) && p in s.asked
    ensures WellFormed(s.layout) && IsLive(s.layout, p) && p != 0
  {
    hide WellFormed;
  }

  lemma ReleaseReturns(s: Session, p: nat, n: nat)
    requires Sound(s) && p in s.asked && Roomy(s, n + 1)
    ensures Step(s, Release(p)).Done? && Sound(Step(s, Release(p)).value) && Roomy(Step(s, Release(p)).value, n)
    ensures Step(s, Release(p)).value.asked == s.asked - {p}
  {
    hide Free, Sound, WellFormed, IsLive, Tidy;
    AskedIsLive(s, p);
    FreeHasRoom(s, p);
    StepSound(s, Release(p));
    FewerAsked(s.asked, p);
    if Tidy(s) { StepTidy(s, Release(p)); }
  }

  lemma FewerAsked(m: map<nat, nat>, p: nat)
    requires p in m
    ensures |m - {p}| == |m| - 1
  {
    assert (m - {p}).Keys == m.Keys - {p};
    assert |m - {p}| == |(m - {p}).Keys| && |m| == |m.Keys|;
  }

  /** The releases all return, in any order, when each pointer is live and released once and there is room. */
  lemma {:induction false} DrainReturns(s: Session, order: seq<nat>)
    requires Sound(s) && Distinct(order) && (forall p :: p in order ==> p in s.asked) && Roomy(s, |order|)
    ensures Run(s, Releases(order)).Done?
    decreases |order|
  {
    hide Step, Sound, WellFormed, Roomy;
    if order != [] {
      var p := order[0];
      AskedIsLive(s, p);
      ReleaseReturns(s, p, |order| - 1);
      var s1 := Step(s, Release(p)).value;
      assert forall q :: q in order[1..] ==> q in s1.asked;
      DrainReturns(s1, order[1..]);
      assert Releases(order)[1..] == Releases(order[1..]);
    }
  }

  // ----- what soundness gives the callers -----

  /** Live payloads lie inside the arena and are pairwise disjoint, each as long as was asked. */
  lemma PayloadsDisjoint(s: Session, p: nat, q: nat)
    requires Sound(s) && p in s.asked && q in s.asked && p != q
    ensures s.layout.start + HEADER_SIZE <= p && p + s.asked[p] + FOOTER_SIZE <= s.layout.end
    ensures p + s.asked[p] + TAGS <= q || q + s.asked[q] + TAGS <= p
  {
    var l := s.layout;
    var i, j := At(l, p), At(l, q);
    assert l.blocks[i] in l.blocks && l.blocks[j] in l.blocks;
    TilesAt(l.blocks, l.start, l.end, i);
    if i < j { TilesOrdered(l.blocks, l.start, l.end, i, j); }
    if j < i { TilesOrdered(l.blocks, l.start, l.end, j, i); }
  }

  function TotalSize(bs: seq<Block>): nat {
    if bs == [] then 0 else bs[0].size + TotalSize(bs[1..])
  }

  /** Sizes add up to the arena. */
  lemma {:induction false} SizesConserved(bs: seq<Block>, lo: nat, hi: nat)
    requires Tiles(bs, lo, hi)
    ensures lo + TotalSize(bs) == hi
  {
    if bs != [] {
      SizesConserved(bs[1..], bs[0].End(), hi);
    }
  }

  // ----- where the guarantee ends -----

  /** A first request too large for the initial hole lands behind it, and the hole keeps no footer. */
  lemma TooLargeFirst(l: Layout, n: nat)
    requires WellFormed(l) && |l.blocks| == 1 && l.blocks[0].hole && n + TAGS > l.blocks[0].size
    requires Alloc(l, n, false).Done?
    ensures var r := Alloc(l, n, false).value;
      && WellFormed(r.layout) && IsLive(r.layout, r.ptr) && At(r.layout, r.ptr) == 1
      && r.layout.blocks[0] == l.blocks[0]
  {
    hide Alloc, CarveAt;
    var r := Alloc(l, n, false).value;
    AllocWellFormed(l, n, false);
    var l1, i, size := UnalignedBlocks(l, n);
    FindUnique(l.blocks, l.start, l.end, 0);
    assert l1 != l;
    GrowWellFormed(l, n + TAGS);
    var bs := r.layout.blocks;
    FrontlessPieces(l1.blocks[1], size);
    assert bs[0] == l.blocks[0] && bs[1] == Block(l1.blocks[1].addr, size, false, true);
    CarveAtBlocks(l1, i, 0, size);
    FindUnique(bs, r.layout.start, r.layout.end, 1);
  }

  /**
   * One request after creation and its release: the two holes of the heap, if any, end up apart
   * exactly when the request fitted the initial hole.
   */
  lemma RequestReleaseCoalescedIff(start: nat, end: nat, limit: nat, n: nat)
    requires Region(start, end, limit) && start % PAGE_SIZE == 0 && end % PAGE_SIZE == 0
    requires Alloc(CreatedLayout(start, end, limit), n, false).Done?
    ensures var r := Alloc(CreatedLayout(start, end, limit), n, false).value;
      && IsLive(r.layout, r.ptr)
      && (Free(r.layout, r.ptr).Done? ==>
            (Coalesced(Free(r.layout, r.ptr).value.blocks) <==> n + TAGS <= end - start - INDEX_BYTES))
  {
    var l := CreatedLayout(start, end, limit);
    var r := Alloc(l, n, false).value;
    AllocCoalesced(l, n);
    if n + TAGS <= end - start - INDEX_BYTES {
      FirstRequestTidies(l, n);
      AllocWellFormed(l, n, false);
      var b := AllocServes(l, n, false);
      LiveMember(r.layout.blocks, b);
      LiveAtPointer(r.layout, b);
      if Free(r.layout, r.ptr).Done? { FreeCoalescedIff(r.layout, r.ptr); }
    } else {
      TooLargeFirst(l, n);
      if Free(r.layout, r.ptr).Done? { FreeCoalescedIff(r.layout, r.ptr); }
    }
  }

  lemma {:induction false} HolesAmongBlocks(bs: seq<Block>)
    ensures HoleCount(bs) <= |bs|
  {
    if bs != [] { HolesAmongBlocks(bs[1..]); }
  }

  /** A request on a new heap makes at most three blocks of one. */
  lemma FewBlocks(l: Layout, n: nat)
    requires WellFormed(l) && |l.blocks| == 1 && Alloc(l, n, false).Done?
    ensures |Alloc(l, n, false).value.layout.index| <= 3
  {
    hide Alloc, CarveAt, WellFormed, Pieces, Locate, Grow;
    var l1, i, size := UnalignedBlocks(l, n);
    FrontlessPieces(Chosen(l1, i), size);
    if l1 != l { GrowWellFormed(l, n + TAGS); }
    AllocWellFormed(l, n, false);
    var l2 := Alloc(l, n, false).value.layout;
    WellFormedParts(l2);
    IndexCounts(l2);
    HolesAmongBlocks(l2.blocks);
  }

  /** An input: on the kernel's own heap, a request of 60000 bytes and its release leave two holes side by side. */
  lemma LargeFirstRequest()
    ensures Region(0x0F00_0000, 0x0F01_0000, 0x0FFF_F000)
    ensures var l := CreatedLayout(0x0F00_0000, 0x0F01_0000, 0x0FFF_F000);
      && Alloc(l, 60000, false).Done?
      && var r := Alloc(l, 60000, false).value;
      && IsLive(r.layout, r.ptr) && Free(r.layout, r.ptr).Done?
      && !Coalesced(Free(r.layout, r.ptr).value.blocks)
  {
    hide Alloc, Free, Coalesced, WellFormed, IsLive;
    var l := CreatedLayout(0x0F00_0000, 0x0F01_0000, 0x0FFF_F000);
    KernelGrows(l);
    RequestReleaseCoalescedIff(0x0F00_0000, 0x0F01_0000, 0x0FFF_F000, 60000);
    var r := Alloc(l, 60000, false).value;
    FewBlocks(l, 60000);
    AllocWellFormed(l, 60000, false);
    FreeWellFormed(r.layout, r.ptr);
  }

  lemma KernelGrows(l: Layout)
    requires WellFormed(l) && Create(0x0F00_0000, 0x0F01_0000, 0x0FFF_F000) == Done(l)
    ensures Alloc(l, 60000, false).Done?
  {
    hide Alloc, WellFormed;
    UnalignedPanics(l, 60000);
  }

  ghost function CreatedLayout(start: nat, end: nat, limit: nat): (l: Layout)
    requires Region(start, end, limit) && start % PAGE_SIZE == 0 && end % PAGE_SIZE == 0
    ensures WellFormed(l) && Coalesced(l.blocks) && Create(start, end, limit) == Done(l)
    ensures l.blocks == [Block(start + INDEX_BYTES, end - start - INDEX_BYTES, true, false)]
  {
    CreateWellFormed(start, end, limit);
    Create(start, end, limit).value
  }
}
