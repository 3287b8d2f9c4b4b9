/** Laws that relate allocation and freeing: coalescing, the round trip, and the order of the index. */
module HeapLaws {
  import opened Machine
  import opened OrderedArrays
  import opened HeapLayout
  import opened HeapAlloc
  import opened HeapFree

  // ----- coalescing -----

  ghost predicate AllFooted(bs: seq<Block>) {
    forall i :: 0 <= i < |bs| ==> bs[i].footed
  }

  /** Pieces without a hole in front: the block, and perhaps a hole behind it. */
  lemma FrontlessPieces(h: Block, size: nat)
    requires size <= h.size
    ensures var ps := Pieces(h, 0, size);
      && ps == [Block(h.addr, size, false, true)]
           + (if size < h.size then [Block(h.addr + size, h.size - size, true, true)] else [])
      && Coalesced(ps) && !ps[0].hole
  {
  }

  /** A hole replaced by pieces that start with a block stays apart from the holes around it. */
  lemma CarveCoalesced(bs: seq<Block>, k: nat, ps: seq<Block>)
    requires k < |bs| && Coalesced(bs[..k]) && Coalesced(bs[k + 1..])
    requires k + 1 < |bs| ==> !bs[k + 1].hole
    requires ps != [] && Coalesced(ps) && !ps[0].hole
    ensures Coalesced(Splice(bs, k, k + 1, ps))
  {
    CoalescedJoin(bs[..k], ps);
    CoalescedJoin(bs[..k] + ps, bs[k + 1..]);
  }

  /** The blocks around the hole an unaligned allocation uses. */
  lemma AroundChosen(l: Layout, need: nat, l1: Layout, i: nat)
    requires WellFormed(l) && Coalesced(l.blocks) && CarvedFrom(l, need, l1, i)
    ensures var k := Find(l1.blocks, l1.index[i]);
      Coalesced(l1.blocks[..k]) && Coalesced(l1.blocks[k + 1..]) && (k + 1 < |l1.blocks| ==> !l1.blocks[k + 1].hole)
  {
    var k := Find(l1.blocks, l1.index[i]);
    if l1 == l {
      assert l.blocks == l.blocks[..k] + l.blocks[k..];
      CoalescedJoin(l.blocks[..k], l.blocks[k..]);
      if k + 1 < |l.blocks| { CoalescedAt(l.blocks, k); }
    } else {
      GrowWellFormed(l, need);
      assert l1.blocks[..k] == l.blocks;
    }
  }

  /** The blocks after an unaligned allocation. */
  lemma UnalignedBlocks(l: Layout, request: nat) returns (l1: Layout, i: nat, size: nat)
    requires WellFormed(l) && Alloc(l, request, false).Done?
    ensures CarvedFrom(l, request + TAGS, l1, i) && Locate(l, request + TAGS, false) == Done(l1)
    ensures request + TAGS <= size <= Chosen(l1, i).size
    ensures var k := Find(l1.blocks, l1.index[i]);
      Alloc(l, request, false).value.layout.blocks == Splice(l1.blocks, k, k + 1, Pieces(l1.blocks[k], 0, size))
    ensures Alloc(l, request, false) == CarveAt(l1, i, 0, size)
  {
    var offset;
    AllocLocates(l, request, false);
    l1, i, offset, size := AllocIsCarveAt(l, request, false);
    CarveAtBlocks(l1, i, 0, size);
  }

  /** Unaligned allocation never brings two holes together, even when growth appends an unmerged one. */
  lemma AllocCoalesced(l: Layout, request: nat)
    requires WellFormed(l) && Coalesced(l.blocks) && Alloc(l, request, false).Done?
    ensures Coalesced(Alloc(l, request, false).value.layout.blocks)
  {
    hide Alloc, CarveAt;
    var l1, i, size := UnalignedBlocks(l, request);
    ChosenCoalesced(l, request + TAGS, l1, i, size);
  }

  lemma ChosenCoalesced(l: Layout, need: nat, l1: Layout, i: nat, size: nat)
    requires WellFormed(l) && Coalesced(l.blocks) && CarvedFrom(l, need, l1, i) && size <= Chosen(l1, i).size
    ensures var k := Find(l1.blocks, l1.index[i]);
      Coalesced(Splice(l1.blocks, k, k + 1, Pieces(l1.blocks[k], 0, size)))
  {
    AroundChosen(l, need, l1, i);
    CarvedCoalesced(l1.blocks, Find(l1.blocks, l1.index[i]), size);
  }

  lemma CarvedCoalesced(bs: seq<Block>, k: nat, size: nat)
    requires k < |bs| && Coalesced(bs[..k]) && Coalesced(bs[k + 1..]) && size <= bs[k].size
    requires k + 1 < |bs| ==> !bs[k + 1].hole
    ensures Coalesced(Splice(bs, k, k + 1, Pieces(bs[k], 0, size)))
  {
    FrontlessPieces(bs[k], size);
    CarveCoalesced(bs, k, Pieces(bs[k], 0, size));
  }

  // ----- coalescing under aligned allocation -----

  /** Pieces behind an offset start with a hole. */
  lemma FrontedPieces(h: Block, offset: nat, size: nat)
    requires offset + size <= h.size
    ensures var ps := Pieces(h, offset, size); ps != [] && Coalesced(ps) && (ps[0].hole <==> offset > 0)
  {
    hide Coalesced;
    var block := [Block(h.addr + offset, size, false, true)];
    var front := if offset > 0 then [Block(h.addr, offset, true, true)] else [];
    var rest := h.size - offset - size;
    var back := if rest > 0 then [Block(h.addr + offset + size, rest, true, true)] else [];
    SmallCoalesced(front);
    SmallCoalesced(block);
    SmallCoalesced(back);
    CoalescedJoin(front, block);
    CoalescedJoin(front + block, back);
    assert Pieces(h, offset, size) == front + block + back;
  }

  lemma SmallCoalesced(bs: seq<Block>)
    requires |bs| <= 1
    ensures Coalesced(bs)
  {
  }

  /** A hole replaced by any pieces: only the seam in front can bring two holes together. */
  lemma CarveCoalescedIff(bs: seq<Block>, k: nat, ps: seq<Block>)
    requires k < |bs| && Coalesced(bs[..k]) && Coalesced(bs[k + 1..])
    requires k + 1 < |bs| ==> !bs[k + 1].hole
    requires ps != [] && Coalesced(ps)
    ensures Coalesced(Splice(bs, k, k + 1, ps)) <==> !(k > 0 && bs[k - 1].hole && ps[0].hole)
  {
    hide Coalesced;
    CoalescedJoin(bs[..k], ps);
    CoalescedJoin(bs[..k] + ps, bs[k + 1..]);
  }

  /** The seam in front of the hole an allocation uses: only a hole made by growth can stand behind another. */
  lemma SeamBeforeChosen(l: Layout, need: nat, l1: Layout, i: nat)
    requires WellFormed(l) && Coalesced(l.blocks) && CarvedFrom(l, need, l1, i)
    ensures var k := Find(l1.blocks, l1.index[i]);
      && |l.blocks| > 0
      && (k > 0 && l1.blocks[k - 1].hole <==> l1 != l && l.blocks[|l.blocks| - 1].hole)
  {
    hide Coalesced, WellFormed, Grow;
    WellFormedParts(l);
    TilesWidth(l.blocks, l.start, l.end);
    var k := Find(l1.blocks, l1.index[i]);
    if l1 == l {
      if k > 0 { CoalescedAt(l.blocks, k - 1); }
    } else {
      GrowWellFormed(l, need);
    }
  }

  /** A block placed in the hole made by growth does not start at its beginning. */
  lemma GrownOffset(l: Layout, need: nat, l1: Layout, i: nat, offset: nat)
    requires WellFormed(l) && CarvedFrom(l, need, l1, i) && l1 != l
    requires (Chosen(l1, i).addr + offset + HEADER_SIZE) % PAGE_SIZE == 0
    ensures offset > 0
  {
    hide Grow, WellFormed;
    WellFormedParts(l);
    GrowWellFormed(l, need);
    NotAtStart(l.end, offset);
  }

  lemma NotAtStart(a: nat, offset: nat)
    requires a % PAGE_SIZE == 0 && (a + offset + HEADER_SIZE) % PAGE_SIZE == 0
    ensures offset > 0
  {
  }

  lemma LocateGrows(l: Layout, need: nat, l1: Layout)
    requires WellFormed(l) && Locate(l, need, true) == Done(l1)
    ensures FirstFit(l.blocks, l.index, need, true) < |l.index| <==> l1 == l
  {
    if FirstFit(l.blocks, l.index, need, true) == |l.index| { GrowWellFormed(l, need); }
  }

  /** Aligned allocation keeps holes apart exactly when it did not grow the heap behind a hole. */
  lemma AlignedCoalescedIff(l: Layout, request: nat)
    requires WellFormed(l) && Coalesced(l.blocks) && Alloc(l, request, true).Done?
    ensures |l.blocks| > 0
    ensures Coalesced(Alloc(l, request, true).value.layout.blocks) <==>
      FirstFit(l.blocks, l.index, request + TAGS, true) < |l.index| || !l.blocks[|l.blocks| - 1].hole
  {
    hide Alloc, CarveAt, Coalesced, AlignOffset, Fits, WellFormed, Pieces, FirstFit, Locate, Splice, CarveFront;
    var need := request + TAGS;
    AllocLocates(l, request, true);
    var l1, i, offset, size := AllocIsCarveAt(l, request, true);
    CarvedBlocks(l1, i, offset, size);
    var k := Find(l1.blocks, l1.index[i]);
    FrontedPieces(l1.blocks[k], offset, size);
    AroundChosen(l, need, l1, i);
    CarveCoalescedIff(l1.blocks, k, Pieces(l1.blocks[k], offset, size));
    SeamBeforeChosen(l, need, l1, i);
    LocateGrows(l, need, l1);
    if l1 != l { GrownOffset(l, need, l1, i, offset); }
  }

  lemma CarvedBlocks(l: Layout, i: nat, offset: nat, size: nat)
    requires i < |l.index| && Find(l.blocks, l.index[i]) < |l.blocks|
    requires offset + size <= Chosen(l, i).size && CarveAt(l, i, offset, size).Done?
    ensures var k := Find(l.blocks, l.index[i]);
      CarveAt(l, i, offset, size).value.layout.blocks == Splice(l.blocks, k, k + 1, Pieces(l.blocks[k], offset, size))
  {
    hide CarveAt;
    CarveAtBlocks(l, i, offset, size);
  }

  lemma SpliceFooted(bs: seq<Block>, i: nat, j: nat, ps: seq<Block>)
    requires AllFooted(bs) && i <= j <= |bs| && forall p :: p in ps ==> p.footed
    ensures AllFooted(Splice(bs, i, j, ps))
  {
  }

  lemma AllocFooted(l: Layout, request: nat)
    requires WellFormed(l) && AllFooted(l.blocks) && Alloc(l, request, false).Done?
    ensures AllFooted(Alloc(l, request, false).value.layout.blocks)
  {
    hide Alloc, CarveAt, WellFormed, Locate, Pieces, Splice, AllFooted;
    var l1, i, size := UnalignedBlocks(l, request);
    ChosenFooted(l, request + TAGS, l1, i, size);
  }

  lemma ChosenFooted(l: Layout, need: nat, l1: Layout, i: nat, size: nat)
    requires WellFormed(l) && AllFooted(l.blocks) && CarvedFrom(l, need, l1, i) && size <= Chosen(l1, i).size
    ensures var k := Find(l1.blocks, l1.index[i]);
      AllFooted(Splice(l1.blocks, k, k + 1, Pieces(l1.blocks[k], 0, size)))
  {
    GrowthFooted(l, l1, need);
    CarvedFooted(l1.blocks, Find(l1.blocks, l1.index[i]), size);
  }

  lemma GrowthFooted(l: Layout, l1: Layout, need: nat)
    requires l.start <= l.end && AllFooted(l.blocks) && (l1 == l || Grow(l, need) == Done(l1))
    ensures AllFooted(l1.blocks)
  {
  }

  lemma CarvedFooted(bs: seq<Block>, k: nat, size: nat)
    requires k < |bs| && size <= bs[k].size && AllFooted(bs)
    ensures AllFooted(Splice(bs, k, k + 1, Pieces(bs[k], 0, size)))
  {
    FrontlessPieces(bs[k], size);
    SpliceFooted(bs, k, k + 1, Pieces(bs[k], 0, size));
  }

  lemma FreeFooted(l: Layout, ptr: nat)
    requires WellFormed(l) && AllFooted(l.blocks) && IsLive(l, ptr) && Free(l, ptr).Done?
    ensures AllFooted(Free(l, ptr).value.blocks)
  {
    FreedBlocks(l, ptr);
    var lo, hi := LeftOf(l.blocks, At(l, ptr)), RightOf(l.blocks, At(l, ptr));
    SpliceFooted(l.blocks, lo, hi, [Fuse(l.blocks, lo, hi)]);
  }

  /** With every footer written, a coalesced heap without live blocks is a single hole. */
  lemma DrainedIsOneHole(l: Layout)
    requires WellFormed(l) && Coalesced(l.blocks) && AllFooted(l.blocks)
    requires forall k :: 0 <= k < |l.blocks| ==> l.blocks[k].hole
    ensures l.blocks == [Block(l.start, l.end - l.start, true, true)]
  {
    TilesWidth(l.blocks, l.start, l.end);
    if |l.blocks| == 1 {
      TilesAt(l.blocks, l.start, l.end, 0);
    }
  }

  // ----- allocate, then free -----

  /** The blocks of an allocation without growth, seen by the free that follows. */
  lemma CarvedNeighbours(bs: seq<Block>, k: nat, size: nat)
    requires k < |bs| && Coalesced(bs) && bs[k].hole && size <= bs[k].size
    ensures var bs' := Splice(bs, k, k + 1, Pieces(bs[k], 0, size));
      && k < |bs'| && bs'[k] == Block(bs[k].addr, size, false, true)
      && !MergesLeft(bs', k)
      && (MergesRight(bs', k) <==> size < bs[k].size)
      && bs'[RightOf(bs', k) - 1].End() == bs[k].End()
      && Splice(bs', k, RightOf(bs', k), [bs[k]]) == bs
  {
    hide Coalesced, Pieces;
    FrontlessPieces(bs[k], size);
    if k > 0 { CoalescedAt(bs, k - 1); }
    if k + 1 < |bs| { CoalescedAt(bs, k); }
    SplitTwice(bs, k, k + 1);
    assert bs[k..k + 1] == [bs[k]];
  }

  /** Freeing at once undoes an unaligned allocation that did not grow the heap. */
  lemma AllocFreeRoundTrip(l: Layout, request: nat)
    requires WellFormed(l) && Coalesced(l.blocks) && AllFooted(l.blocks)
    requires FirstFit(l.blocks, l.index, request + TAGS, false) < |l.index|
    ensures var r := Alloc(l, request, false);
      && r.Done? && IsLive(r.value.layout, r.value.ptr)
      && Free(r.value.layout, r.value.ptr).Done?
      && var l' := Free(r.value.layout, r.value.ptr).value;
         multiset(l'.index) == multiset(l.index) && l' == l.(index := l'.index)
  {
    UnalignedPanics(l, request);
    var l1, i, size := UnalignedBlocks(l, request);
    RoundTripAt(l, i, size);
  }

  /** The block just carved is the one behind the pointer. */
  lemma CarvedIsLive(l: Layout, i: nat, size: nat)
    requires WellFormed(l) && Coalesced(l.blocks)
    requires i < |l.index| && Find(l.blocks, l.index[i]) < |l.blocks| && Chosen(l, i).hole
    requires TAGS <= size <= Chosen(l, i).size && CarveAt(l, i, 0, size).Done?
    ensures var r := CarveAt(l, i, 0, size).value;
      && WellFormed(r.layout) && IsLive(r.layout, r.ptr) && At(r.layout, r.ptr) == Find(l.blocks, l.index[i])
  {
    hide CarveAt, Pieces, WellFormed, Coalesced, Splice, MergesLeft, MergesRight;
    var k, r := Find(l.blocks, l.index[i]), CarveAt(l, i, 0, size).value;
    CarveAtWellFormed(l, i, 0, size);
    CarveAtBlocks(l, i, 0, size);
    CarvedNeighbours(l.blocks, k, size);
    WellFormedParts(r.layout);
    FindUnique(r.layout.blocks, r.layout.start, r.layout.end, k);
  }

  /** Freeing it never stops: a split leaves a hole to merge with, an absorbed hole leaves an index entry. */
  lemma CarvedFreeDone(l: Layout, i: nat, size: nat)
    requires WellFormed(l) && Coalesced(l.blocks)
    requires i < |l.index| && Find(l.blocks, l.index[i]) < |l.blocks| && Chosen(l, i).hole
    requires TAGS <= size <= Chosen(l, i).size && CarveAt(l, i, 0, size).Done?
    ensures var r := CarveAt(l, i, 0, size).value;
      IsLive(r.layout, r.ptr) && Free(r.layout, r.ptr).Done?
  {
    var r := CarveAt(l, i, 0, size).value;
    CarvedIsLive(l, i, size);
    CarveAtBlocks(l, i, 0, size);
    CarvedNeighbours(l.blocks, Find(l.blocks, l.index[i]), size);
    CarveFrontIndex(l, i, 0, size, 0);
    FreeWellFormed(r.layout, r.ptr);
  }

  lemma RoundTripAt(l: Layout, i: nat, size: nat)
    requires WellFormed(l) && Coalesced(l.blocks) && AllFooted(l.blocks)
    requires i < |l.index| && Find(l.blocks, l.index[i]) < |l.blocks| && Chosen(l, i).hole
    requires TAGS <= size <= Chosen(l, i).size && CarveAt(l, i, 0, size).Done?
    ensures var r := CarveAt(l, i, 0, size).value;
      && IsLive(r.layout, r.ptr) && Free(r.layout, r.ptr).Done?
      && var l' := Free(r.layout, r.ptr).value;
         multiset(l'.index) == multiset(l.index) && l' == l.(index := l'.index)
  {
    var r := CarveAt(l, i, 0, size).value;
    CarvedIsLive(l, i, size);
    CarvedFreeDone(l, i, size);
    RoundTripBlocks(l, i, size);
    FreeWellFormed(r.layout, r.ptr);
    SameHolesSameIndex(l, Free(r.layout, r.ptr).value);
  }

  lemma RoundTripBlocks(l: Layout, i: nat, size: nat)
    requires WellFormed(l) && Coalesced(l.blocks) && AllFooted(l.blocks)
    requires i < |l.index| && Find(l.blocks, l.index[i]) < |l.blocks| && Chosen(l, i).hole
    requires TAGS <= size <= Chosen(l, i).size && CarveAt(l, i, 0, size).Done?
    requires var r := CarveAt(l, i, 0, size).value; IsLive(r.layout, r.ptr) && Free(r.layout, r.ptr).Done?
    ensures var r := CarveAt(l, i, 0, size).value;
      var l' := Free(r.layout, r.ptr).value; l' == l.(index := l'.index)
  {
    var k, r := Find(l.blocks, l.index[i]), CarveAt(l, i, 0, size).value;
    CarvedIsLive(l, i, size);
    CarveAtBlocks(l, i, 0, size);
    FreedBlocks(r.layout, r.ptr);
    RefusedPieces(l.blocks, k, size);
    FreeFrame(r.layout, r.ptr);
  }

  /** Fusing the pieces of a hole gives the hole back. */
  lemma RefusedPieces(bs: seq<Block>, k: nat, size: nat)
    requires k < |bs| && Coalesced(bs) && bs[k].hole && bs[k].footed && size <= bs[k].size
    ensures var bs' := Splice(bs, k, k + 1, Pieces(bs[k], 0, size));
      && k < |bs'|
      && var lo, hi := LeftOf(bs', k), RightOf(bs', k);
         bs'[lo].addr <= bs'[hi - 1].End() && Splice(bs', lo, hi, [Fuse(bs', lo, hi)]) == bs
  {
    CarvedNeighbours(bs, k, size);
  }

  lemma FreeFrame(l: Layout, ptr: nat)
    requires IsLive(l, ptr) && Free(l, ptr).Done?
    ensures var l' := Free(l, ptr).value; l'.start == l.start && l'.end == l.end && l'.limit == l.limit
  {
  }

  /** Well-formed heaps with the same blocks index the same holes. */
  lemma SameHolesSameIndex(l: Layout, l': Layout)
    requires Indexed(l) && Indexed(l') && l.blocks == l'.blocks
    ensures multiset(l'.index) == multiset(l.index)
  {
    forall a ensures multiset(l'.index)[a] == multiset(l.index)[a] {
      assert Occurs(l'.index, a) == Holes(l.blocks, a) == Occurs(l.index, a);
    }
  }
}
