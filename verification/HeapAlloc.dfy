/** src/kheap.c on values: heap_alloc as a function of a layout, and what it keeps. */
module HeapAlloc {
  import opened Machine
  import opened OrderedArrays
  import opened HeapLayout

  // ----- heap_alloc -----

  datatype Placed = Placed(layout: Layout, ptr: nat)

  /** ordered_array_insert into the hole index */
  function Enlist(l: Layout, a: nat): Outcome<Layout> {
    if |l.index| >= INDEX_SIZE then Panic(IndexFull)
    else Done(l.(index := Pass(l.index + [a], SizeKey(l.blocks))))
  }

  function GrownLength(l: Layout, need: nat): nat
    requires l.start <= l.end
  {
    PageCeil(l.end - l.start + need + PAGE_SIZE)
  }

  /** Give the arena a new end; the new pages become a hole of their own. */
  function Extend(l: Layout, end: nat): Outcome<Layout>
    requires l.end <= end
  {
    Enlist(l.(end := end, blocks := l.blocks + [Block(l.end, end - l.end, true, true)]), l.end)
  }

  /** expand, and the hole made of the new pages */
  function Grow(l: Layout, need: nat): Outcome<Layout>
    requires l.start <= l.end
  {
    var end := l.start + GrownLength(l, need);
    if end > l.limit then Panic(HeapExhausted) else Extend(l, end)
  }

  /** How a hole is divided: an optional hole in front, the block, an optional hole behind. */
  function Pieces(h: Block, offset: nat, size: nat): seq<Block>
    requires offset + size <= h.size
  {
    (if offset > 0 then [Block(h.addr, offset, true, true)] else [])
    + [Block(h.addr + offset, size, false, true)]
    + (if offset + size < h.size then [Block(h.addr + offset + size, h.size - offset - size, true, true)] else [])
  }

  /** The size the block gets: all of the hole when the remainder could not hold two tags. */
  function BlockSize(h: Block, need: nat): nat
    requires need <= h.size
  {
    if h.size - need <= TAGS then h.size else need
  }

  /** How far into the hole the block starts. */
  function CarveOffset(h: Block, align: bool): nat {
    if align then AlignOffset(h.addr) else 0
  }

  /** The hole at index position `i`. */
  function Chosen(l: Layout, i: nat): Block
    requires i < |l.index| && Find(l.blocks, l.index[i]) < |l.blocks|
  {
    l.blocks[Find(l.blocks, l.index[i])]
  }

  /** The hole at index position `i` is replaced by its pieces; its own entry goes, a hole in front gets one. */
  function CarveFront(l: Layout, i: nat, offset: nat, size: nat): Layout
    requires i < |l.index| && Find(l.blocks, l.index[i]) < |l.blocks|
    requires offset + size <= Chosen(l, i).size
  {
    var k := Find(l.blocks, l.index[i]);
    var blocks := Splice(l.blocks, k, k + 1, Pieces(l.blocks[k], offset, size));
    var removed := RemoveAt(l.index, i);
    l.(blocks := blocks, index := if offset > 0 then Pass(removed + [l.index[i]], SizeKey(blocks)) else removed)
  }

  /** A block of `size` bytes, `offset` bytes into a chosen hole: src/kheap.c:202-271 with line 223 corrected. */
  function CarveAt(l: Layout, i: nat, offset: nat, size: nat): Outcome<Placed>
    requires i < |l.index| && Find(l.blocks, l.index[i]) < |l.blocks|
    requires offset + size <= Chosen(l, i).size
  {
    var h := Chosen(l, i);
    var rest := h.size - offset - size;
    if 0 < rest <= TAGS then Panic(RemainderTooSmall)
    else
      var l1 := CarveFront(l, i, offset, size);
      var ptr := h.addr + offset + HEADER_SIZE;
      if rest == 0 then Done(Placed(l1, ptr))
      else
        match Enlist(l1, h.addr + offset + size)
        case Panic(f) => Panic(f)
        case Done(l2) => Done(Placed(l2, ptr))
  }

  function Carve(l: Layout, i: nat, need: nat, align: bool): Outcome<Placed>
    requires i < |l.index| && Find(l.blocks, l.index[i]) < |l.blocks|
    requires Fits(l.blocks, l.index[i], need, align)
  {
    var h := Chosen(l, i);
    CarveRoom(h, need, align);
    CarveAt(l, i, CarveOffset(h, align), BlockSize(h, need))
  }

  /** The block stays inside the hole: with a nonzero offset the absorb branch is never taken. */
  lemma CarveRoom(h: Block, need: nat, align: bool)
    requires h.size - CarveOffset(h, align) >= need
    ensures CarveOffset(h, align) + BlockSize(h, need) <= h.size
    ensures CarveOffset(h, align) > 0 ==> CarveOffset(h, align) > TAGS && BlockSize(h, need) == need
    ensures align ==> (h.addr + CarveOffset(h, align) + HEADER_SIZE) % PAGE_SIZE == 0
  {
    AlignOffsetLeast(h.addr, 0);
  }

  // ----- growth -----

  lemma EnlistCounts(l: Layout, b: nat, a: nat)
    requires |l.index| < INDEX_SIZE
    ensures Enlist(l, b).Done? && |Enlist(l, b).value.index| == |l.index| + 1
    ensures Occurs(Enlist(l, b).value.index, a) == Occurs(l.index, a) + (if a == b then 1 else 0)
  {
    OccursAppended(l.index, b, a);
    OccursPassed(l.index + [b], SizeKey(l.blocks), a);
  }

  lemma GrownLengthAligned(l: Layout, need: nat)
    requires Shaped(l)
    ensures (l.start + GrownLength(l, need)) % PAGE_SIZE == 0
    ensures l.start + GrownLength(l, need) >= l.end + need + PAGE_SIZE
  {
  }

  lemma AppendShaped(l: Layout, b: Block)
    requires Shaped(l) && b.addr == l.end && b.size >= TAGS && b.footed
    requires b.End() % PAGE_SIZE == 0 && b.End() <= l.limit
    ensures Shaped(l.(end := b.End(), blocks := l.blocks + [b]))
  {
    assert Tiles([b], l.end, b.End()) by {
      assert Tiles([b][1..], b.End(), b.End());
    }
    TilesJoin(l.blocks, [b], l.start, l.end, b.End());
    TilesWidth(l.blocks, l.start, l.end);
  }

  lemma ExtendCounts(l: Layout, end: nat, a: nat)
    requires l.end <= end && Indexed(l) && Extend(l, end).Done?
    ensures var r := Extend(l, end).value; Occurs(r.index, a) == Holes(r.blocks, a) && |r.index| <= INDEX_SIZE
  {
    hide Pass;
    var hole := Block(l.end, end - l.end, true, true);
    EnlistCounts(l.(end := end, blocks := l.blocks + [hole]), l.end, a);
    HolesConcat(l.blocks, [hole], a);
    CountsSingle(hole, a, hole);
  }

  lemma ExtendWellFormed(l: Layout, end: nat)
    requires WellFormed(l) && l.end + TAGS <= end <= l.limit && end % PAGE_SIZE == 0 && Extend(l, end).Done?
    ensures WellFormed(Extend(l, end).value)
  {
    AppendShaped(l, Block(l.end, end - l.end, true, true));
    forall a { ExtendCounts(l, end, a); }
  }

  lemma GrowWellFormed(l: Layout, need: nat)
    requires WellFormed(l) && Grow(l, need).Done?
    ensures var l1 := Grow(l, need).value;
      WellFormed(l1) && l1.blocks == l.blocks + [Block(l.end, l1.end - l.end, true, true)]
      && l1.start == l.start && l1.limit == l.limit && l1.end - l.end >= need + PAGE_SIZE
  {
    GrownLengthAligned(l, need);
    ExtendWellFormed(l, l.start + GrownLength(l, need));
  }

  /** After growth the second search succeeds, aligned or not, and picks the new hole. */
  lemma GrowthFits(l: Layout, need: nat, align: bool)
    requires WellFormed(l) && Grow(l, need).Done?
    requires FirstFit(l.blocks, l.index, need, align) == |l.index|
    ensures var l1 := Grow(l, need).value;
      var i := FirstFit(l1.blocks, l1.index, need, align);
      i < |l1.index| && l1.index[i] == l.end && Find(l1.blocks, l.end) == |l.blocks|
  {
    var l1 := Grow(l, need).value;
    GrowWellFormed(l, need);
    FindUnique(l1.blocks, l1.start, l1.end, |l.blocks|);
    NewHoleFits(l, need, align);
    FirstFitComplete(l1, need, align);
    var i := FirstFit(l1.blocks, l1.index, need, align);
    IndexedIsHole(l1, i);
    var k := Find(l1.blocks, l1.index[i]);
    if k < |l.blocks| {
      assert l1.blocks[k] == l.blocks[k];
      FindUnique(l.blocks, l.start, l.end, k);
      FirstFitComplete(l, need, align);
    }
  }

  /** A header at the start of a page needs almost a page to align the payload behind it. */
  lemma AlignedStart(a: nat)
    requires a % PAGE_SIZE == 0
    ensures AlignOffset(a) == PAGE_SIZE - HEADER_SIZE
  {
  }

  lemma NewHoleFits(l: Layout, need: nat, align: bool)
    requires WellFormed(l) && Grow(l, need).Done?
    ensures Fits(Grow(l, need).value.blocks, l.end, need, align)
  {
    hide Grow, WellFormed, AlignOffset, SizeAt;
    WellFormedParts(l);
    var l1 := Grow(l, need).value;
    GrowWellFormed(l, need);
    WellFormedParts(l1);
    FindUnique(l1.blocks, l1.start, l1.end, |l.blocks|);
    AlignedStart(l.end);
  }

  // ----- carving -----

  lemma PiecesTile(h: Block, offset: nat, size: nat)
    requires offset + size <= h.size && (offset == 0 || offset >= TAGS) && size >= TAGS
    requires offset + size == h.size || offset + size + TAGS <= h.size
    ensures Tiles(Pieces(h, offset, size), h.addr, h.End())
    ensures forall p :: p in Pieces(h, offset, size) ==> p.footed
  {
    var rest := h.size - offset - size;
    var right := if rest > 0 then [Block(h.addr + offset + size, rest, true, true)] else [];
    assert Tiles(right, h.addr + offset + size, h.End()) by {
      if right != [] { assert Tiles(right[1..], h.End(), h.End()); }
    }
    var mid := [Block(h.addr + offset, size, false, true)];
    assert mid[1..] == [];
    TilesJoin(mid, right, h.addr + offset, h.addr + offset + size, h.End());
    var left := if offset > 0 then [Block(h.addr, offset, true, true)] else [];
    assert Tiles(left, h.addr, h.addr + offset) by {
      if left != [] { assert Tiles(left[1..], h.addr + offset, h.addr + offset); }
    }
    TilesJoin(left, mid + right, h.addr, h.addr + offset, h.End());
    assert left + (mid + right) == Pieces(h, offset, size);
  }

  lemma PiecesCounts(h: Block, offset: nat, size: nat, a: nat, c: Block)
    requires offset + size <= h.size
    ensures Holes(Pieces(h, offset, size), a) ==
      (if offset > 0 && a == h.addr then 1 else 0)
      + (if offset + size < h.size && a == h.addr + offset + size then 1 else 0)
    ensures Live(Pieces(h, offset, size), c) == if c == Block(h.addr + offset, size, false, true) then 1 else 0
  {
    var left := Block(h.addr, offset, true, true);
    var mid := Block(h.addr + offset, size, false, true);
    var right := Block(h.addr + offset + size, h.size - offset - size, true, true);
    var lefts := if offset > 0 then [left] else [];
    var rights := if offset + size < h.size then [right] else [];
    HolesConcat(lefts + [mid], rights, a);
    HolesConcat(lefts, [mid], a);
    LiveConcat(lefts + [mid], rights, c);
    LiveConcat(lefts, [mid], c);
    CountsSingle(left, a, c);
    CountsSingle(mid, a, c);
    CountsSingle(right, a, c);
  }

  lemma CarveFrontShaped(l: Layout, i: nat, offset: nat, size: nat)
    requires WellFormed(l) && i < |l.index| && Find(l.blocks, l.index[i]) < |l.blocks|
    requires var h := Chosen(l, i);
      && offset + size <= h.size && (offset == 0 || offset >= TAGS) && size >= TAGS
      && (offset + size == h.size || offset + size + TAGS <= h.size)
    ensures Shaped(CarveFront(l, i, offset, size))
  {
    hide WellFormed, Shaped, Pieces, Splice, Pass;
    WellFormedParts(l);
    var k := Find(l.blocks, l.index[i]);
    PiecesTile(l.blocks[k], offset, size);
    TilesAt(l.blocks, l.start, l.end, k);
    SpliceShaped(l, k, k + 1, Pieces(l.blocks[k], offset, size));
    ShapedIgnoresIndex(l.(blocks := Splice(l.blocks, k, k + 1, Pieces(l.blocks[k], offset, size))),
                       CarveFront(l, i, offset, size).index);
  }

  /** The index after the hole's own entry is dropped, or moved to the hole left in front. */
  lemma CarveFrontIndex(l: Layout, i: nat, offset: nat, size: nat, a: nat)
    requires i < |l.index| && Find(l.blocks, l.index[i]) < |l.blocks|
    requires offset + size <= Chosen(l, i).size
    ensures var l1 := CarveFront(l, i, offset, size);
      && Occurs(l1.index, a) == Occurs(l.index, a) - (if offset == 0 && a == l.index[i] then 1 else 0)
      && |l1.index| == |l.index| - (if offset > 0 then 0 else 1)
  {
    OccursRemoved(l.index, i, a);
    OccursAppended(RemoveAt(l.index, i), l.index[i], a);
    OccursPassed(RemoveAt(l.index, i) + [l.index[i]], SizeKey(CarveFront(l, i, offset, size).blocks), a);
  }

  lemma CarveFrontHoles(bs: seq<Block>, k: nat, offset: nat, size: nat, a: nat)
    requires k < |bs| && bs[k].hole && offset + size <= bs[k].size
    ensures var h := bs[k];
      Holes(Splice(bs, k, k + 1, Pieces(h, offset, size)), a) ==
        Holes(bs, a) - (if offset == 0 && a == h.addr then 1 else 0)
        + (if offset + size < h.size && a == h.addr + offset + size then 1 else 0)
  {
    var ps := Pieces(bs[k], offset, size);
    PiecesCounts(bs[k], offset, size, a, bs[k]);
    HolesSplice(bs, k, k + 1, ps, a);
    assert bs[k..k + 1] == [bs[k]];
    CountsSingle(bs[k], a, bs[k]);
  }

  lemma CarveFrontLive(bs: seq<Block>, k: nat, offset: nat, size: nat)
    requires k < |bs| && bs[k].hole && offset + size <= bs[k].size
    ensures var block := Block(bs[k].addr + offset, size, false, true);
      LiveAdds(bs, Splice(bs, k, k + 1, Pieces(bs[k], offset, size)), block)
  {
    var ps := Pieces(bs[k], offset, size);
    forall c ensures Live(Splice(bs, k, k + 1, ps), c) == Live(bs, c) + Live(ps, c) {
      LiveSplice(bs, k, k + 1, ps, c);
      assert bs[k..k + 1] == [bs[k]];
      CountsSingle(bs[k], 0, c);
    }
    forall c ensures Live(ps, c) == if c == Block(bs[k].addr + offset, size, false, true) then 1 else 0 {
      PiecesCounts(bs[k], offset, size, 0, c);
    }
  }

  lemma CarveFrontIndexed(l: Layout, i: nat, offset: nat, size: nat, a: nat)
    requires WellFormed(l) && i < |l.index| && Find(l.blocks, l.index[i]) < |l.blocks|
    requires offset + size <= Chosen(l, i).size
    ensures var h := Chosen(l, i);
      var l1 := CarveFront(l, i, offset, size);
      Holes(l1.blocks, a) == Occurs(l1.index, a)
        + (if offset + size < h.size && a == h.addr + offset + size then 1 else 0)
  {
    IndexedIsHole(l, i);
    CarveFrontIndex(l, i, offset, size, a);
    CarveFrontHoles(l.blocks, Find(l.blocks, l.index[i]), offset, size, a);
  }

  /** The allocated blocks are those of before and `b`. */
  ghost predicate LiveAdds(bs: seq<Block>, bs': seq<Block>, b: Block) {
    forall c :: Live(bs', c) == Live(bs, c) + (if c == b then 1 else 0)
  }

  lemma CarveAtBlocks(l: Layout, i: nat, offset: nat, size: nat)
    requires i < |l.index| && Find(l.blocks, l.index[i]) < |l.blocks|
    requires offset + size <= Chosen(l, i).size && CarveAt(l, i, offset, size).Done?
    ensures var r := CarveAt(l, i, offset, size).value;
      && r.layout == CarveFront(l, i, offset, size).(index := r.layout.index)
      && r.ptr == Chosen(l, i).addr + offset + HEADER_SIZE
  {
  }

  lemma EnlistedCounts(l: Layout, i: nat, offset: nat, size: nat, l1: Layout, a: nat)
    requires i < |l.index| && Find(l.blocks, l.index[i]) < |l.blocks|
    requires offset + size <= Chosen(l, i).size && CarveAt(l, i, offset, size).Done?
    requires l1 == CarveFront(l, i, offset, size) && |l1.index| <= INDEX_SIZE
    ensures var r := CarveAt(l, i, offset, size).value.layout;
      && r.blocks == l1.blocks && |r.index| <= INDEX_SIZE
      && Occurs(r.index, a) == Occurs(l1.index, a)
         + (if offset + size < Chosen(l, i).size && a == Chosen(l, i).addr + offset + size then 1 else 0)
  {
    hide Pass, CarveFront;
    if offset + size < Chosen(l, i).size {
      EnlistCounts(l1, Chosen(l, i).addr + offset + size, a);
    }
  }

  lemma CarveAtCounts(l: Layout, i: nat, offset: nat, size: nat, a: nat)
    requires WellFormed(l) && i < |l.index| && Find(l.blocks, l.index[i]) < |l.blocks|
    requires offset + size <= Chosen(l, i).size && CarveAt(l, i, offset, size).Done?
    ensures var r := CarveAt(l, i, offset, size).value.layout;
      Occurs(r.index, a) == Holes(r.blocks, a) && |r.index| <= INDEX_SIZE
  {
    CarveFrontIndex(l, i, offset, size, a);
    CarveFrontIndexed(l, i, offset, size, a);
    EnlistedCounts(l, i, offset, size, CarveFront(l, i, offset, size), a);
  }

  lemma CarveAtWellFormed(l: Layout, i: nat, offset: nat, size: nat)
    requires WellFormed(l) && i < |l.index| && Find(l.blocks, l.index[i]) < |l.blocks|
    requires offset + size <= Chosen(l, i).size && (offset == 0 || offset > TAGS) && size >= TAGS
    requires CarveAt(l, i, offset, size).Done?
    ensures WellFormed(CarveAt(l, i, offset, size).value.layout)
  {
    CarveFrontShaped(l, i, offset, size);
    CarveAtBlocks(l, i, offset, size);
    forall a { CarveAtCounts(l, i, offset, size, a); }
  }

  lemma CarveAtLive(l: Layout, i: nat, offset: nat, size: nat)
    requires i < |l.index| && Find(l.blocks, l.index[i]) < |l.blocks| && Chosen(l, i).hole
    requires offset + size <= Chosen(l, i).size && CarveAt(l, i, offset, size).Done?
    ensures var r := CarveAt(l, i, offset, size).value;
      var b := Block(Chosen(l, i).addr + offset, size, false, true);
      LiveAdds(l.blocks, r.layout.blocks, b) && r.ptr == b.Pointer()
  {
    CarveAtBlocks(l, i, offset, size);
    CarveFrontLive(l.blocks, Find(l.blocks, l.index[i]), offset, size);
  }

  /** Exactly when a split stops: too little room behind the block, or no free index entry for it. */
  lemma CarveAtPanics(l: Layout, i: nat, offset: nat, size: nat)
    requires |l.index| <= INDEX_SIZE && i < |l.index| && Find(l.blocks, l.index[i]) < |l.blocks|
    requires offset + size <= Chosen(l, i).size
    ensures var rest := Chosen(l, i).size - offset - size;
      CarveAt(l, i, offset, size).Panic? <==> 0 < rest <= TAGS || (rest > TAGS && offset > 0 && |l.index| == INDEX_SIZE)
    ensures var rest := Chosen(l, i).size - offset - size;
      CarveAt(l, i, offset, size).Panic? ==>
        CarveAt(l, i, offset, size).fault == if rest <= TAGS then RemainderTooSmall else IndexFull
  {
    CarveFrontIndex(l, i, offset, size, 0);
  }

  // ----- heap_alloc as a whole -----

  /** The layout in which the block will be placed: this one if a hole fits, else the grown one. */
  function Locate(l: Layout, need: nat, align: bool): Outcome<Layout>
    requires l.start <= l.end
  {
    if FirstFit(l.blocks, l.index, need, align) < |l.index| then Done(l) else Grow(l, need)
  }

  function Alloc(l: Layout, request: nat, align: bool): Outcome<Placed>
    requires WellFormed(l)
  {
    var need := request + TAGS;
    match Locate(l, need, align)
    case Panic(f) => Panic(f)
    case Done(l1) =>
      var i := FirstFit(l1.blocks, l1.index, need, align);
      if i == |l1.index| then Panic(NoHoleAfterGrowth)
      else
        LocateWellFormed(l, need, align);
        IndexedIsHole(l1, i);
        Carve(l1, i, need, align)
  }

  lemma LocateWellFormed(l: Layout, need: nat, align: bool)
    requires WellFormed(l) && Locate(l, need, align).Done?
    ensures WellFormed(Locate(l, need, align).value)
  {
    if FirstFit(l.blocks, l.index, need, align) == |l.index| {
      GrowWellFormed(l, need);
    }
  }

  /** The hole at position `i` of `l1` is one of `l`, or the one growth appended. */
  ghost predicate CarvedFrom(l: Layout, need: nat, l1: Layout, i: nat)
    requires WellFormed(l)
  {
    && WellFormed(l1) && i < |l1.index| && Find(l1.blocks, l1.index[i]) < |l1.blocks| && Chosen(l1, i).hole
    && (l1 == l || (Grow(l, need) == Done(l1) && Find(l1.blocks, l1.index[i]) == |l.blocks|))
  }

  /** Allocation is a carve from a fitting hole, after growth if need be; the second search never fails. */
  lemma AllocIsCarve(l: Layout, request: nat, align: bool) returns (l1: Layout, i: nat)
    requires WellFormed(l) && Locate(l, request + TAGS, align).Done?
    ensures CarvedFrom(l, request + TAGS, l1, i)
    ensures Locate(l, request + TAGS, align) == Done(l1)
    ensures Fits(l1.blocks, l1.index[i], request + TAGS, align)
    ensures Alloc(l, request, align) == Carve(l1, i, request + TAGS, align)
  {
    var need := request + TAGS;
    l1 := Locate(l, need, align).value;
    LocateWellFormed(l, need, align);
    if FirstFit(l.blocks, l.index, need, align) == |l.index| {
      GrowthFits(l, need, align);
    }
    i := FirstFit(l1.blocks, l1.index, need, align);
    IndexedIsHole(l1, i);
  }

  /** The hole an allocation uses. */
  ghost function Target(l: Layout, need: nat, align: bool): (h: Block)
    requires WellFormed(l) && Locate(l, need, align).Done?
    ensures h.hole && h.size - CarveOffset(h, align) >= need
  {
    TargetExists(l, need, align);
    var l1 := Locate(l, need, align).value;
    Chosen(l1, FirstFit(l1.blocks, l1.index, need, align))
  }

  lemma TargetExists(l: Layout, need: nat, align: bool)
    requires WellFormed(l) && Locate(l, need, align).Done?
    ensures var l1 := Locate(l, need, align).value;
      var i := FirstFit(l1.blocks, l1.index, need, align);
      && WellFormed(l1) && i < |l1.index| && Find(l1.blocks, l1.index[i]) < |l1.blocks|
      && Chosen(l1, i).hole && Chosen(l1, i).size - CarveOffset(Chosen(l1, i), align) >= need
      && l.blocks <= l1.blocks
  {
    hide AlignOffset;
    var l1 := Locate(l, need, align).value;
    LocateWellFormed(l, need, align);
    if FirstFit(l.blocks, l.index, need, align) == |l.index| {
      GrowthFits(l, need, align);
      GrowWellFormed(l, need);
    }
    IndexedIsHole(l1, FirstFit(l1.blocks, l1.index, need, align));
  }

  lemma ChosenRoom(l: Layout, i: nat, need: nat, align: bool)
    requires i < |l.index| && Find(l.blocks, l.index[i]) < |l.blocks| && Fits(l.blocks, l.index[i], need, align)
    ensures Chosen(l, i).size - CarveOffset(Chosen(l, i), align) >= need
  {
    hide AlignOffset;
  }

  /** The same, as a carve at a known offset and size. */
  lemma AllocIsCarveAt(l: Layout, request: nat, align: bool) returns (l1: Layout, i: nat, offset: nat, size: nat)
    requires WellFormed(l) && Locate(l, request + TAGS, align).Done?
    ensures CarvedFrom(l, request + TAGS, l1, i) && Locate(l, request + TAGS, align) == Done(l1)
    ensures request + TAGS <= size && offset + size <= Chosen(l1, i).size
    ensures offset == 0 || (align && offset > TAGS && size == request + TAGS)
    ensures align ==> (Chosen(l1, i).addr + offset + HEADER_SIZE) % PAGE_SIZE == 0
    ensures offset == 0 ==> size == BlockSize(Chosen(l1, i), request + TAGS)
    ensures Alloc(l, request, align) == CarveAt(l1, i, offset, size)
  {
    hide Alloc, Locate, WellFormed, AlignOffset, CarveAt, Grow;
    l1, i := AllocIsCarve(l, request, align);
    var h := Chosen(l1, i);
    ChosenRoom(l1, i, request + TAGS, align);
    CarveRoom(h, request + TAGS, align);
    offset, size := CarveOffset(h, align), BlockSize(h, request + TAGS);
  }

  lemma AllocLocates(l: Layout, request: nat, align: bool)
    requires WellFormed(l) && Alloc(l, request, align).Done?
    ensures Locate(l, request + TAGS, align).Done?
  {
  }

  /** When an unaligned allocation stops, and why: nothing else can go wrong. */
  lemma UnalignedPanics(l: Layout, request: nat)
    requires WellFormed(l)
    ensures var stuck := FirstFit(l.blocks, l.index, request + TAGS, false) == |l.index|;
      var tooFar := l.start + GrownLength(l, request + TAGS) > l.limit;
      && (Alloc(l, request, false).Panic? <==> stuck && (tooFar || |l.index| == INDEX_SIZE))
      && (Alloc(l, request, false).Panic? ==>
            Alloc(l, request, false).fault == if tooFar then HeapExhausted else IndexFull)
  {
    if Locate(l, request + TAGS, false).Done? {
      var l1, i, offset, size := AllocIsCarveAt(l, request, false);
      CarveAtPanics(l1, i, 0, size);
    }
  }

  /** When an aligned allocation stops once a hole is found: 1 to 20 bytes are left behind the block, or no entry is. */
  lemma AlignedPanics(l: Layout, request: nat, l1: Layout)
    requires WellFormed(l) && Locate(l, request + TAGS, true) == Done(l1)
    ensures var h := Target(l, request + TAGS, true);
      var offset := CarveOffset(h, true);
      var rest := h.size - offset - (request + TAGS);
      && (Alloc(l, request, true).Panic? <==>
            offset > 0 && (0 < rest <= TAGS || (rest > TAGS && |l1.index| == INDEX_SIZE)))
      && (Alloc(l, request, true).Panic? ==>
            Alloc(l, request, true).fault == if rest <= TAGS then RemainderTooSmall else IndexFull)
  {
    hide AlignOffset, CarveAt, Locate;
    var need := request + TAGS;
    var h := Target(l, need, true);
    TargetExists(l, need, true);
    var i := FirstFit(l1.blocks, l1.index, need, true);
    CarveRoom(h, need, true);
    CarveAtPanics(l1, i, CarveOffset(h, true), BlockSize(h, need));
  }

  /** How far into its hole a returned block starts. */
  ghost function PlacedOffset(l: Layout, request: nat, align: bool): nat
    requires WellFormed(l) && Alloc(l, request, align).Done?
  {
    AllocLocates(l, request, align);
    CarveOffset(Target(l, request + TAGS, align), align)
  }

  /** An offset leaves a hole of that many bytes in front of the block. */
  lemma OffsetLeavesHole(l: Layout, request: nat, align: bool) returns (k: nat)
    requires WellFormed(l) && Alloc(l, request, align).Done? && PlacedOffset(l, request, align) > 0
    ensures var p, offset := Alloc(l, request, align).value, PlacedOffset(l, request, align);
      && offset + HEADER_SIZE <= p.ptr && k < |p.layout.blocks|
      && p.layout.blocks[k] == Block(p.ptr - HEADER_SIZE - offset, offset, true, true)
  {
    hide CarveAt, AlignOffset, Locate;
    var need := request + TAGS;
    AllocLocates(l, request, align);
    TargetExists(l, need, align);
    var l1 := Locate(l, need, align).value;
    var i := FirstFit(l1.blocks, l1.index, need, align);
    var h := Chosen(l1, i);
    CarveRoom(h, need, align);
    CarveAtBlocks(l1, i, CarveOffset(h, align), BlockSize(h, need));
    k := Find(l1.blocks, l1.index[i]);
  }

  /** Every way an allocation can stop. */
  lemma AllocFaults(l: Layout, request: nat, align: bool)
    requires WellFormed(l) && Alloc(l, request, align).Panic?
    ensures Alloc(l, request, align).fault in {HeapExhausted, IndexFull}
      || (align && Alloc(l, request, align) == Panic(RemainderTooSmall))
  {
    hide Alloc, Locate, CarveAt;
    if !align {
      UnalignedPanics(l, request);
    } else if Locate(l, request + TAGS, true).Done? {
      AlignedPanics(l, request, Locate(l, request + TAGS, true).value);
    } else {
      LocateFaults(l, request, true);
    }
  }

  lemma LocateFaults(l: Layout, request: nat, align: bool)
    requires WellFormed(l) && Locate(l, request + TAGS, align).Panic?
    ensures Alloc(l, request, align).Panic? && Alloc(l, request, align).fault in {HeapExhausted, IndexFull}
  {
  }

  /** So an arena of one hole refuses every aligned request that would leave 1 to 20 bytes of it. */
  lemma AlignedRemainderStops(l: Layout, request: nat, rest: nat)
    requires WellFormed(l) && |l.blocks| == 1 && l.blocks[0].hole && 0 < rest <= TAGS
    requires l.blocks[0].size == PAGE_SIZE - HEADER_SIZE + request + TAGS + rest
    ensures Alloc(l, request, true) == Panic(RemainderTooSmall)
  {
    hide Alloc;
    var h, need := l.blocks[0], request + TAGS;
    TilesAt(l.blocks, l.start, l.end, 0);
    FindUnique(l.blocks, l.start, l.end, 0);
    assert AlignOffset(h.addr) == PAGE_SIZE - HEADER_SIZE;
    FirstFitComplete(l, need, true);
    var i := FirstFit(l.blocks, l.index, need, true);
    IndexedIsHole(l, i);
    AlignedPanics(l, request, l);
  }

  lemma AllocWellFormed(l: Layout, request: nat, align: bool)
    requires WellFormed(l) && Alloc(l, request, align).Done?
    ensures WellFormed(Alloc(l, request, align).value.layout)
  {
    hide Alloc, Locate, CarveAt;
    AllocLocates(l, request, align);
    var l1, i, offset, size := AllocIsCarveAt(l, request, align);
    CarveAtWellFormed(l1, i, offset, size);
  }

  lemma {:induction false} AppendHoleLive(bs: seq<Block>, h: Block, c: Block)
    requires h.hole
    ensures Live(bs + [h], c) == Live(bs, c)
  {
    LiveConcat(bs, [h], c);
    CountsSingle(h, 0, c);
  }

  /** What an allocation adds: a block large enough, at the address returned, aligned if asked. */
  ghost predicate Serves(b: Block, ptr: nat, request: nat, align: bool) {
    && !b.hole && b.footed && b.Pointer() == ptr && b.size >= request + TAGS
    && (align ==> ptr % PAGE_SIZE == 0)
  }

  /** Exactly one block becomes live; every other live block stays as it was. */
  lemma AllocServes(l: Layout, request: nat, align: bool) returns (b: Block)
    requires WellFormed(l) && Alloc(l, request, align).Done?
    ensures var r := Alloc(l, request, align).value;
      Serves(b, r.ptr, request, align) && LiveAdds(l.blocks, r.layout.blocks, b)
  {
    hide Alloc, CarveAt, Locate, WellFormed, LiveAdds, AlignOffset, Grow;
    AllocLocates(l, request, align);
    var l1, i, offset, size := AllocIsCarveAt(l, request, align);
    CarvedLive(l, request + TAGS, l1, i, offset, size);
    b := Block(Chosen(l1, i).addr + offset, size, false, true);
  }

  lemma CarvedLive(l: Layout, need: nat, l1: Layout, i: nat, offset: nat, size: nat)
    requires WellFormed(l) && CarvedFrom(l, need, l1, i) && offset + size <= Chosen(l1, i).size
    requires CarveAt(l1, i, offset, size).Done?
    ensures var r := CarveAt(l1, i, offset, size).value;
      var b := Block(Chosen(l1, i).addr + offset, size, false, true);
      LiveAdds(l.blocks, r.layout.blocks, b) && r.ptr == b.Pointer()
  {
    CarveAtLive(l1, i, offset, size);
    GrowthKeepsLive(l, l1, need);
  }

  lemma GrowthKeepsLive(l: Layout, l1: Layout, need: nat)
    requires l.start <= l.end && (l1 == l || Grow(l, need) == Done(l1))
    ensures forall c :: Live(l1.blocks, c) == Live(l.blocks, c)
  {
    if l1 != l {
      forall c ensures Live(l1.blocks, c) == Live(l.blocks, c) {
        AppendHoleLive(l.blocks, l1.blocks[|l.blocks|], c);
      }
    }
  }

  // ----- the two phases of an allocation -----

  lemma AllocStops(l: Layout, request: nat, align: bool)
    requires WellFormed(l)
    ensures Locate(l, request + TAGS, align).Panic? ==>
      Alloc(l, request, align) == Panic(Locate(l, request + TAGS, align).fault)
  {
  }

  lemma AllocCarves(l: Layout, request: nat, align: bool, offset: nat, size: nat)
    requires WellFormed(l) && Locate(l, request + TAGS, align).Done?
    requires var h := Target(l, request + TAGS, align);
      offset == CarveOffset(h, align) && size == BlockSize(h, request + TAGS) && offset + size <= h.size
    ensures var l1 := Locate(l, request + TAGS, align).value;
      var i := FirstFit(l1.blocks, l1.index, request + TAGS, align);
      && i < |l1.index| && Find(l1.blocks, l1.index[i]) < |l1.blocks|
      && Chosen(l1, i) == Target(l, request + TAGS, align)
      && Alloc(l, request, align) == CarveAt(l1, i, offset, size)
  {
    hide CarveAt, AlignOffset;
    TargetExists(l, request + TAGS, align);
  }
}
