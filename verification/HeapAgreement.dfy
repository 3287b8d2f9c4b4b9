/** On well-formed heaps the code as written, on tags, does what the layout functions say. */
module HeapAgreement {
  import opened Machine
  import opened OrderedArrays
  import opened HeapLayout
  import opened HeapAlloc
  import opened HeapFree
  import opened HeapLaws
  import opened HeapOrder
  import W = HeapAsWritten

  // ----- tags that show a layout -----

  /** The tags of a block are in memory; an unwritten footer is not. */
  ghost predicate Shown(t: W.Tags, b: Block) {
    && W.HeadAt(t, b.addr) == Some(W.Head(b.size, b.hole))
    && W.FootAt(t, b.End()) == if b.footed then Some(b.addr) else None
  }

  ghost predicate AllShown(t: W.Tags, bs: seq<Block>) {
    forall i :: 0 <= i < |bs| ==> Shown(t, bs[i])
  }

  ghost predicate Shows(t: W.Tags, l: Layout) {
    && t.start == l.start && t.end == l.end && t.limit == l.limit && t.index == l.index
    && AllShown(t, l.blocks)
  }

  /** Tags that lie outside `[lo, hi)` are the same. */
  ghost predicate SameBeyond(t: W.Tags, t': W.Tags, lo: nat, hi: nat) {
    && (forall x: nat :: x + HEADER_SIZE <= lo || hi <= x ==> W.HeadAt(t', x) == W.HeadAt(t, x))
    && (forall e: nat :: e <= lo || hi <= e - FOOTER_SIZE ==> W.FootAt(t', e) == W.FootAt(t, e))
    && t'.start == t.start && t'.limit == t.limit
  }

  lemma HeadBeyond(t: W.Tags, a: nat, size: nat, hole: bool, lo: nat, hi: nat)
    requires lo <= a && a + HEADER_SIZE <= hi
    ensures SameBeyond(t, W.PutHead(t, a, size, hole), lo, hi)
  {
    hide W.PutHead, W.HeadAt, W.FootAt;
    var t' := W.PutHead(t, a, size, hole);
    forall x: nat ensures x + HEADER_SIZE <= lo || hi <= x ==> W.HeadAt(t', x) == W.HeadAt(t, x) {
      W.AfterHead(t, a, size, hole, x);
    }
    forall e: nat ensures e <= lo || hi <= e - FOOTER_SIZE ==> W.FootAt(t', e) == W.FootAt(t, e) {
      W.AfterHead(t, a, size, hole, e);
    }
    W.AfterHead(t, a, size, hole, 0);
  }

  lemma FootBeyond(t: W.Tags, end: nat, header: nat, lo: nat, hi: nat)
    requires lo + FOOTER_SIZE <= end <= hi
    ensures SameBeyond(t, W.PutFoot(t, end, header), lo, hi)
  {
    hide W.PutFoot, W.HeadAt, W.FootAt;
    var t' := W.PutFoot(t, end, header);
    forall x: nat ensures x + HEADER_SIZE <= lo || hi <= x ==> W.HeadAt(t', x) == W.HeadAt(t, x) {
      W.AfterFoot(t, end, header, x);
    }
    forall e: nat ensures e <= lo || hi <= e - FOOTER_SIZE ==> W.FootAt(t', e) == W.FootAt(t, e) {
      W.AfterFoot(t, end, header, e);
    }
    W.AfterFoot(t, end, header, 0);
  }

  lemma BeyondJoins(t: W.Tags, t1: W.Tags, t2: W.Tags, lo: nat, hi: nat)
    requires SameBeyond(t, t1, lo, hi) && SameBeyond(t1, t2, lo, hi)
    ensures SameBeyond(t, t2, lo, hi)
  {
    hide W.HeadAt, W.FootAt;
  }

  /** Writes under a run of blocks that show its replacement show the whole. */
  lemma SpliceShown(t: W.Tags, t': W.Tags, bs: seq<Block>, start: nat, end: nat, i: nat, j: nat, ps: seq<Block>)
    requires Tiles(bs, start, end) && i < j <= |bs| && AllShown(t, bs)
    requires SameBeyond(t, t', bs[i].addr, Bound(bs, j, end)) && AllShown(t', ps)
    ensures AllShown(t', Splice(bs, i, j, ps))
  {
    hide W.HeadAt, W.FootAt;
    var r := Splice(bs, i, j, ps);
    forall x | 0 <= x < |r| ensures Shown(t', r[x]) {
      if x < i {
        assert r[x] == bs[x];
        TilesOrdered(bs, start, end, x, i);
        TilesAt(bs, start, end, x);
      } else if x < i + |ps| {
        assert r[x] == ps[x - i];
      } else {
        var y := x - i - |ps| + j;
        assert r[x] == bs[y];
        TilesAt(bs, start, end, y);
        if y > j { TilesOrdered(bs, start, end, j, y); }
      }
    }
  }

  /** With the tags in place the comparator sees the sizes of the layout. */
  lemma ShownKeys(t: W.Tags, bs: seq<Block>, start: nat, end: nat, s: seq<nat>)
    requires Tiles(bs, start, end) && AllShown(t, bs) && forall a :: a in s ==> Holes(bs, a) > 0
    ensures forall a :: a in s ==> W.SizeOf(t, a) == SizeAt(bs, a)
    ensures Pass(s, W.TagKey(t)) == Pass(s, SizeKey(bs))
  {
    forall a | a in s ensures W.SizeOf(t, a) == SizeAt(bs, a) {
      HolesMember(bs, a);
      var k :| 0 <= k < |bs| && bs[k].hole && bs[k].addr == a;
      FindUnique(bs, start, end, k);
      assert Shown(t, bs[k]);
    }
    PassDependsOnKeys(s, W.TagKey(t), SizeKey(bs));
  }

  lemma IndexHoles(l: Layout)
    requires WellFormed(l)
    ensures forall a :: a in l.index ==> Holes(l.blocks, a) > 0
  {
    forall a | a in l.index ensures Holes(l.blocks, a) > 0 {
      OccursIn(l.index, a);
      assert Occurs(l.index, a) == Holes(l.blocks, a);
    }
  }

  // ----- searching and growing -----

  lemma {:induction false} SearchAgrees(t: W.Tags, bs: seq<Block>, need: nat, align: bool, i: nat)
    requires i <= |t.index| && forall a :: a in t.index ==> W.SizeOf(t, a) == SizeAt(bs, a)
    ensures W.FirstHolding(t, need, align, i) == i + FirstFit(bs, t.index[i..], need, align)
    decreases |t.index| - i
  {
    hide W.SizeOf, SizeAt, AlignOffset;
    if i < |t.index| && !W.Holds(t, t.index[i], need, align) {
      SearchAgrees(t, bs, need, align, i + 1);
      assert t.index[i..][1..] == t.index[i + 1..];
    }
  }

  lemma FindAgrees(t: W.Tags, l: Layout, need: nat, align: bool)
    requires WellFormed(l) && Shows(t, l)
    ensures W.FirstHolding(t, need, align, 0) == FirstFit(l.blocks, l.index, need, align)
    ensures forall a :: a in l.index ==> W.SizeOf(t, a) == SizeAt(l.blocks, a)
  {
    hide W.SizeOf, SizeAt, WellFormed, W.FirstHolding, FirstFit;
    IndexHoles(l);
    WellFormedParts(l);
    ShownKeys(t, l.blocks, l.start, l.end, l.index);
    SearchAgrees(t, l.blocks, need, align, 0);
    assert t.index[0..] == t.index;
  }

  /** Both tags of one block. */
  function Tagged(t: W.Tags, a: nat, size: nat, hole: bool): W.Tags {
    W.PutFoot(W.PutHead(t, a, size, hole), a + size, a)
  }

  lemma TaggedShows(t: W.Tags, a: nat, size: nat, hole: bool)
    requires size >= TAGS
    ensures Shown(Tagged(t, a, size, hole), Block(a, size, hole, true))
    ensures SameBeyond(t, Tagged(t, a, size, hole), a, a + size)
    ensures Tagged(t, a, size, hole).index == t.index && Tagged(t, a, size, hole).end == t.end
  {
    hide W.PutHead, W.PutFoot, SameBeyond;
    var t1 := W.PutHead(t, a, size, hole);
    HeadBeyond(t, a, size, hole, a, a + size);
    FootBeyond(t1, a + size, a, a, a + size);
    BeyondJoins(t, t1, Tagged(t, a, size, hole), a, a + size);
    W.AfterHead(t, a, size, hole, a);
    W.AfterFoot(t1, a + size, a, a);
    W.AfterFoot(t1, a + size, a, a + size);
  }

  lemma ShownStays(t: W.Tags, t': W.Tags, b: Block, lo: nat, hi: nat)
    requires Shown(t, b) && SameBeyond(t, t', lo, hi) && b.size >= TAGS && (b.End() <= lo || hi <= b.addr)
    ensures Shown(t', b)
  {
    hide W.HeadAt, W.FootAt;
  }

  /** Entering a hole in the index. */
  lemma EnterAgrees(t: W.Tags, l: Layout, a: nat)
    requires Shaped(l) && Shows(t, l) && Holes(l.blocks, a) > 0 && forall x :: x in l.index ==> Holes(l.blocks, x) > 0
    ensures match Enlist(l, a)
      case Panic(f) => W.Enter(t, a) == Panic(f)
      case Done(l') => W.Enter(t, a).Done? && Shows(W.Enter(t, a).value, l')
  {
    hide Pass, SizeKey, W.TagKey;
    ShownKeys(t, l.blocks, l.start, l.end, l.index + [a]);
  }

  /** The new pages as one tagged hole, not yet in the index. */
  lemma GrownShown(t: W.Tags, l: Layout, end: nat)
    requires WellFormed(l) && Shows(t, l) && l.end + TAGS <= end
    ensures var b := Block(l.end, end - l.end, true, true);
      Shows(Tagged(t.(end := end), l.end, end - l.end, true), l.(end := end, blocks := l.blocks + [b]))
  {
    hide WellFormed, Tagged, SameBeyond, Shown;
    WellFormedParts(l);
    var b := Block(l.end, end - l.end, true, true);
    var t0 := t.(end := end);
    var t2 := Tagged(t0, l.end, end - l.end, true);
    EndMoved(t, l.blocks, end);
    TaggedShows(t0, l.end, end - l.end, true);
    AppendedShown(t0, t2, l, b);
    SameBeyondFrame(t0, t2, l.end, end);
  }

  lemma EndMoved(t: W.Tags, bs: seq<Block>, end: nat)
    requires AllShown(t, bs)
    ensures AllShown(t.(end := end), bs)
  {
  }

  lemma GrowAgrees(t: W.Tags, l: Layout, need: nat, align: bool)
    requires WellFormed(l) && Shows(t, l) && FirstFit(l.blocks, l.index, need, align) == |l.index|
    ensures match Grow(l, need)
      case Panic(f) => W.Located(t, need, align) == Panic(f)
      case Done(l') => W.Located(t, need, align).Done? && Shows(W.Located(t, need, align).value, l')
  {
    hide W.PutHead, W.PutFoot, FirstFit, W.FirstHolding, W.Enter, WellFormed, Pass, AllShown, PageCeil, Holes;
    FindAgrees(t, l, need, align);
    WellFormedParts(l);
    var end := l.start + GrownLength(l, need);
    if end <= l.limit {
      GrownLengthAligned(l, need);
      var b := Block(l.end, end - l.end, true, true);
      var t2 := Tagged(t.(end := end), l.end, end - l.end, true);
      var l0 := l.(end := end, blocks := l.blocks + [b]);
      GrownShown(t, l, end);
      AppendShaped(l, b);
      GrownHoles(l, b);
      EnterAgrees(t2, l0, l.end);
      if Grow(l, need).Done? {
        GrowWellFormed(l, need);
        GrowthFits(l, need, align);
        FindAgrees(W.Enter(t2, l.end).value, Grow(l, need).value, need, align);
      }
    }
  }

  lemma SameBeyondFrame(t: W.Tags, t': W.Tags, lo: nat, hi: nat)
    requires SameBeyond(t, t', lo, hi)
    ensures t'.start == t.start && t'.limit == t.limit
  {
  }

  lemma AppendedShown(t: W.Tags, t': W.Tags, l: Layout, b: Block)
    requires Shaped(l) && AllShown(t, l.blocks) && Shown(t', b) && SameBeyond(t, t', l.end, b.End())
    ensures AllShown(t', l.blocks + [b])
  {
    hide SameBeyond, Shown;
    forall i | 0 <= i < |l.blocks| ensures Shown(t', l.blocks[i]) {
      TilesAt(l.blocks, l.start, l.end, i);
      ShownStays(t, t', l.blocks[i], l.end, b.End());
    }
  }

  lemma GrownHoles(l: Layout, b: Block)
    requires WellFormed(l) && b.hole
    ensures Holes(l.blocks + [b], b.addr) > 0 && forall x :: x in l.index ==> Holes(l.blocks + [b], x) > 0
  {
    IndexHoles(l);
    forall x: nat ensures Holes(l.blocks + [b], x) == Holes(l.blocks, x) + Holes([b], x) {
      HolesConcat(l.blocks, [b], x);
    }
    CountsSingle(b, b.addr, b);
  }

  // ----- heap_alloc -----

  lemma Reindexed(t: W.Tags, bs: seq<Block>, index: seq<nat>)
    requires AllShown(t, bs)
    ensures AllShown(t.(index := index), bs)
  {
  }

  /** The tags of the pieces of a hole that is split in front. */
  function PieceTags(t: W.Tags, a: nat, size: nat, total: nat): W.Tags
    requires size <= total
  {
    if size == total then Tagged(t, a, size, false)
    else Tagged(Tagged(t, a, size, false), a + size, total - size, true)
  }

  lemma PiecesShown(t: W.Tags, h: Block, size: nat)
    requires TAGS <= size <= h.size && (size == h.size || size + TAGS <= h.size)
    ensures var t' := PieceTags(t, h.addr, size, h.size);
      && AllShown(t', Pieces(h, 0, size)) && SameBeyond(t, t', h.addr, h.End())
      && t'.index == t.index && t'.end == t.end
  {
    hide SameBeyond, Shown, Tagged;
    var a := h.addr;
    var t1 := Tagged(t, a, size, false);
    TaggedShows(t, a, size, false);
    FrontlessPieces(h, size);
    if size < h.size {
      var t2 := Tagged(t1, a + size, h.size - size, true);
      TaggedShows(t1, a + size, h.size - size, true);
      ShownStays(t1, t2, Block(a, size, false, true), a + size, h.End());
      Widened(t, t1, a, a + size, a, h.End());
      Widened(t1, t2, a + size, h.End(), a, h.End());
      BeyondJoins(t, t1, t2, a, h.End());
    }
  }

  lemma Widened(t: W.Tags, t': W.Tags, lo: nat, hi: nat, lo': nat, hi': nat)
    requires SameBeyond(t, t', lo, hi) && lo' <= lo && hi <= hi'
    ensures SameBeyond(t, t', lo', hi')
  {
    hide W.HeadAt, W.FootAt;
  }

  lemma CarveAgrees(t: W.Tags, l: Layout, i: nat, size: nat)
    requires WellFormed(l) && Shows(t, l) && i < |l.index| && Find(l.blocks, l.index[i]) < |l.blocks|
    requires TAGS <= size <= Chosen(l, i).size && Chosen(l, i).hole
    ensures W.Front(t, i, 0).Done?
    ensures var b := W.Block(W.Front(t, i, 0).value, l.index[i], Chosen(l, i).size, size);
      match CarveAt(l, i, 0, size)
      case Panic(f) => b == Panic(f)
      case Done(p) => b.Done? && Shows(b.value, p.layout) && p.ptr == l.index[i] + HEADER_SIZE
  {
    hide WellFormed, SameBeyond, Shown, W.PutHead, W.PutFoot, Pieces, Splice, W.Enter, Enlist, RemoveAt;
    WellFormedParts(l);
    var h, k := Chosen(l, i), Find(l.blocks, l.index[i]);
    TilesAt(l.blocks, l.start, l.end, k);
    var t1 := t.(index := RemoveAt(t.index, i));
    if size == h.size || size + TAGS < h.size {
      var t2 := PieceTags(t1, h.addr, size, h.size);
      Reindexed(t, l.blocks, RemoveAt(t.index, i));
      PiecesShown(t1, h, size);
      SpliceShown(t1, t2, l.blocks, l.start, l.end, k, k + 1, Pieces(h, 0, size));
      SameBeyondFrame(t1, t2, h.addr, h.End());
      var l1 := CarveFront(l, i, 0, size);
      assert Shows(t2, l1);
      if size < h.size {
        CarveFrontShaped(l, i, 0, size);
        CarvedHoles(l, i, size);
        EnterAgrees(t2, l1, h.addr + size);
      }
    }
  }

  lemma CarvedHoles(l: Layout, i: nat, size: nat)
    requires WellFormed(l) && i < |l.index| && Find(l.blocks, l.index[i]) < |l.blocks| && size < Chosen(l, i).size
    ensures var l1 := CarveFront(l, i, 0, size);
      && Holes(l1.blocks, Chosen(l, i).addr + size) > 0 && forall x :: x in l1.index ==> Holes(l1.blocks, x) > 0
  {
    hide CarveFront, WellFormed;
    var l1 := CarveFront(l, i, 0, size);
    CarveFrontIndexed(l, i, 0, size, Chosen(l, i).addr + size);
    forall x | x in l1.index ensures Holes(l1.blocks, x) > 0 {
      CarveFrontIndexed(l, i, 0, size, x);
      OccursIn(l1.index, x);
    }
  }

  /** Unaligned requests: same outcome, same pointer, and tags that show the new layout. */
  lemma AllocAgrees(t: W.Tags, l: Layout, request: nat)
    requires WellFormed(l) && Shows(t, l)
    ensures match Alloc(l, request, false)
      case Panic(f) => W.AllocAsWritten(t, request, false) == Panic(f)
      case Done(p) =>
        && W.AllocAsWritten(t, request, false).Done? && W.AllocAsWritten(t, request, false).value.ptr == p.ptr
        && Shows(W.AllocAsWritten(t, request, false).value.tags, p.layout)
  {
    hide Alloc, WellFormed, Shows, W.Located, Locate, CarveAt, W.Block, W.Front, FirstFit, W.FirstHolding;
    hide SizeAt, W.SizeOf;
    var need := request + TAGS;
    WellFormedParts(l);
    LocateAgrees(t, l, need);
    AllocStops(l, request, false);
    if Locate(l, need, false).Done? {
      var l1, t1 := Locate(l, need, false).value, W.Located(t, need, false).value;
      TargetExists(l, need, false);
      var i := FirstFit(l1.blocks, l1.index, need, false);
      var h := Chosen(l1, i);
      FindAgrees(t1, l1, need, false);
      ShowsIndex(t1, l1);
      ChosenSize(l1, i);
      AllocCarves(l, request, false, 0, BlockSize(h, need));
      CarveAgrees(t1, l1, i, BlockSize(h, need));
    }
  }

  lemma ShowsIndex(t: W.Tags, l: Layout)
    requires Shows(t, l)
    ensures t.index == l.index
  {
  }

  lemma ChosenSize(l: Layout, i: nat)
    requires i < |l.index| && Find(l.blocks, l.index[i]) < |l.blocks|
    ensures SizeAt(l.blocks, l.index[i]) == Chosen(l, i).size && Chosen(l, i).addr == l.index[i]
  {
  }

  lemma LocateAgrees(t: W.Tags, l: Layout, need: nat)
    requires WellFormed(l) && Shows(t, l)
    ensures match Locate(l, need, false)
      case Panic(f) => W.Located(t, need, false) == Panic(f)
      case Done(l') => W.Located(t, need, false).Done? && Shows(W.Located(t, need, false).value, l')
  {
    hide WellFormed, Grow, W.Enter, W.PutHead, W.PutFoot, FirstFit, W.FirstHolding;
    FindAgrees(t, l, need, false);
    if FirstFit(l.blocks, l.index, need, false) == |l.index| { GrowAgrees(t, l, need, false); }
  }

  // ----- heap_free -----

  lemma HeadShown(t: W.Tags, bs: seq<Block>, k: nat)
    requires AllShown(t, bs) && k < |bs|
    ensures W.HeadAt(t, bs[k].addr) == Some(W.Head(bs[k].size, bs[k].hole))
    ensures W.FootAt(t, bs[k].End()) == if bs[k].footed then Some(bs[k].addr) else None
  {
    assert Shown(t, bs[k]);
  }

  /** A block becomes a hole. */
  lemma MarkShown(t: W.Tags, l: Layout, k: nat)
    requires Shaped(l) && AllShown(t, l.blocks) && k < |l.blocks| && !l.blocks[k].hole
    ensures var b := l.blocks[k];
      var t' := W.PutHead(t, b.addr, b.size, true);
      && AllShown(t', l.blocks[k := b.(hole := true)]) && t'.index == t.index && t'.end == t.end
      && t'.start == t.start && t'.limit == t.limit
  {
    hide W.PutHead, SameBeyond, Shaped, Tiles, Footed;
    var b := l.blocks[k];
    var t' := W.PutHead(t, b.addr, b.size, true);
    ShapedParts(l);
    TilesAt(l.blocks, l.start, l.end, k);
    HeadBeyond(t, b.addr, b.size, true, b.addr, b.End());
    HeadShown(t, l.blocks, k);
    W.AfterHead(t, b.addr, b.size, true, b.addr);
    W.AfterHead(t, b.addr, b.size, true, b.End());
    SpliceShown(t, t', l.blocks, l.start, l.end, k, k + 1, [b.(hole := true)]);
    UpdateIsSplice(l.blocks, k, b.(hole := true));
  }

  lemma ShapedParts(l: Layout)
    requires Shaped(l)
    ensures Tiles(l.blocks, l.start, l.end) && Footed(l.blocks)
  {
  }

  /** Two neighbours become one hole: a header in front, and a footer behind that names it. */
  lemma FusedShown(t: W.Tags, t': W.Tags, l: Layout, k: nat)
    requires Shaped(l) && AllShown(t, l.blocks) && k + 1 < |l.blocks|
    requires SameBeyond(t, t', l.blocks[k].addr, l.blocks[k + 1].End())
    requires var size := l.blocks[k].size + l.blocks[k + 1].size;
      && W.HeadAt(t', l.blocks[k].addr) == Some(W.Head(size, true))
      && W.FootAt(t', l.blocks[k].addr + size) == Some(l.blocks[k].addr)
    ensures var fused := Block(l.blocks[k].addr, l.blocks[k].size + l.blocks[k + 1].size, true, true);
      AllShown(t', Splice(l.blocks, k, k + 2, [fused]))
  {
    hide SameBeyond, Shaped, Tiles, W.HeadAt, W.FootAt;
    ShapedParts(l);
    TilesAt(l.blocks, l.start, l.end, k);
    TilesAt(l.blocks, l.start, l.end, k + 1);
    var fused := Block(l.blocks[k].addr, l.blocks[k].size + l.blocks[k + 1].size, true, true);
    assert Shown(t', fused);
    SpliceShown(t, t', l.blocks, l.start, l.end, k, k + 2, [fused]);
  }

  /** src/kheap.c:298-308 and the same two writes in the other order, at :315-321. */
  lemma JoinWrites(t: W.Tags, a: nat, size: nat, end: nat)
    requires a + size == end && size >= TAGS
    ensures var t' := W.PutHead(W.PutFoot(t, end, a), a, size, true);
      && SameBeyond(t, t', a, end) && W.HeadAt(t', a) == Some(W.Head(size, true)) && W.FootAt(t', end) == Some(a)
      && t'.index == t.index && t'.end == t.end
    ensures var t' := Tagged(t, a, size, true);
      && SameBeyond(t, t', a, end) && W.HeadAt(t', a) == Some(W.Head(size, true)) && W.FootAt(t', end) == Some(a)
      && t'.index == t.index && t'.end == t.end
  {
    hide W.PutHead, W.PutFoot, SameBeyond, W.HeadAt, W.FootAt;
    var t1 := W.PutFoot(t, end, a);
    FootBeyond(t, end, a, a, end);
    HeadBeyond(t1, a, size, true, a, end);
    BeyondJoins(t, t1, W.PutHead(t1, a, size, true), a, end);
    W.AfterFoot(t, end, a, end);
    W.AfterHead(t1, a, size, true, end);
    W.AfterHead(t1, a, size, true, a);
    TaggedShows(t, a, size, true);
  }

  /** The two writes of a merge with the hole on the left. */
  lemma MergedShown(t0: W.Tags, l: Layout, k: nat)
    requires WellFormed(l) && 0 < k < |l.blocks| && !l.blocks[k].hole && MergesLeft(l.blocks, k)
    requires AllShown(t0, l.blocks[k := l.blocks[k].(hole := true)])
    ensures var b, left := l.blocks[k], l.blocks[k - 1];
      var t1 := W.PutHead(W.PutFoot(t0, b.End(), left.addr), left.addr, left.size + b.size, true);
      && AllShown(t1, FreeLeft(l, k).blocks) && t1.index == t0.index && t1.end == t0.end
      && t1.start == t0.start && t1.limit == t0.limit
  {
    hide W.PutHead, W.PutFoot, SameBeyond, WellFormed, Tiles, Indexed, Splice, Pass, Shown, Shaped;
    WellFormedParts(l);
    var b, left := l.blocks[k], l.blocks[k - 1];
    LayoutTiles(l);
    TilesAt(l.blocks, l.start, l.end, k);
    TilesAt(l.blocks, l.start, l.end, k - 1);
    var t1 := W.PutHead(W.PutFoot(t0, b.End(), left.addr), left.addr, left.size + b.size, true);
    JoinWrites(t0, left.addr, left.size + b.size, b.End());
    var marked := l.(blocks := l.blocks[k := b.(hole := true)]);
    MarkedShaped(l, k);
    FusedShown(t0, t1, marked, k - 1);
    MarkedFused(l.blocks, k);
    SameBeyondFrame(t0, t1, left.addr, b.End());
  }

  lemma LeftAgrees(t: W.Tags, l: Layout, k: nat) returns (t': W.Tags)
    requires WellFormed(l) && Shows(t, l) && k < |l.blocks| && !l.blocks[k].hole
    ensures var b := l.blocks[k];
      W.Leftwards(W.PutHead(t, b.addr, b.size, true), b.addr, b.size)
        == Done(W.Joined(t', l.blocks[LeftOf(l.blocks, k)].addr, MergesLeft(l.blocks, k)))
    ensures Shows(t', FreeLeft(l, k))
  {
    hide W.PutHead, W.PutFoot, WellFormed, Tiles, Indexed, Splice, Pass, W.HeadAt, W.FootAt, Shaped, Shown;
    WellFormedParts(l);
    var b := l.blocks[k];
    var t0 := W.PutHead(t, b.addr, b.size, true);
    MarkShown(t, l, k);
    LeftGuard(t0, l, k);
    if MergesLeft(l.blocks, k) {
      var left := l.blocks[k - 1];
      W.LeftJoins(t0, b.addr, b.size, left.addr, left.size);
      var t1 := W.PutHead(W.PutFoot(t0, b.End(), left.addr), left.addr, left.size + b.size, true);
      MergedShown(t0, l, k);
      FreeLeftHoles(l, k);
      FreeLeftBlocks(l, k);
      var blocks := FreeLeft(l, k).blocks;
      LayoutTiles(FreeLeft(l, k));
      ShownKeys(t1, blocks, l.start, l.end, l.index);
      t' := t1.(index := Pass(t1.index, W.TagKey(t1)));
      Reindexed(t1, blocks, t'.index);
    } else {
      t' := t0;
    }
  }

  lemma LayoutTiles(l: Layout)
    requires Shaped(l)
    ensures Tiles(l.blocks, l.start, l.end)
  {
  }

  lemma MarkedShaped(l: Layout, k: nat)
    requires Shaped(l) && k < |l.blocks| && !l.blocks[k].hole
    ensures Shaped(l.(blocks := l.blocks[k := l.blocks[k].(hole := true)]))
  {
    hide Shaped;
    FuseShaped(l, k, k + 1);
    LiveIsFooted(l, k);
    FuseAt(l, k, k + 1);
    UpdateIsSplice(l.blocks, k, l.blocks[k].(hole := true));
  }

  lemma MarkedFused(bs: seq<Block>, k: nat)
    requires 0 < k < |bs|
    ensures var fused := Block(bs[k - 1].addr, bs[k - 1].size + bs[k].size, true, true);
      Splice(bs[k := bs[k].(hole := true)], k - 1, k + 1, [fused]) == Splice(bs, k - 1, k + 1, [fused])
  {
  }

  lemma FreeLeftHoles(l: Layout, k: nat)
    requires WellFormed(l) && k < |l.blocks| && !l.blocks[k].hole && MergesLeft(l.blocks, k)
    ensures forall x :: x in l.index ==> Holes(FreeLeft(l, k).blocks, x) > 0
  {
    hide Pass;
    IndexHoles(l);
    forall x | x in l.index ensures Holes(FreeLeft(l, k).blocks, x) > 0 {
      FreeLeftCounts(l, k, x, l.blocks[k]);
    }
  }

  /** What the test at src/kheap.c:293 sees. */
  lemma LeftGuard(t0: W.Tags, l: Layout, k: nat)
    requires Shaped(l) && t0.start == l.start && k < |l.blocks| && !l.blocks[k].hole
    requires AllShown(t0, l.blocks[k := l.blocks[k].(hole := true)])
    ensures MergesLeft(l.blocks, k) ==>
      && l.blocks[k].addr > t0.start + FOOTER_SIZE && W.FootAt(t0, l.blocks[k].addr) == Some(l.blocks[k - 1].addr)
      && W.HeadAt(t0, l.blocks[k - 1].addr) == Some(W.Head(l.blocks[k - 1].size, true))
    ensures !MergesLeft(l.blocks, k) ==>
      W.Leftwards(t0, l.blocks[k].addr, l.blocks[k].size) == Done(W.Joined(t0, l.blocks[k].addr, false))
  {
    hide W.PutHead, W.PutFoot, Pass;
    TilesAt(l.blocks, l.start, l.end, k);
    if k > 0 {
      var bs := l.blocks[k := l.blocks[k].(hole := true)];
      TilesAt(l.blocks, l.start, l.end, k - 1);
      HeadShown(t0, bs, k - 1);
    }
  }

  lemma RightAgrees(t: W.Tags, l: Layout, k: nat)
    requires Shaped(l) && Shows(t, l) && k < |l.blocks| && l.blocks[k].hole
    ensures l.blocks[k].addr in t.heads
    ensures match FreeRight(l, k)
      case Panic(f) => W.Rightwards(t, l.blocks[k].addr) == Panic(f)
      case Done(l') => W.Rightwards(t, l.blocks[k].addr).Done? && Shows(W.Rightwards(t, l.blocks[k].addr).value, l')
  {
    hide W.PutHead, W.PutFoot, SameBeyond, Tiles, Splice;
    var b := l.blocks[k];
    TilesAt(l.blocks, l.start, l.end, k);
    HeadShown(t, l.blocks, k);
    if k + 1 < |l.blocks| {
      var right := l.blocks[k + 1];
      TilesAt(l.blocks, l.start, l.end, k + 1);
      HeadShown(t, l.blocks, k + 1);
      if right.hole {
        var t1 := Tagged(t, b.addr, b.size + right.size, true);
        JoinWrites(t, b.addr, b.size + right.size, right.End());
        FusedShown(t, t1, l, k);
        SameBeyondFrame(t, t1, b.addr, right.End());
        var fused := Block(b.addr, b.size + right.size, true, true);
        if right.addr in l.index {
          Reindexed(t1, Splice(l.blocks, k, k + 2, [fused]), RemoveAt(l.index, IndexOf(l.index, right.addr)));
        }
      }
    }
  }

  /** Releases of live pointers: same outcome, and tags that show the new layout. */
  lemma FreeAgrees(t: W.Tags, l: Layout, ptr: nat)
    requires WellFormed(l) && Shows(t, l) && IsLive(l, ptr)
    ensures match Free(l, ptr)
      case Panic(f) => W.FreeAsWritten(t, ptr) == Panic(f)
      case Done(l') => W.FreeAsWritten(t, ptr).Done? && Shows(W.FreeAsWritten(t, ptr).value, l')
  {
    hide WellFormed, Shaped, Shows, W.PutHead, W.PutFoot, W.Leftwards, W.Rightwards, W.Enter;
    hide FreeLeft, FreeRight, Enlist;
    WellFormedParts(l);
    var k := At(l, ptr);
    var lo := LeftOf(l.blocks, k);
    ShowsBlock(t, l, k);
    LiveIsFooted(l, k);
    var t1 := LeftAgrees(t, l, k);
    var l1 := FreeLeft(l, k);
    FreeLeftBlocks(l, k);
    FreeLeftNext(l, k);
    FuseIsHole(l.blocks, lo, k + 1);
    FuseKeepsAddress(l.blocks, lo, k + 1);
    RightAgrees(t1, l1, lo);
    var l2 := FreeHalves(l, k);
    if !MergesLeft(l.blocks, k) {
      MissingIsHole(l2, l.blocks[k].addr);
      EnterAgrees(W.Rightwards(t1, l.blocks[k].addr).value, l2, l.blocks[k].addr);
    }
  }

  lemma FuseKeepsAddress(bs: seq<Block>, i: nat, j: nat)
    requires i < j <= |bs| && bs[i].addr <= bs[j - 1].End()
    ensures Fuse(bs, i, j).addr == bs[i].addr
  {
  }

  lemma MissingIsHole(l: Layout, a: nat)
    requires IndexedBut(l, true, a)
    ensures Holes(l.blocks, a) > 0 && forall x :: x in l.index ==> Holes(l.blocks, x) > 0
  {
    forall x | x in l.index ensures Holes(l.blocks, x) > 0 { OccursIn(l.index, x); }
  }

  lemma ShowsBlock(t: W.Tags, l: Layout, k: nat)
    requires Shows(t, l) && k < |l.blocks|
    ensures l.blocks[k].addr in t.heads && t.heads[l.blocks[k].addr] == W.Head(l.blocks[k].size, l.blocks[k].hole)
    ensures l.blocks[k].footed ==> l.blocks[k].End() in t.feet
  {
    HeadShown(t, l.blocks, k);
  }
}
