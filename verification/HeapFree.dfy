/** src/kheap.c on values: heap_free as a function of a layout, and what it keeps. */
module HeapFree {
  import opened Machine
  import opened OrderedArrays
  import opened HeapLayout
  import opened HeapAlloc

  // ----- heap_free -----

  /** The first position of `a` in the index. */
  function IndexOf(s: seq<nat>, a: nat): (i: nat)
    ensures i <= |s| && (i < |s| ==> s[i] == a) && (i < |s| <==> a in s)
    ensures forall j :: 0 <= j < i ==> s[j] != a
  {
    if s == [] then 0 else if s[0] == a then 0 else 1 + IndexOf(s[1..], a)
  }

  /** `ptr` was returned by an allocation and not freed since. */
  predicate IsLive(l: Layout, ptr: nat) {
    ptr >= HEADER_SIZE && var k := Find(l.blocks, ptr - HEADER_SIZE); k < |l.blocks| && !l.blocks[k].hole
  }

  /** Position of the block behind a live pointer. */
  function At(l: Layout, ptr: nat): (k: nat)
    requires IsLive(l, ptr)
    ensures k < |l.blocks| && !l.blocks[k].hole && l.blocks[k].Pointer() == ptr
  {
    Find(l.blocks, ptr - HEADER_SIZE)
  }

  /** One hole over blocks `i` to `j - 1`. */
  function Fuse(bs: seq<Block>, i: nat, j: nat): Block
    requires i < j <= |bs| && bs[i].addr <= bs[j - 1].End()
  {
    Block(bs[i].addr, bs[j - 1].End() - bs[i].addr, true, true)
  }

  predicate MergesLeft(bs: seq<Block>, k: nat) {
    0 < k < |bs| && bs[k - 1].hole && bs[k - 1].footed
  }

  predicate MergesRight(bs: seq<Block>, k: nat) {
    k + 1 < |bs| && bs[k + 1].hole
  }

  /** src/kheap.c:285-309: the block becomes a hole, or part of the hole before it, which gets one pass. */
  function FreeLeft(l: Layout, k: nat): Layout
    requires k < |l.blocks|
  {
    if MergesLeft(l.blocks, k) then
      var left, b := l.blocks[k - 1], l.blocks[k];
      var blocks := Splice(l.blocks, k - 1, k + 1, [Block(left.addr, left.size + b.size, true, true)]);
      l.(blocks := blocks, index := Pass(l.index, SizeKey(blocks)))
    else
      l.(blocks := l.blocks[k := l.blocks[k].(hole := true)])
  }

  /** src/kheap.c:311-334: the hole at `k` takes in the hole after it, whose entry goes. */
  function FreeRight(l: Layout, k: nat): Outcome<Layout>
    requires k < |l.blocks|
  {
    if MergesRight(l.blocks, k) then
      var b, right := l.blocks[k], l.blocks[k + 1];
      var i := IndexOf(l.index, right.addr);
      if i == |l.index| then Panic(HoleNotIndexed)
      else Done(l.(blocks := Splice(l.blocks, k, k + 2, [Block(b.addr, b.size + right.size, true, true)]),
                   index := RemoveAt(l.index, i)))
    else Done(l)
  }

  /** Where the hole ends up after the left half. */
  function LeftOf(bs: seq<Block>, k: nat): (lo: nat)
    requires k < |bs|
    ensures lo <= k
  {
    if MergesLeft(bs, k) then k - 1 else k
  }

  /** One past the last block that goes into the hole. */
  function RightOf(bs: seq<Block>, k: nat): (hi: nat)
    requires k < |bs|
    ensures k < hi <= |bs|
  {
    if MergesRight(bs, k) then k + 2 else k + 1
  }

  /** heap_free of a live block */
  function Free(l: Layout, ptr: nat): Outcome<Layout>
    requires IsLive(l, ptr)
  {
    var k := At(l, ptr);
    match FreeRight(FreeLeft(l, k), LeftOf(l.blocks, k))
    case Panic(f) => Panic(f)
    case Done(l2) => if MergesLeft(l.blocks, k) then Done(l2) else Enlist(l2, l.blocks[k].addr)
  }

  // ----- the blocks after a free -----

  /** Splicing over the result of a splice. */
  lemma SpliceTwice(bs: seq<Block>, i: nat, j: nat, m: Block, ps: seq<Block>)
    requires i < j < |bs|
    ensures i + 2 <= |Splice(bs, i, j, [m])|
    ensures Splice(Splice(bs, i, j, [m]), i, i + 2, ps) == Splice(bs, i, j + 1, ps)
  {
  }

  lemma FuseAt(l: Layout, i: nat, j: nat)
    requires Shaped(l) && i < j <= |l.blocks|
    ensures l.blocks[i].addr + TAGS <= l.blocks[j - 1].End() == Bound(l.blocks, j, l.end)
    ensures i + 2 == j ==> Fuse(l.blocks, i, j).size == l.blocks[i].size + l.blocks[i + 1].size
  {
    TilesAt(l.blocks, l.start, l.end, j - 1);
    TilesAt(l.blocks, l.start, l.end, i);
    if i < j - 1 { TilesOrdered(l.blocks, l.start, l.end, i, j - 1); }
  }

  /** Replacing a run of blocks by the hole over it keeps the shape. */
  lemma FuseShaped(l: Layout, i: nat, j: nat)
    requires Shaped(l) && i < j <= |l.blocks|
    ensures l.blocks[i].addr <= l.blocks[j - 1].End()
    ensures Shaped(l.(blocks := Splice(l.blocks, i, j, [Fuse(l.blocks, i, j)])))
  {
    FuseAt(l, i, j);
    var m := Fuse(l.blocks, i, j);
    assert Tiles([m][1..], m.End(), m.End());
    SpliceShaped(l, i, j, [m]);
  }

  lemma LiveIsFooted(l: Layout, k: nat)
    requires Shaped(l) && k < |l.blocks| && !l.blocks[k].hole
    ensures l.blocks[k].footed
  {
  }

  lemma UpdateIsSplice(bs: seq<Block>, k: nat, m: Block)
    requires k < |bs|
    ensures bs[k := m] == Splice(bs, k, k + 1, [m])
  {
  }

  lemma FreeLeftBlocks(l: Layout, k: nat)
    requires Shaped(l) && k < |l.blocks| && !l.blocks[k].hole
    ensures var lo := if MergesLeft(l.blocks, k) then k - 1 else k;
      && l.blocks[lo].addr <= l.blocks[k].End()
      && FreeLeft(l, k).blocks == Splice(l.blocks, lo, k + 1, [Fuse(l.blocks, lo, k + 1)])
      && Shaped(FreeLeft(l, k))
  {
    hide Pass, Shaped;
    var lo := if MergesLeft(l.blocks, k) then k - 1 else k;
    FuseAt(l, lo, k + 1);
    FuseShaped(l, lo, k + 1);
    LiveIsFooted(l, k);
    var m := Fuse(l.blocks, lo, k + 1);
    if lo == k { UpdateIsSplice(l.blocks, k, m); }
    ShapedIgnoresIndex(l.(blocks := Splice(l.blocks, lo, k + 1, [m])), FreeLeft(l, k).index);
  }

  lemma FreeRightBlocks(l: Layout, k: nat)
    requires Shaped(l) && MergesRight(l.blocks, k) && FreeRight(l, k).Done?
    ensures l.blocks[k].addr <= l.blocks[k + 1].End()
    ensures FreeRight(l, k).value.blocks == Splice(l.blocks, k, k + 2, [Fuse(l.blocks, k, k + 2)])
    ensures Shaped(FreeRight(l, k).value)
  {
    FuseAt(l, k, k + 2);
    FuseShaped(l, k, k + 2);
  }

  // ----- the counts after a free -----

  lemma CountsPair(b: Block, c: Block, a: nat, x: Block)
    ensures Holes([b, c], a) == (if b.hole && b.addr == a then 1 else 0) + (if c.hole && c.addr == a then 1 else 0)
    ensures Live([b, c], x) == (if !b.hole && b == x then 1 else 0) + (if !c.hole && c == x then 1 else 0)
  {
    assert [b, c][1..] == [c];
    CountsSingle(c, a, x);
  }

  lemma FreeLeftIndex(l: Layout, k: nat, a: nat)
    requires k < |l.blocks|
    ensures Occurs(FreeLeft(l, k).index, a) == Occurs(l.index, a)
    ensures |FreeLeft(l, k).index| == |l.index|
  {
    OccursPassed(l.index, SizeKey(FreeLeft(l, k).blocks), a);
  }

  lemma FreeLeftCounts(l: Layout, k: nat, a: nat, x: Block)
    requires k < |l.blocks| && !l.blocks[k].hole
    ensures var bs := FreeLeft(l, k).blocks;
      && Holes(bs, a) == Holes(l.blocks, a) + (if !MergesLeft(l.blocks, k) && a == l.blocks[k].addr then 1 else 0)
      && Live(bs, x) == Live(l.blocks, x) - (if x == l.blocks[k] then 1 else 0)
  {
    if MergesLeft(l.blocks, k) {
      PairCounts(l.blocks, k - 1, a, x);
    } else {
      SingleCounts(l.blocks, k, a, x);
      var m := l.blocks[k].(hole := true);
      assert l.blocks[k := m] == Splice(l.blocks, k, k + 1, [m]);
    }
  }

  lemma SingleCounts(bs: seq<Block>, k: nat, a: nat, x: Block)
    requires k < |bs| && !bs[k].hole
    ensures var r := Splice(bs, k, k + 1, [bs[k].(hole := true)]);
      && Holes(r, a) == Holes(bs, a) + (if a == bs[k].addr then 1 else 0)
      && Live(r, x) == Live(bs, x) - (if x == bs[k] then 1 else 0)
  {
    assert bs[k..k + 1] == [bs[k]];
    CountsSingle(bs[k], a, x);
    ReplaceCounts(bs, k, k + 1, bs[k].(hole := true), a, x);
  }

  /** Two neighbours, the first a hole, become one hole at the address of the first. */
  lemma PairCounts(bs: seq<Block>, k: nat, a: nat, x: Block)
    requires k + 1 < |bs| && bs[k].hole
    ensures var r := Splice(bs, k, k + 2, [Block(bs[k].addr, bs[k].size + bs[k + 1].size, true, true)]);
      && Holes(r, a) == Holes(bs, a) - (if bs[k + 1].hole && a == bs[k + 1].addr then 1 else 0)
      && Live(r, x) == Live(bs, x) - (if !bs[k + 1].hole && x == bs[k + 1] then 1 else 0)
  {
    assert bs[k..k + 2] == [bs[k], bs[k + 1]];
    CountsPair(bs[k], bs[k + 1], a, x);
    ReplaceCounts(bs, k, k + 2, Block(bs[k].addr, bs[k].size + bs[k + 1].size, true, true), a, x);
  }

  lemma ReplaceCounts(bs: seq<Block>, i: nat, j: nat, m: Block, a: nat, x: Block)
    requires i <= j <= |bs| && m.hole
    ensures Holes(Splice(bs, i, j, [m]), a) == Holes(bs, a) - Holes(bs[i..j], a) + (if m.addr == a then 1 else 0)
    ensures Live(Splice(bs, i, j, [m]), x) == Live(bs, x) - Live(bs[i..j], x)
  {
    HolesSplice(bs, i, j, [m], a);
    LiveSplice(bs, i, j, [m], x);
    CountsSingle(m, a, x);
  }

  lemma FreeRightCounts(l: Layout, k: nat, a: nat, x: Block)
    requires MergesRight(l.blocks, k) && l.blocks[k].hole && FreeRight(l, k).Done?
    ensures var l1, right := FreeRight(l, k).value, l.blocks[k + 1];
      && Occurs(l1.index, a) == Occurs(l.index, a) - (if a == right.addr then 1 else 0)
      && |l1.index| == |l.index| - 1
      && Holes(l1.blocks, a) == Holes(l.blocks, a) - (if a == right.addr then 1 else 0)
      && Live(l1.blocks, x) == Live(l.blocks, x)
  {
    OccursRemoved(l.index, IndexOf(l.index, l.blocks[k + 1].addr), a);
    PairCounts(l.blocks, k, a, x);
  }

  // ----- what a free keeps -----

  /** Every hole but at most one, `b`, is in the index. */
  ghost predicate IndexedBut(l: Layout, missing: bool, b: nat) {
    forall a :: Occurs(l.index, a) + (if missing && a == b then 1 else 0) == Holes(l.blocks, a)
  }

  /** After the left half, and after the right half when it merges; `k` is where the hole now is. */
  lemma FreeLeftKeeps(l: Layout, k: nat)
    requires WellFormed(l) && k < |l.blocks| && !l.blocks[k].hole
    ensures var l1 := FreeLeft(l, k);
      Shaped(l1) && IndexedBut(l1, !MergesLeft(l.blocks, k), l.blocks[k].addr) && |l1.index| == |l.index|
  {
    FreeLeftBlocks(l, k);
    forall a ensures Occurs(FreeLeft(l, k).index, a) == Occurs(l.index, a) {
      FreeLeftIndex(l, k, a);
    }
    forall a { FreeLeftCounts(l, k, a, l.blocks[k]); }
  }

  lemma FreeRightKeeps(l: Layout, k: nat, missing: bool, b: nat)
    requires Shaped(l) && k < |l.blocks| && l.blocks[k].hole && IndexedBut(l, missing, b)
    requires b <= l.blocks[k].addr
    ensures FreeRight(l, k).Done?
    ensures var l1 := FreeRight(l, k).value;
      && Shaped(l1) && IndexedBut(l1, missing, b)
      && |l1.index| == |l.index| - (if MergesRight(l.blocks, k) then 1 else 0)
  {
    if MergesRight(l.blocks, k) {
      var right := l.blocks[k + 1];
      TilesOrdered(l.blocks, l.start, l.end, k, k + 1);
      HolesMember(l.blocks, right.addr);
      OccursIn(l.index, right.addr);
      FreeRightBlocks(l, k);
      forall a { FreeRightCounts(l, k, a, right); }
    }
  }

  /** After the left half the hole stands before the same right neighbour. */
  lemma FreeLeftNext(l: Layout, k: nat)
    requires Shaped(l) && k < |l.blocks| && !l.blocks[k].hole
    ensures var lo, bs := LeftOf(l.blocks, k), FreeLeft(l, k).blocks;
      && lo < |bs| && l.blocks[lo].addr <= l.blocks[k].End() && bs[lo] == Fuse(l.blocks, lo, k + 1)
      && (lo + 1 < |bs| <==> k + 1 < |l.blocks|)
      && (k + 1 < |l.blocks| ==> bs[lo + 1] == l.blocks[k + 1])
  {
    FreeLeftBlocks(l, k);
  }

  /** The two halves together. */
  lemma FreeHalves(l: Layout, k: nat) returns (l2: Layout)
    requires WellFormed(l) && k < |l.blocks| && !l.blocks[k].hole
    ensures FreeRight(FreeLeft(l, k), LeftOf(l.blocks, k)) == Done(l2)
    ensures Shaped(l2) && IndexedBut(l2, !MergesLeft(l.blocks, k), l.blocks[k].addr)
    ensures |l2.index| == |l.index| - (if MergesRight(l.blocks, k) then 1 else 0)
  {
    var lo := LeftOf(l.blocks, k);
    FreeLeftKeeps(l, k);
    FreeLeftNext(l, k);
    var l1 := FreeLeft(l, k);
    var missing, b := !MergesLeft(l.blocks, k), l.blocks[k].addr;
    FreeRightKeeps(l1, lo, missing, if missing then b else l1.blocks[lo].addr);
    l2 := FreeRight(l1, lo).value;
  }

  /** A free stops exactly when the index is full and neither neighbour takes the hole in. */
  lemma FreeWellFormed(l: Layout, ptr: nat)
    requires WellFormed(l) && IsLive(l, ptr)
    ensures var k := At(l, ptr);
      Free(l, ptr).Panic? <==> !MergesLeft(l.blocks, k) && !MergesRight(l.blocks, k) && |l.index| == INDEX_SIZE
    ensures Free(l, ptr).Panic? ==> Free(l, ptr).fault == IndexFull
    ensures Free(l, ptr).Done? ==> WellFormed(Free(l, ptr).value)
  {
    var k := At(l, ptr);
    var l2 := FreeHalves(l, k);
    var b := l.blocks[k].addr;
    if !MergesLeft(l.blocks, k) && |l2.index| < INDEX_SIZE {
      forall a ensures Occurs(Enlist(l2, b).value.index, a) == Holes(l2.blocks, a) {
        EnlistCounts(l2, b, a);
      }
    }
  }

  lemma HalvesBlocks(l: Layout, k: nat, l2: Layout)
    requires Shaped(l) && k < |l.blocks| && !l.blocks[k].hole
    requires FreeRight(FreeLeft(l, k), LeftOf(l.blocks, k)) == Done(l2)
    ensures var lo, hi := LeftOf(l.blocks, k), RightOf(l.blocks, k);
      && l.blocks[lo].addr <= l.blocks[hi - 1].End()
      && l2.blocks == Splice(l.blocks, lo, hi, [Fuse(l.blocks, lo, hi)])
  {
    hide Pass, FreeLeft, Shaped, Splice;
    var lo, hi := LeftOf(l.blocks, k), RightOf(l.blocks, k);
    FreeLeftBlocks(l, k);
    FreeLeftNext(l, k);
    FuseAt(l, lo, hi);
    if MergesRight(l.blocks, k) {
      var bs := FreeLeft(l, k).blocks;
      FreeRightBlocks(FreeLeft(l, k), lo);
      assert Fuse(bs, lo, lo + 2) == Fuse(l.blocks, lo, hi);
      SpliceTwice(l.blocks, lo, k + 1, Fuse(l.blocks, lo, k + 1), [Fuse(l.blocks, lo, hi)]);
    }
  }

  /** The blocks after a free: one hole over the block and whichever neighbours merge. */
  lemma FreedBlocks(l: Layout, ptr: nat)
    requires WellFormed(l) && IsLive(l, ptr) && Free(l, ptr).Done?
    ensures var lo, hi := LeftOf(l.blocks, At(l, ptr)), RightOf(l.blocks, At(l, ptr));
      && l.blocks[lo].addr <= l.blocks[hi - 1].End()
      && Free(l, ptr).value.blocks == Splice(l.blocks, lo, hi, [Fuse(l.blocks, lo, hi)])
  {
    var l2 := FreeHalves(l, At(l, ptr));
    HalvesBlocks(l, At(l, ptr), l2);
  }

  /** Exactly the freed block stops being live. */
  lemma FreeReleases(l: Layout, ptr: nat)
    requires WellFormed(l) && IsLive(l, ptr) && Free(l, ptr).Done?
    ensures LiveAdds(Free(l, ptr).value.blocks, l.blocks, l.blocks[At(l, ptr)])
  {
    var k := At(l, ptr);
    var lo := LeftOf(l.blocks, k);
    var l1 := FreeLeft(l, k);
    var r := Free(l, ptr).value.blocks;
    FreeLeftNext(l, k);
    var l2 := FreeHalves(l, k);
    assert r == l2.blocks;
    forall x ensures Live(l.blocks, x) == Live(r, x) + (if x == l.blocks[k] then 1 else 0) {
      FreeLeftCounts(l, k, 0, x);
      if MergesRight(l1.blocks, lo) {
        FreeRightCounts(l1, lo, 0, x);
      }
    }
  }

  // ----- coalescing -----

  lemma CoalescedAt(bs: seq<Block>, i: nat)
    requires Coalesced(bs) && i + 1 < |bs|
    ensures !(bs[i].hole && bs[i + 1].hole)
  {
    assert bs == bs[..i + 1] + bs[i + 1..];
    CoalescedJoin(bs[..i + 1], bs[i + 1..]);
  }

  lemma SingleCoalesced(m: Block)
    ensures Coalesced([m])
  {
  }

  /** Replacing a run by one hole keeps coalescing exactly when no hole stays beside it. */
  lemma FuseCoalesced(bs: seq<Block>, i: nat, j: nat, m: Block)
    requires Coalesced(bs) && i < j <= |bs| && m.hole
    ensures Coalesced(Splice(bs, i, j, [m])) <==> (i == 0 || !bs[i - 1].hole) && (j == |bs| || !bs[j].hole)
  {
    hide Coalesced;
    assert bs == bs[..i] + bs[i..];
    CoalescedJoin(bs[..i], bs[i..]);
    assert bs == bs[..j] + bs[j..];
    CoalescedJoin(bs[..j], bs[j..]);
    CoalescedJoin(bs[..i] + [m], bs[j..]);
    CoalescedJoin(bs[..i], [m]);
    SingleCoalesced(m);
  }

  /** A free keeps holes apart exactly when the block before is not a hole whose footer is missing. */
  lemma FreeCoalescedIff(l: Layout, ptr: nat)
    requires WellFormed(l) && Coalesced(l.blocks) && IsLive(l, ptr) && Free(l, ptr).Done?
    ensures var k := At(l, ptr);
      Coalesced(Free(l, ptr).value.blocks) <==> !(k > 0 && l.blocks[k - 1].hole && !l.blocks[k - 1].footed)
  {
    hide Coalesced, Splice, Free, WellFormed, Fuse;
    var k := At(l, ptr);
    var lo, hi := LeftOf(l.blocks, k), RightOf(l.blocks, k);
    FreedBlocks(l, ptr);
    FuseIsHole(l.blocks, lo, hi);
    MergeCoalesced(l.blocks, k, Fuse(l.blocks, lo, hi));
  }

  lemma FuseIsHole(bs: seq<Block>, i: nat, j: nat)
    requires i < j <= |bs| && bs[i].addr <= bs[j - 1].End()
    ensures Fuse(bs, i, j).hole
  {
  }

  lemma MergeCoalesced(bs: seq<Block>, k: nat, m: Block)
    requires Coalesced(bs) && k < |bs| && !bs[k].hole && m.hole
    ensures Coalesced(Splice(bs, LeftOf(bs, k), RightOf(bs, k), [m])) <==>
      !(k > 0 && bs[k - 1].hole && !bs[k - 1].footed)
  {
    hide Coalesced, Splice;
    FuseCoalesced(bs, LeftOf(bs, k), RightOf(bs, k), m);
    MergeEnds(bs, k);
  }

  /** In a coalesced sequence the blocks just outside a merge are no holes, unless a missing footer hid one. */
  lemma MergeEnds(bs: seq<Block>, k: nat)
    requires Coalesced(bs) && k < |bs| && !bs[k].hole
    ensures var lo, hi := LeftOf(bs, k), RightOf(bs, k);
      && (hi < |bs| ==> !bs[hi].hole)
      && (lo > 0 ==> (bs[lo - 1].hole <==> bs[k - 1].hole && !bs[k - 1].footed))
  {
    hide Coalesced;
    if LeftOf(bs, k) == k - 1 && k >= 2 { CoalescedAt(bs, k - 2); }
    if RightOf(bs, k) == k + 2 && k + 2 < |bs| { CoalescedAt(bs, k + 1); }
  }
}
