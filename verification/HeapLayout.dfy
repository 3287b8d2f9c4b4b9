/** src/kheap.c on values: the block sequence, the hole index, and what allocation and freeing do to them. */
module HeapLayout {
  import opened Machine
  import opened OrderedArrays

  const HEADER_SIZE: nat := 12
  const FOOTER_SIZE: nat := 8
  const TAGS: nat := 20
  const INDEX_SIZE: nat := 2048
  const ADDRESS_LIMIT: nat := 0x8000_0000
  const REQUEST_LIMIT: nat := 0x4000_0000

  /** One block, tags included. `footed` is false only for a hole whose footer was never written. */
  datatype Block = Block(addr: nat, size: nat, hole: bool, footed: bool) {
    function End(): nat { addr + size }
    function Pointer(): nat { addr + HEADER_SIZE }
  }

  datatype Layout = Layout(start: nat, end: nat, limit: nat, blocks: seq<Block>, index: seq<nat>)

  // ----- tiling -----

  /** The blocks cover `[lo, hi)` in order, without gap or overlap. */
  ghost predicate Tiles(bs: seq<Block>, lo: nat, hi: nat) {
    if bs == [] then lo == hi
    else bs[0].addr == lo && bs[0].size >= TAGS && Tiles(bs[1..], bs[0].End(), hi)
  }

  /** Where block `k` begins, or the end of the arena. */
  function Bound(bs: seq<Block>, k: nat, hi: nat): nat
    requires k <= |bs|
  {
    if k < |bs| then bs[k].addr else hi
  }

  function Splice(bs: seq<Block>, i: nat, j: nat, ps: seq<Block>): seq<Block>
    requires i <= j <= |bs|
  {
    bs[..i] + ps + bs[j..]
  }

  lemma {:induction false} TilesSplit(bs: seq<Block>, lo: nat, hi: nat, k: nat)
    requires Tiles(bs, lo, hi) && k <= |bs|
    ensures Tiles(bs[..k], lo, Bound(bs, k, hi)) && Tiles(bs[k..], Bound(bs, k, hi), hi)
  {
    if k == 0 {
      assert bs[0..] == bs;
    } else {
      TilesSplit(bs[1..], bs[0].End(), hi, k - 1);
      assert bs[..k][1..] == bs[1..][..k - 1];
      assert bs[1..][k - 1..] == bs[k..];
    }
  }

  lemma {:induction false} TilesJoin(a: seq<Block>, b: seq<Block>, lo: nat, mid: nat, hi: nat)
    requires Tiles(a, lo, mid) && Tiles(b, mid, hi)
    ensures Tiles(a + b, lo, hi)
  {
    if a == [] {
      assert a + b == b;
    } else {
      TilesJoin(a[1..], b, a[0].End(), mid, hi);
      assert (a + b)[1..] == a[1..] + b;
    }
  }

  lemma SpliceTiles(bs: seq<Block>, lo: nat, hi: nat, i: nat, j: nat, ps: seq<Block>)
    requires Tiles(bs, lo, hi) && i <= j <= |bs|
    requires Tiles(ps, Bound(bs, i, hi), Bound(bs, j, hi))
    ensures Tiles(Splice(bs, i, j, ps), lo, hi)
  {
    TilesSplit(bs, lo, hi, i);
    TilesSplit(bs, lo, hi, j);
    TilesJoin(bs[..i], ps, lo, Bound(bs, i, hi), Bound(bs, j, hi));
    TilesJoin(bs[..i] + ps, bs[j..], lo, Bound(bs, j, hi), hi);
  }

  /** Every block lies in the arena, and ends where the next one begins. */
  lemma TilesAt(bs: seq<Block>, lo: nat, hi: nat, k: nat)
    requires Tiles(bs, lo, hi) && k < |bs|
    ensures lo <= bs[k].addr && bs[k].size >= TAGS && bs[k].End() == Bound(bs, k + 1, hi) <= hi
    ensures k == 0 <==> bs[k].addr == lo
    ensures k > 0 ==> lo + TAGS <= bs[k].addr
  {
    TilesSplit(bs, lo, hi, k);
    TilesSplit(bs, lo, hi, k + 1);
    assert bs[k..][0] == bs[k] && bs[k..][1..] == bs[k + 1..];
    TilesWidth(bs[..k], lo, bs[k].addr);
    TilesWidth(bs[k + 1..], bs[k].End(), hi);
    if k + 1 < |bs| {
      assert bs[k + 1..][0] == bs[k + 1];
    }
  }

  lemma {:induction false} TilesWidth(bs: seq<Block>, lo: nat, hi: nat)
    requires Tiles(bs, lo, hi)
    ensures lo + TAGS * |bs| <= hi
    ensures lo == hi <==> bs == []
  {
    if bs != [] {
      TilesWidth(bs[1..], bs[0].End(), hi);
    }
  }

  /** Distinct blocks are disjoint, in the order of the sequence. */
  lemma TilesOrdered(bs: seq<Block>, lo: nat, hi: nat, i: nat, j: nat)
    requires Tiles(bs, lo, hi) && i < j < |bs|
    ensures bs[i].End() <= bs[j].addr
    ensures bs[i].addr < bs[j].addr
  {
    TilesSplit(bs, lo, hi, j);
    assert bs[..j][i] == bs[i];
    TilesAt(bs[..j], lo, bs[j].addr, i);
  }

  // ----- lookup -----

  /** The position of the block that starts at `a`, or `|bs|`. */
  function Find(bs: seq<Block>, a: nat): (k: nat)
    ensures k <= |bs| && (k < |bs| ==> bs[k].addr == a)
    ensures forall j :: 0 <= j < k ==> bs[j].addr != a
  {
    if bs == [] then 0
    else if bs[0].addr == a then 0
    else 1 + Find(bs[1..], a)
  }

  function SizeAt(bs: seq<Block>, a: nat): nat {
    var k := Find(bs, a);
    if k < |bs| then bs[k].size else 0
  }

  function SizeKey(bs: seq<Block>): Key {
    (a: nat) => SizeAt(bs, a)
  }

  lemma FindUnique(bs: seq<Block>, lo: nat, hi: nat, k: nat)
    requires Tiles(bs, lo, hi) && k < |bs|
    ensures Find(bs, bs[k].addr) == k
    ensures SizeAt(bs, bs[k].addr) == SizeKey(bs)(bs[k].addr) == bs[k].size
  {
    var j := Find(bs, bs[k].addr);
    if j < k {
      TilesOrdered(bs, lo, hi, j, k);
    }
  }

  // ----- holes and live blocks, by counting -----

  /** How many holes of `bs` start at `a`. */
  function Holes(bs: seq<Block>, a: nat): nat {
    if bs == [] then 0
    else (if bs[0].hole && bs[0].addr == a then 1 else 0) + Holes(bs[1..], a)
  }

  /** How often `b` is among the allocated blocks of `bs`. */
  function Live(bs: seq<Block>, b: Block): nat {
    if bs == [] then 0
    else (if !bs[0].hole && bs[0] == b then 1 else 0) + Live(bs[1..], b)
  }

  lemma {:induction false} HolesConcat(x: seq<Block>, y: seq<Block>, a: nat)
    ensures Holes(x + y, a) == Holes(x, a) + Holes(y, a)
  {
    if x == [] {
      assert x + y == y;
    } else {
      HolesConcat(x[1..], y, a);
      assert (x + y)[1..] == x[1..] + y;
    }
  }

  lemma {:induction false} LiveConcat(x: seq<Block>, y: seq<Block>, b: Block)
    ensures Live(x + y, b) == Live(x, b) + Live(y, b)
  {
    if x == [] {
      assert x + y == y;
    } else {
      LiveConcat(x[1..], y, b);
      assert (x + y)[1..] == x[1..] + y;
    }
  }

  lemma HolesSplice(bs: seq<Block>, i: nat, j: nat, ps: seq<Block>, a: nat)
    requires i <= j <= |bs|
    ensures Holes(Splice(bs, i, j, ps), a) == Holes(bs, a) - Holes(bs[i..j], a) + Holes(ps, a)
  {
    HolesConcat(bs[..i] + ps, bs[j..], a);
    HolesConcat(bs[..i], ps, a);
    HolesConcat(bs[..i] + bs[i..j], bs[j..], a);
    HolesConcat(bs[..i], bs[i..j], a);
    SplitTwice(bs, i, j);
  }

  lemma LiveSplice(bs: seq<Block>, i: nat, j: nat, ps: seq<Block>, b: Block)
    requires i <= j <= |bs|
    ensures Live(Splice(bs, i, j, ps), b) == Live(bs, b) - Live(bs[i..j], b) + Live(ps, b)
  {
    LiveConcat(bs[..i] + ps, bs[j..], b);
    LiveConcat(bs[..i], ps, b);
    LiveConcat(bs[..i] + bs[i..j], bs[j..], b);
    LiveConcat(bs[..i], bs[i..j], b);
    SplitTwice(bs, i, j);
  }

  lemma CountsSingle(b: Block, a: nat, c: Block)
    ensures Holes([b], a) == if b.hole && b.addr == a then 1 else 0
    ensures Live([b], c) == if !b.hole && b == c then 1 else 0
  {
    assert [b][1..] == [];
  }

  lemma {:induction false} HolesMember(bs: seq<Block>, a: nat)
    ensures Holes(bs, a) > 0 <==> exists k :: 0 <= k < |bs| && bs[k].hole && bs[k].addr == a
  {
    if bs != [] {
      HolesMember(bs[1..], a);
      assert forall k :: 0 <= k < |bs[1..]| ==> bs[1..][k] == bs[k + 1];
      if exists k :: 0 <= k < |bs| && bs[k].hole && bs[k].addr == a {
        var k :| 0 <= k < |bs| && bs[k].hole && bs[k].addr == a;
        if k > 0 { assert bs[1..][k - 1] == bs[k]; }
      }
    }
  }

  lemma {:induction false} LiveMember(bs: seq<Block>, b: Block)
    ensures Live(bs, b) > 0 <==> b in bs && !b.hole
  {
    if bs != [] {
      LiveMember(bs[1..], b);
      assert bs == [bs[0]] + bs[1..];
    }
  }

  // ----- coalescing -----

  /** No two adjacent blocks are both holes. */
  ghost predicate Coalesced(bs: seq<Block>) {
    |bs| >= 2 ==> !(bs[0].hole && bs[1].hole) && Coalesced(bs[1..])
  }

  /** The last block of `a` and the first of `b` are not both holes. */
  ghost predicate Seam(a: seq<Block>, b: seq<Block>) {
    a == [] || b == [] || !(a[|a| - 1].hole && b[0].hole)
  }

  lemma {:induction false} CoalescedJoin(a: seq<Block>, b: seq<Block>)
    ensures Coalesced(a + b) <==> Coalesced(a) && Coalesced(b) && Seam(a, b)
  {
    if a == [] {
      assert a + b == b;
    } else {
      CoalescedJoin(a[1..], b);
      assert (a + b)[1..] == a[1..] + b;
      if |a| == 1 && b != [] {
        assert (a + b)[1] == b[0];
      }
    }
  }

  // ----- well-formed layouts -----

  /** Every footer has been written, except perhaps that of a hole at the very start. */
  ghost predicate Footed(bs: seq<Block>) {
    forall i :: 0 <= i < |bs| ==> bs[i].footed || (i == 0 && bs[i].hole)
  }

  ghost predicate Shaped(l: Layout) {
    && PAGE_SIZE <= l.start && l.start % PAGE_SIZE == 0 && l.end % PAGE_SIZE == 0
    && l.start < l.end <= l.limit <= ADDRESS_LIMIT
    && Tiles(l.blocks, l.start, l.end)
    && Footed(l.blocks)
  }

  /** The index holds exactly the hole addresses, each once. */
  ghost predicate Indexed(l: Layout) {
    forall a :: Occurs(l.index, a) == Holes(l.blocks, a)
  }

  ghost predicate WellFormed(l: Layout) {
    Shaped(l) && Indexed(l) && |l.index| <= INDEX_SIZE
  }

  lemma ShapedIgnoresIndex(l: Layout, s: seq<nat>)
    requires Shaped(l)
    ensures Shaped(l.(index := s))
  {
  }

  lemma WellFormedParts(l: Layout)
    requires WellFormed(l)
    ensures Shaped(l) && Indexed(l) && Tiles(l.blocks, l.start, l.end) && |l.index| <= INDEX_SIZE
  {
  }

  lemma SpliceShaped(l: Layout, i: nat, j: nat, ps: seq<Block>)
    requires Shaped(l) && i < j <= |l.blocks|
    requires Tiles(ps, l.blocks[i].addr, Bound(l.blocks, j, l.end))
    requires forall p :: p in ps ==> p.footed
    ensures Shaped(l.(blocks := Splice(l.blocks, i, j, ps)))
  {
    SpliceTiles(l.blocks, l.start, l.end, i, j, ps);
    TilesAt(l.blocks, l.start, l.end, j - 1);
    TilesAt(l.blocks, l.start, l.end, i);
    if i < j - 1 { TilesOrdered(l.blocks, l.start, l.end, i, j - 1); }
    TilesWidth(ps, l.blocks[i].addr, Bound(l.blocks, j, l.end));
    var r := Splice(l.blocks, i, j, ps);
    forall x | 0 <= x < |r| ensures r[x].footed || (x == 0 && r[x].hole) {
      if x < i {
        assert r[x] == l.blocks[x];
      } else if x < i + |ps| {
        assert r[x] == ps[x - i];
      } else {
        assert r[x] == l.blocks[x - i - |ps| + j];
      }
    }
  }

  /** An indexed address is that of a hole of the layout, found where `Find` says. */
  lemma IndexedIsHole(l: Layout, i: nat)
    requires WellFormed(l) && i < |l.index|
    ensures var k := Find(l.blocks, l.index[i]); k < |l.blocks| && l.blocks[k].hole && l.blocks[k].addr == l.index[i]
    ensures SizeKey(l.blocks)(l.index[i]) == SizeAt(l.blocks, l.index[i])
  {
    var a := l.index[i];
    OccursIn(l.index, a);
    HolesMember(l.blocks, a);
    var k :| 0 <= k < |l.blocks| && l.blocks[k].hole && l.blocks[k].addr == a;
    FindUnique(l.blocks, l.start, l.end, k);
  }

  lemma HoleIsIndexed(l: Layout, k: nat)
    requires WellFormed(l) && k < |l.blocks| && l.blocks[k].hole
    ensures l.blocks[k].addr in l.index
  {
    HolesMember(l.blocks, l.blocks[k].addr);
    OccursIn(l.index, l.blocks[k].addr);
  }

  // ----- page alignment -----

  /** page_align_get_offset */
  function AlignOffset(addr: nat): nat {
    var rem := (addr + HEADER_SIZE) % PAGE_SIZE;
    if rem != 0 then
      var offset := PAGE_SIZE - rem;
      if offset <= TAGS then offset + PAGE_SIZE else offset
    else 0
  }

  ghost predicate AlignsPayload(addr: nat, offset: nat) {
    (offset == 0 || offset > TAGS) && (addr + HEADER_SIZE + offset) % PAGE_SIZE == 0
  }

  /** The least offset that leaves room for a hole in front, or none, and aligns the payload. */
  lemma AlignOffsetLeast(addr: nat, other: nat)
    ensures AlignsPayload(addr, AlignOffset(addr))
    ensures AlignsPayload(addr, other) ==> AlignOffset(addr) <= other
    ensures AlignOffset(addr) <= PAGE_SIZE + TAGS
  {
  }

  // ----- find_hole -----

  predicate Fits(bs: seq<Block>, a: nat, need: nat, align: bool) {
    SizeAt(bs, a) - (if align then AlignOffset(a) else 0) >= need
  }

  /** The first position of the index whose hole fits, or the index length. */
  function FirstFit(bs: seq<Block>, index: seq<nat>, need: nat, align: bool): (i: nat)
    ensures i <= |index|
    ensures i < |index| ==> Fits(bs, index[i], need, align)
    ensures forall j :: 0 <= j < i ==> !Fits(bs, index[j], need, align)
  {
    if index == [] then 0
    else if Fits(bs, index[0], need, align) then 0
    else 1 + FirstFit(bs, index[1..], need, align)
  }

  /** A hole is found exactly when one fits, in whatever order the index is. */
  lemma FirstFitComplete(l: Layout, need: nat, align: bool)
    requires WellFormed(l)
    ensures FirstFit(l.blocks, l.index, need, align) < |l.index| <==>
      exists k :: 0 <= k < |l.blocks| && l.blocks[k].hole && Fits(l.blocks, l.blocks[k].addr, need, align)
  {
    var i := FirstFit(l.blocks, l.index, need, align);
    if i < |l.index| {
      IndexedIsHole(l, i);
    } else {
      forall k | 0 <= k < |l.blocks| && l.blocks[k].hole
        ensures !Fits(l.blocks, l.blocks[k].addr, need, align)
      {
        HoleIsIndexed(l, k);
        var j :| 0 <= j < |l.index| && l.index[j] == l.blocks[k].addr;
      }
    }
  }

  /** When the index is sorted, no smaller hole fits. */
  lemma FirstFitSmallest(l: Layout, need: nat, align: bool, k: nat)
    requires WellFormed(l) && Sorted(l.index, SizeKey(l.blocks))
    requires k < |l.blocks| && l.blocks[k].hole && Fits(l.blocks, l.blocks[k].addr, need, align)
    ensures var i := FirstFit(l.blocks, l.index, need, align);
      i < |l.index| && SizeAt(l.blocks, l.index[i]) <= l.blocks[k].size
  {
    hide WellFormed, Sorted, SizeAt;
    HoleIsIndexed(l, k);
    var j :| 0 <= j < |l.index| && l.index[j] == l.blocks[k].addr;
    WellFormedParts(l);
    FindUnique(l.blocks, l.start, l.end, k);
    var i := FirstFit(l.blocks, l.index, need, align);
    if i < j {
      SortedSizes(l.blocks, l.index, i, j);
    }
  }

  lemma SortedSizes(bs: seq<Block>, index: seq<nat>, i: nat, j: nat)
    requires Sorted(index, SizeKey(bs)) && i < j < |index|
    ensures SizeAt(bs, index[i]) <= SizeAt(bs, index[j])
  {
    assert SizeKey(bs)(index[i]) <= SizeKey(bs)(index[j]);
  }
}
