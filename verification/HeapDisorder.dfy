/** A run of the kernel's own heap after which the index is out of order, and what find_hole does then. */
module HeapDisorder {
  import opened Machine
  import opened OrderedArrays
  import opened HeapLayout
  import opened HeapAlloc
  import opened HeapFree
  import opened HeapLaws
  import opened HeapOrder
  import opened HeapRuns

  // ----- two simple steps, exactly -----

  /** A request served from the only hole, at the end of the arena. */
  lemma TailRequest(l: Layout, n: nat, init: seq<Block>, h: Block)
    requires WellFormed(l) && l.blocks == init + [h] && h.hole && l.index == [h.addr] && n + 2 * TAGS < h.size
    ensures var size := n + TAGS;
      Alloc(l, n, false) == Done(Placed(Layout(l.start, l.end, l.limit,
        init + [Block(h.addr, size, false, true), Block(h.addr + size, h.size - size, true, true)],
        [h.addr + size]), h.addr + HEADER_SIZE))
  {
    hide WellFormed;
    var size := n + TAGS;
    assert Find(l.blocks, h.addr) == |init| && SizeAt(l.blocks, h.addr) == h.size by { TailFound(l, init, h); }
    assert FirstFit(l.blocks, l.index, size, false) == 0;
    assert Alloc(l, n, false) == CarveAt(l, 0, 0, size);
    TailCarve(l, size, init, h);
  }

  lemma TailFound(l: Layout, init: seq<Block>, h: Block)
    requires WellFormed(l) && l.blocks == init + [h]
    ensures Find(l.blocks, h.addr) == |init| && SizeAt(l.blocks, h.addr) == h.size
  {
    assert l.blocks[|init|] == h;
    FindUnique(l.blocks, l.start, l.end, |init|);
  }

  lemma TailCarve(l: Layout, size: nat, init: seq<Block>, h: Block)
    requires l.blocks == init + [h] && l.index == [h.addr] && Find(l.blocks, h.addr) == |init| && size + TAGS < h.size
    ensures CarveAt(l, 0, 0, size) == Done(Placed(Layout(l.start, l.end, l.limit,
      init + [Block(h.addr, size, false, true), Block(h.addr + size, h.size - size, true, true)],
      [h.addr + size]), h.addr + HEADER_SIZE))
  {
    var k := |init|;
    var pieces := [Block(h.addr, size, false, true), Block(h.addr + size, h.size - size, true, true)];
    assert l.blocks[k] == h;
    assert Pieces(h, 0, size) == pieces;
    assert Splice(l.blocks, k, k + 1, pieces) == init + pieces;
    assert RemoveAt(l.index, 0) == [];
    assert [] + [h.addr + size] == [h.addr + size];
  }

  /** A release between two live neighbours. */
  lemma LonelyRelease(l: Layout, k: nat)
    requires WellFormed(l) && k < |l.blocks| && !l.blocks[k].hole && |l.index| < INDEX_SIZE
    requires !MergesLeft(l.blocks, k) && !MergesRight(l.blocks, k)
    ensures IsLive(l, l.blocks[k].Pointer())
    ensures var blocks := l.blocks[k := l.blocks[k].(hole := true)];
      Free(l, l.blocks[k].Pointer())
        == Done(l.(blocks := blocks, index := Pass(l.index + [l.blocks[k].addr], SizeKey(blocks))))
  {
    hide Pass;
    FindUnique(l.blocks, l.start, l.end, k);
  }

  // ----- the run -----

  const BASE: nat := 0x0F00_2000

  /** Five requests, then the first, the fourth and the second block are released. */
  function Calls(): seq<Op> {
    [Request(10, false)] + ([Request(49980, false)] + ([Request(0, false)]
    + ([Request(20, false)] + ([Request(0, false)] + Releasing()))))
  }

  const A: Block := Block(BASE, 30, false, true)
  const B: Block := Block(BASE + 30, 50000, false, true)
  const C: Block := Block(BASE + 50030, 20, false, true)
  const D: Block := Block(BASE + 50050, 40, false, true)
  const E: Block := Block(BASE + 50090, 20, false, true)
  const R: Block := Block(BASE + 50110, 7234, true, true)

  function Hollow(b: Block): Block { b.(hole := true) }

  function Arena(blocks: seq<Block>, index: seq<nat>): Layout {
    Layout(BASE, BASE + 57344, 0x0FFF_F000, blocks, index)
  }

  /** One call at the head of a run. */
  lemma Call(s: Session, op: Op, rest: seq<Op>, l: Layout) returns (s1: Session)
    requires Sound(s) && Step(s, op).Done? && Step(s, op).value.layout == l
    ensures Sound(s1) && s1.layout == l && Run(s, [op] + rest) == Run(s1, rest)
  {
    hide Step, WellFormed, Accounted;
    s1 := Step(s, op).value;
    StepSound(s, op);
    assert ([op] + rest)[0] == op && ([op] + rest)[1..] == rest;
  }

  /** A request at the head of a run, while the only hole is the last block. */
  lemma RequestCall(s: Session, n: nat, init: seq<Block>, h: Block, rest: seq<Op>) returns (s1: Session)
    requires Sound(s) && s.layout == Arena(init + [h], [h.addr]) && h.hole && n + 2 * TAGS < h.size
    ensures var block := Block(h.addr, n + TAGS, false, true);
      var left := Block(block.End(), h.size - block.size, true, true);
      s1.layout == Arena(init + [block] + [left], [left.addr])
    ensures Sound(s1) && Run(s, [Request(n, false)] + rest) == Run(s1, rest)
  {
    hide Alloc, WellFormed, Accounted;
    var block, left := Block(h.addr, n + TAGS, false, true), Block(h.addr + n + TAGS, h.size - n - TAGS, true, true);
    TailRequest(s.layout, n, init, h);
    assert init + [block, left] == init + [block] + [left];
    s1 := Call(s, Request(n, false), rest, Arena(init + [block] + [left], [left.addr]));
  }

  /** A release at the head of a run, of a block between live neighbours. */
  lemma ReleaseCall(s: Session, k: nat, rest: seq<Op>) returns (s1: Session)
    requires Sound(s) && k < |s.layout.blocks| && !s.layout.blocks[k].hole && |s.layout.index| < INDEX_SIZE
    requires !MergesLeft(s.layout.blocks, k) && !MergesRight(s.layout.blocks, k)
    ensures var l := s.layout;
      var blocks := l.blocks[k := Hollow(l.blocks[k])];
      s1.layout == l.(blocks := blocks, index := Pass(l.index + [l.blocks[k].addr], SizeKey(blocks)))
    ensures Sound(s1) && Run(s, [Release(s.layout.blocks[k].Pointer())] + rest) == Run(s1, rest)
  {
    hide Free, WellFormed, Accounted, Pass, MergesLeft, MergesRight, IsLive;
    LonelyRelease(s.layout, k);
    s1 := Call(s, Release(s.layout.blocks[k].Pointer()), rest, Free(s.layout, s.layout.blocks[k].Pointer()).value);
  }

  function NewHeap(): Layout {
    Arena([Block(BASE, 57344, true, false)], [BASE])
  }

  lemma NewHeapIsCreated()
    ensures Region(0x0F00_0000, 0x0F01_0000, 0x0FFF_F000)
    ensures Create(0x0F00_0000, 0x0F01_0000, 0x0FFF_F000) == Done(NewHeap())
    ensures Sound(Session(NewHeap(), map[]))
  {
    hide Sound;
    KernelRegion();
  }

  /** The three releases that end the run. */
  function Releasing(): seq<Op> {
    [Release(BASE + 12)] + ([Release(BASE + 50062)] + [Release(BASE + 42)])
  }

  lemma Requests() returns (s: Session)
    ensures Sound(Session(NewHeap(), map[]))
    ensures Sound(s) && s.layout == Arena([A, B, C, D, E, R], [R.addr])
    ensures Run(Session(NewHeap(), map[]), Calls()) == Run(s, Releasing())
  {
    hide Sound, Run;
    NewHeapIsCreated();
    var s0 := Session(NewHeap(), map[]);
    var r5 := Releasing();
    var r4 := [Request(0, false)] + r5;
    var r3 := [Request(20, false)] + r4;
    var r2 := [Request(0, false)] + r3;
    var r1 := [Request(49980, false)] + r2;
    assert [] + [Block(BASE, 57344, true, false)] == s0.layout.blocks;
    var s1 := RequestCall(s0, 10, [], Block(BASE, 57344, true, false), r1);
    assert [] + [A] == [A];
    var s2 := RequestCall(s1, 49980, [A], Block(BASE + 30, 57314, true, true), r2);
    assert [A] + [B] == [A, B];
    var s3 := RequestCall(s2, 0, [A, B], Block(BASE + 50030, 7314, true, true), r3);
    assert [A, B] + [C] == [A, B, C];
    var s4 := RequestCall(s3, 20, [A, B, C], Block(BASE + 50050, 7294, true, true), r4);
    assert [A, B, C] + [D] == [A, B, C, D];
    s := RequestCall(s4, 0, [A, B, C, D], Block(BASE + 50090, 7254, true, true), r5);
    assert [A, B, C, D] + [E] + [R] == [A, B, C, D, E, R];
  }

  lemma SizesOf(l: Layout, k: nat)
    requires WellFormed(l) && k < |l.blocks|
    ensures SizeAt(l.blocks, l.blocks[k].addr) == l.blocks[k].size
    ensures SizeKey(l.blocks)(l.blocks[k].addr) == l.blocks[k].size
    ensures Find(l.blocks, l.blocks[k].addr) == k
  {
    FindUnique(l.blocks, l.start, l.end, k);
  }

  lemma PassPair(x: nat, y: nat, key: Key)
    requires key(y) < key(x)
    ensures Pass([x] + [y], key) == [y, x]
  {
    assert ([x] + [y])[1..] == [y];
  }

  lemma PassLast(x: nat, y: nat, z: nat, key: Key)
    requires key(x) <= key(z) < key(y)
    ensures Pass([x, y] + [z], key) == [x, z, y]
  {
    var s := [x, y] + [z];
    assert s[1..] == [y] + [z];
    PassPair(y, z, key);
  }

  /** The first two releases leave three holes in order: 30, 40 and 7234 bytes. */
  lemma TwoReleases(s: Session) returns (s2: Session)
    requires Sound(s) && s.layout == Arena([A, B, C, D, E, R], [R.addr])
    ensures Sound(s2) && s2.layout == Arena([Hollow(A), B, C, Hollow(D), E, R], [A.addr, D.addr, R.addr])
    ensures Run(s, Releasing()) == Run(s2, [Release(BASE + 42)])
  {
    hide Run, WellFormed, Accounted, SizeAt, SizeKey, Pass;
    var rest := [Release(BASE + 50062)] + [Release(BASE + 42)];
    var s1 := ReleaseCall(s, 0, rest);
    var bs := s1.layout.blocks;
    assert bs == [Hollow(A), B, C, D, E, R];
    SizesOf(s1.layout, 0);
    SizesOf(s1.layout, 5);
    PassPair(R.addr, A.addr, SizeKey(bs));
    assert s1.layout == Arena(bs, [A.addr, R.addr]);
    s2 := ReleaseCall(s1, 3, [Release(BASE + 42)]);
    var bs2 := s2.layout.blocks;
    assert bs2 == [Hollow(A), B, C, Hollow(D), E, R];
    SizesOf(s2.layout, 0);
    SizesOf(s2.layout, 3);
    SizesOf(s2.layout, 5);
    PassLast(A.addr, R.addr, D.addr, SizeKey(bs2));
  }

  function Prior(): Layout {
    Arena([Hollow(A), B, C, Hollow(D), E, R], [A.addr, D.addr, R.addr])
  }

  function Afterwards(): Layout {
    Arena([Block(BASE, 50030, true, true), C, Hollow(D), E, R], [D.addr, A.addr, R.addr])
  }

  lemma PriorInOrder()
    requires WellFormed(Prior())
    ensures InOrder(Prior())
  {
    hide WellFormed, SizeAt;
    SizesOf(Prior(), 0);
    SizesOf(Prior(), 3);
    SizesOf(Prior(), 5);
  }

  /** The third release: the merged hole moves one place, past 40 bytes, and stops in front of 7234. */
  lemma ThirdRelease()
    requires WellFormed(Prior())
    ensures IsLive(Prior(), BASE + 42) && Free(Prior(), BASE + 42) == Done(Afterwards())
  {
    hide WellFormed, SizeAt, SizeKey, Pass;
    var l := Prior();
    SizesOf(l, 1);
    SizesOf(l, 3);
    assert IsLive(l, BASE + 42) && At(l, BASE + 42) == 1;
    PriorInOrder();
    PassedIndex(l, 1, 0);
    assert FreeLeft(l, 1).index == [D.addr, A.addr, R.addr] by { ShownIndex(); }
    assert FreeLeft(l, 1).blocks == [Block(BASE, 50030, true, true), C, Hollow(D), E, R];
  }

  lemma ShownIndex()
    requires SizeAt(Prior().blocks, D.addr) == 40
    ensures HeapOrder.Before(Prior(), 1, 0) == [D.addr] && Behind(Prior(), 1, 0) == [R.addr]
    ensures [D.addr] + ([A.addr] + [R.addr]) == [D.addr, A.addr, R.addr]
  {
    assert Prior().index[2..] == [R.addr];
    assert Prior().index[..0] + [D.addr] == [D.addr];
  }

  /** Sizes after the run: 40, then 50030, then 7234. */
  lemma AfterSizes()
    requires WellFormed(Afterwards())
    ensures SizeAt(Afterwards().blocks, D.addr) == 40 && SizeAt(Afterwards().blocks, A.addr) == 50030
    ensures SizeAt(Afterwards().blocks, R.addr) == 7234
    ensures !InOrder(Afterwards())
  {
    hide WellFormed, SizeAt;
    var l := Afterwards();
    SizesOf(l, 0);
    SizesOf(l, 2);
    SizesOf(l, 4);
    assert SizeKey(l.blocks)(l.index[1]) > SizeKey(l.blocks)(l.index[2]);
  }

  /**
   * The run, from creation: every call returns, the index ends out of order, and a request of 7000 bytes is then
   * served from the hole of 50030 bytes although the one of 7234 fits.
   */
  lemma RunBreaksOrder() returns (s: Session)
    ensures Create(0x0F00_0000, 0x0F01_0000, 0x0FFF_F000) == Done(NewHeap()) && Sound(Session(NewHeap(), map[]))
    ensures Run(Session(NewHeap(), map[]), Calls()) == Done(s) && Sound(s) && s.layout == Afterwards()
    ensures !InOrder(s.layout)
    ensures var l, need := s.layout, 7000 + TAGS;
      && FirstFit(l.blocks, l.index, need, false) == 1
      && SizeAt(l.blocks, l.index[1]) == 50030
      && Fits(l.blocks, R.addr, need, false) && SizeAt(l.blocks, R.addr) == 7234 && R.addr in l.index
  {
    hide WellFormed, Accounted, SizeAt, Free;
    NewHeapIsCreated();
    var s5 := Requests();
    var s7 := TwoReleases(s5);
    assert s7.layout == Prior();
    ThirdRelease();
    s := Call(s7, Release(BASE + 42), [], Afterwards());
    assert [Release(BASE + 42)] + [] == [Release(BASE + 42)];
    AfterSizes();
    FitsAtOne();
  }

  lemma FitsAtOne()
    requires WellFormed(Afterwards())
    ensures var l := Afterwards(); FirstFit(l.blocks, l.index, 7000 + TAGS, false) == 1
  {
    hide WellFormed, SizeAt;
    var l := Afterwards();
    AfterSizes();
    var i := FirstFit(l.blocks, l.index, 7000 + TAGS, false);
    assert l.index[0] == D.addr && l.index[1] == A.addr;
    assert !Fits(l.blocks, l.index[0], 7000 + TAGS, false) && Fits(l.blocks, l.index[1], 7000 + TAGS, false);
    assert i != 0;
    assert i <= 1;
  }
}
