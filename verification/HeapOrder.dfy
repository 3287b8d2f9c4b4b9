/** When the hole index stays sorted by size: always, except after a merge with the hole before. */
module HeapOrder {
  import opened Machine
  import opened OrderedArrays
  import opened HeapLayout
  import opened HeapAlloc
  import opened HeapFree
  import opened HeapLaws

  ghost predicate InOrder(l: Layout) {
    Sorted(l.index, SizeKey(l.blocks))
  }

  lemma SortedDependsOnKeys(s: seq<nat>, f: Key, g: Key)
    requires forall x :: x in s ==> f(x) == g(x)
    ensures Sorted(s, f) <==> Sorted(s, g)
  {
    forall i | 0 <= i < |s| ensures f(s[i]) == g(s[i]) {
      assert s[i] in s;
    }
  }

  /** Tiled blocks start at distinct addresses, so an address is indexed at most once. */
  lemma {:induction false} HolesAtMostOne(bs: seq<Block>, lo: nat, hi: nat, a: nat)
    requires Tiles(bs, lo, hi)
    ensures Holes(bs, a) <= 1 && (a < lo ==> Holes(bs, a) == 0)
  {
    if bs != [] {
      HolesAtMostOne(bs[1..], bs[0].End(), hi, a);
    }
  }

  lemma {:induction false} LiveAtMostOne(bs: seq<Block>, lo: nat, hi: nat, b: Block)
    requires Tiles(bs, lo, hi)
    ensures Live(bs, b) <= 1 && (b.addr < lo ==> Live(bs, b) == 0)
  {
    if bs != [] {
      LiveAtMostOne(bs[1..], bs[0].End(), hi, b);
    }
  }

  /** After its entry is removed, an address is no longer in the index. */
  lemma RemovedIsGone(l: Layout, i: nat)
    requires WellFormed(l) && i < |l.index|
    ensures l.index[i] !in RemoveAt(l.index, i)
  {
    var a := l.index[i];
    HolesAtMostOne(l.blocks, l.start, l.end, a);
    assert Occurs(l.index, a) == Holes(l.blocks, a);
    OccursRemoved(l.index, i, a);
    OccursIn(RemoveAt(l.index, i), a);
  }

  /** Blocks outside a splice keep their sizes. */
  lemma SpliceKeepsSize(l: Layout, i: nat, j: nat, ps: seq<Block>, x: nat)
    requires Tiles(l.blocks, l.start, l.end) && i <= j <= |l.blocks|
    requires Tiles(Splice(l.blocks, i, j, ps), l.start, l.end)
    requires x < |l.blocks| && (x < i || x >= j)
    ensures SizeAt(Splice(l.blocks, i, j, ps), l.blocks[x].addr) == SizeAt(l.blocks, l.blocks[x].addr)
  {
    var r := Splice(l.blocks, i, j, ps);
    var y := if x < i then x else x - j + i + |ps|;
    assert r[y] == l.blocks[x];
    FindUnique(r, l.start, l.end, y);
    FindUnique(l.blocks, l.start, l.end, x);
  }

  /** So the indexed holes outside a splice keep their keys. */
  lemma SpliceKeepsKeys(l: Layout, i: nat, j: nat, ps: seq<Block>, s: seq<nat>)
    requires WellFormed(l) && i <= j <= |l.blocks|
    requires Tiles(Splice(l.blocks, i, j, ps), l.start, l.end)
    requires forall a :: a in s ==> a in l.index
    requires forall x :: i <= x < j ==> l.blocks[x].addr !in s
    ensures forall a :: a in s ==> SizeKey(Splice(l.blocks, i, j, ps))(a) == SizeKey(l.blocks)(a)
  {
    forall a | a in s ensures SizeKey(Splice(l.blocks, i, j, ps))(a) == SizeKey(l.blocks)(a) {
      var n :| 0 <= n < |l.index| && l.index[n] == a;
      IndexedIsHole(l, n);
      SpliceKeepsSize(l, i, j, ps, Find(l.blocks, a));
    }
  }

  lemma EnlistInOrder(l: Layout, a: nat)
    requires InOrder(l) && Enlist(l, a).Done?
    ensures InOrder(Enlist(l, a).value)
  {
    InsertKeepsSorted(l.index, a, SizeKey(l.blocks));
  }

  // ----- allocation -----

  lemma GrowInOrder(l: Layout, need: nat)
    requires WellFormed(l) && InOrder(l) && Grow(l, need).Done?
    ensures InOrder(Grow(l, need).value)
  {
    var l1 := Grow(l, need).value;
    GrowWellFormed(l, need);
    forall a | a in l.index ensures SizeKey(l1.blocks)(a) == SizeKey(l.blocks)(a) {
      var n :| 0 <= n < |l.index| && l.index[n] == a;
      IndexedIsHole(l, n);
      var k := Find(l.blocks, a);
      assert l1.blocks[k] == l.blocks[k];
      FindUnique(l1.blocks, l1.start, l1.end, k);
    }
    SortedDependsOnKeys(l.index, SizeKey(l1.blocks), SizeKey(l.blocks));
    InsertKeepsSorted(l.index, l.end, SizeKey(l1.blocks));
  }

  lemma CarveFrontInOrder(l: Layout, i: nat, offset: nat, size: nat)
    requires WellFormed(l) && InOrder(l)
    requires i < |l.index| && Find(l.blocks, l.index[i]) < |l.blocks| && offset + size <= Chosen(l, i).size
    requires Shaped(CarveFront(l, i, offset, size))
    ensures InOrder(CarveFront(l, i, offset, size))
  {
    var k := Find(l.blocks, l.index[i]);
    var ps := Pieces(l.blocks[k], offset, size);
    var removed := RemoveAt(l.index, i);
    RemovedIsGone(l, i);
    SpliceKeepsKeys(l, k, k + 1, ps, removed);
    RemoveKeepsSorted(l.index, i, SizeKey(l.blocks));
    SortedDependsOnKeys(removed, SizeKey(Splice(l.blocks, k, k + 1, ps)), SizeKey(l.blocks));
    InsertKeepsSorted(removed, l.index[i], SizeKey(Splice(l.blocks, k, k + 1, ps)));
  }

  lemma CarveAtInOrder(l: Layout, i: nat, offset: nat, size: nat)
    requires WellFormed(l) && InOrder(l)
    requires i < |l.index| && Find(l.blocks, l.index[i]) < |l.blocks|
    requires offset + size <= Chosen(l, i).size && (offset == 0 || offset > TAGS) && size >= TAGS
    requires CarveAt(l, i, offset, size).Done?
    ensures InOrder(CarveAt(l, i, offset, size).value.layout)
  {
    hide CarveFront;
    var l1 := CarveFront(l, i, offset, size);
    CarveFrontShaped(l, i, offset, size);
    CarveFrontInOrder(l, i, offset, size);
    if offset + size < Chosen(l, i).size {
      EnlistInOrder(l1, Chosen(l, i).addr + offset + size);
    }
  }

  /** Every allocation, aligned ones included once line 223 is corrected, keeps the index sorted. */
  lemma AllocInOrder(l: Layout, request: nat, align: bool)
    requires WellFormed(l) && InOrder(l) && Alloc(l, request, align).Done?
    ensures InOrder(Alloc(l, request, align).value.layout)
  {
    hide Alloc, Locate, CarveAt;
    AllocLocates(l, request, align);
    var l1, i, offset, size := AllocIsCarveAt(l, request, align);
    if l1 != l { GrowInOrder(l, request + TAGS); }
    CarveAtInOrder(l1, i, offset, size);
  }

  // ----- freeing without a merge to the left -----

  lemma LiveNotIndexed(l: Layout, k: nat)
    requires WellFormed(l) && k < |l.blocks| && !l.blocks[k].hole
    ensures l.blocks[k].addr !in l.index
  {
    var a := l.blocks[k].addr;
    if a in l.index {
      var n :| 0 <= n < |l.index| && l.index[n] == a;
      IndexedIsHole(l, n);
      FindUnique(l.blocks, l.start, l.end, k);
    }
  }

  /** The index just before the freed hole is entered, when it did not merge to the left. */
  lemma RightHalfIndex(l: Layout, k: nat, l2: Layout)
    requires WellFormed(l) && k < |l.blocks| && !l.blocks[k].hole && !MergesLeft(l.blocks, k)
    requires FreeRight(FreeLeft(l, k), k) == Done(l2)
    ensures if MergesRight(l.blocks, k) then
        var i := IndexOf(l.index, l.blocks[k + 1].addr);
        i < |l.index| && l2.index == RemoveAt(l.index, i) && l.blocks[k + 1].addr !in l2.index
      else l2.index == l.index
    ensures l.blocks[k].addr !in l2.index
  {
    FreeLeftNext(l, k);
    LiveNotIndexed(l, k);
    if MergesRight(l.blocks, k) {
      RemovedIsGone(l, IndexOf(l.index, l.blocks[k + 1].addr));
    }
  }

  lemma RightHalfInOrder(l: Layout, k: nat, l2: Layout)
    requires WellFormed(l) && InOrder(l) && k < |l.blocks| && !l.blocks[k].hole && !MergesLeft(l.blocks, k)
    requires FreeRight(FreeLeft(l, k), k) == Done(l2) && Shaped(l2)
    ensures InOrder(l2)
  {
    var hi := RightOf(l.blocks, k);
    HalvesBlocks(l, k, l2);
    RightHalfIndex(l, k, l2);
    RightFrame(l, k, l2);
    var m := Fuse(l.blocks, k, hi);
    assert l2.blocks == Splice(l.blocks, k, hi, [m]);
    SpliceKeepsKeys(l, k, hi, [m], l2.index);
    if MergesRight(l.blocks, k) {
      RemoveKeepsSorted(l.index, IndexOf(l.index, l.blocks[k + 1].addr), SizeKey(l.blocks));
    }
    SortedDependsOnKeys(l2.index, SizeKey(l2.blocks), SizeKey(l.blocks));
  }

  lemma RightFrame(l: Layout, k: nat, l2: Layout)
    requires k < |l.blocks| && !MergesLeft(l.blocks, k) && FreeRight(FreeLeft(l, k), k) == Done(l2)
    ensures l2.start == l.start && l2.end == l.end && l2.limit == l.limit
  {
  }

  /** A free that does not merge to the left keeps the index sorted. */
  lemma FreeInOrder(l: Layout, ptr: nat)
    requires WellFormed(l) && InOrder(l) && IsLive(l, ptr) && Free(l, ptr).Done?
    requires !MergesLeft(l.blocks, At(l, ptr))
    ensures InOrder(Free(l, ptr).value)
  {
    var k := At(l, ptr);
    var l2 := FreeHalves(l, k);
    RightHalfInOrder(l, k, l2);
    EnlistInOrder(l2, l.blocks[k].addr);
  }

  // ----- freeing with a merge to the left -----

  /** The key of the hole that took in the block after it. */
  lemma GrownKey(l: Layout, k: nat)
    requires Shaped(l) && k < |l.blocks| && !l.blocks[k].hole && MergesLeft(l.blocks, k)
    ensures SizeKey(FreeLeft(l, k).blocks)(l.blocks[k - 1].addr) == l.blocks[k - 1].size + l.blocks[k].size
  {
    FreeLeftBlocks(l, k);
    FreeLeftNext(l, k);
    var l1 := FreeLeft(l, k);
    FindUnique(l1.blocks, l1.start, l1.end, k - 1);
    FuseAt(l, k - 1, k + 1);
  }

  /** The keys of all other holes. */
  lemma OtherKeys(l: Layout, k: nat, p: nat)
    requires WellFormed(l) && k < |l.blocks| && !l.blocks[k].hole && MergesLeft(l.blocks, k)
    requires p < |l.index| && l.index[p] == l.blocks[k - 1].addr
    ensures forall a :: a in RemoveAt(l.index, p) ==> SizeKey(FreeLeft(l, k).blocks)(a) == SizeKey(l.blocks)(a)
  {
    FreeLeftBlocks(l, k);
    RemovedIsGone(l, p);
    LiveNotIndexed(l, k);
    SpliceKeepsKeys(l, k - 1, k + 1, [Fuse(l.blocks, k - 1, k + 1)], RemoveAt(l.index, p));
  }

  lemma SortedParts(s: seq<nat>, p: nat, key: Key)
    requires p < |s| && Sorted(s, key)
    ensures Settled(s[..p], s[p + 1..], key) && Sorted(s[p + 1..], key)
    ensures forall i :: 0 <= i < p ==> key(s[..p][i]) <= key(s[p])
  {
  }

  lemma RekeyedParts(front: seq<nat>, rest: seq<nat>, f: Key, g: Key)
    requires Settled(front, rest, f) && Sorted(rest, f)
    requires forall a :: a in front + rest ==> g(a) == f(a)
    ensures Settled(front, rest, g) && Sorted(rest, g)
  {
    forall i | 0 <= i < |front| ensures g(front[i]) == f(front[i]) {
      assert front[i] in front + rest;
    }
    forall j | 0 <= j < |rest| ensures g(rest[j]) == f(rest[j]) {
      assert rest[j] in front + rest;
    }
  }

  // ----- the whole free after a merge to the left -----

  /** The size of the hole before block `k` once it has taken in the block. */
  function Joint(l: Layout, k: nat): nat
    requires 0 < k < |l.blocks|
  {
    l.blocks[k - 1].size + l.blocks[k].size
  }

  /** Whether the pass after the left merge moves the grown hole, which stood at position `p`. */
  predicate MovesPast(l: Layout, k: nat, p: nat)
    requires 0 < k < |l.blocks|
  {
    p + 1 < |l.index| && SizeAt(l.blocks, l.index[p + 1]) < Joint(l, k)
  }

  /** The entries in front of the grown hole after the pass. */
  function Before(l: Layout, k: nat, p: nat): seq<nat>
    requires 0 < k < |l.blocks| && p < |l.index|
  {
    if MovesPast(l, k, p) then l.index[..p] + [l.index[p + 1]] else l.index[..p]
  }

  /** The entries behind the grown hole after the pass. */
  function Behind(l: Layout, k: nat, p: nat): seq<nat>
    requires 0 < k < |l.blocks| && p < |l.index|
  {
    if MovesPast(l, k, p) then l.index[p + 2..] else l.index[p + 1..]
  }

  /** Position `p` holds the hole that block `k` merges into. */
  ghost predicate MergesInto(l: Layout, k: nat, p: nat) {
    && k < |l.blocks| && !l.blocks[k].hole && MergesLeft(l.blocks, k)
    && p < |l.index| && l.index[p] == l.blocks[k - 1].addr
  }

  lemma LeftIsPass(l: Layout, k: nat)
    requires MergesLeft(l.blocks, k)
    ensures FreeLeft(l, k).index == Pass(l.index, SizeKey(FreeLeft(l, k).blocks))
  {
  }

  lemma PassedIndex(l: Layout, k: nat, p: nat)
    requires WellFormed(l) && InOrder(l) && MergesInto(l, k, p)
    ensures FreeLeft(l, k).index == Before(l, k, p) + ([l.index[p]] + Behind(l, k, p))
  {
    hide FreeLeft, Pass, Shaped, Indexed;
    var x := l.index[p];
    var before, after := SizeKey(l.blocks), SizeKey(FreeLeft(l, k).blocks);
    LeftIsPass(l, k);
    assert before(x) <= after(x) && after(x) == Joint(l, k) by {
      ShapedOf(l);
      GrownKey(l, k);
      FindUnique(l.blocks, l.start, l.end, k - 1);
    }
    OtherKeys(l, k, p);
    PassAt(l.index, p, before, after);
    if p + 1 < |l.index| {
      assert l.index[p + 1] in RemoveAt(l.index, p) by { assert RemoveAt(l.index, p)[p] == l.index[p + 1]; }
    }
  }

  lemma ShapedOf(l: Layout)
    requires WellFormed(l)
    ensures Shaped(l) && Tiles(l.blocks, l.start, l.end)
  {
  }

  /** One pass over an array that was sorted before the key of its entry `p` grew. */
  lemma PassAt(s: seq<nat>, p: nat, before: Key, after: Key)
    requires p < |s| && Sorted(s, before) && before(s[p]) <= after(s[p])
    requires forall a :: a in RemoveAt(s, p) ==> after(a) == before(a)
    ensures Pass(s, after) ==
      if p + 1 < |s| && after(s[p + 1]) < after(s[p]) then (s[..p] + [s[p + 1]]) + ([s[p]] + s[p + 2..])
      else s[..p] + ([s[p]] + s[p + 1..])
  {
    var front, x, rest := s[..p], s[p], s[p + 1..];
    assert front + rest == RemoveAt(s, p);
    hide Pass, Sorted, Settled, RemoveAt;
    SplitAt(s, p);
    SortedParts(s, p, before);
    PassBetween(front, x, rest, before, after);
    MovedShape(front, x, rest);
  }

  lemma MovedShape(front: seq<nat>, x: nat, rest: seq<nat>)
    ensures rest != [] ==> front + ([rest[0], x] + rest[1..]) == (front + [rest[0]]) + ([x] + rest[1..])
  {
  }

  /** PassMovesGrownOnce for an array that was sorted under the keys before. */
  lemma PassBetween(front: seq<nat>, x: nat, rest: seq<nat>, before: Key, after: Key)
    requires Settled(front, rest, before) && Sorted(rest, before) && before(x) <= after(x)
    requires forall i :: 0 <= i < |front| ==> before(front[i]) <= before(x)
    requires forall a :: a in front + rest ==> after(a) == before(a)
    ensures Pass(front + ([x] + rest), after) ==
      front + if rest != [] && after(rest[0]) < after(x) then [rest[0], x] + rest[1..] else [x] + rest
  {
    hide Pass;
    RekeyedParts(front, rest, before, after);
    forall i | 0 <= i < |front| ensures after(front[i]) <= after(x) {
      assert front[i] in front + rest;
    }
    PassMovesGrownOnce(front, x, rest, after);
  }

  /**
   * An array that is sorted without `x`, and whose front is below `x`, is sorted exactly when `x` is below the rest.
   */
  lemma AroundGrown(a: seq<nat>, x: nat, b: seq<nat>, key: Key)
    requires Sorted(a + b, key) && forall y :: y in a ==> key(y) <= key(x)
    ensures Sorted(a + ([x] + b), key) <==> forall y :: y in b ==> key(x) <= key(y)
  {
    SortedTail(a, b, key);
    SortedTail(a, [x] + b, key);
    assert forall i :: 0 <= i < |a| ==> a[i] in a;
    assert forall i :: 0 <= i < |b| ==> b[i] in b;
    assert Settled(a, [x] + b, key);
    PrependSorted(x, b, key);
  }

  /** Removing an entry other than `x` from an array around `x`. */
  lemma RemoveAround(a: seq<nat>, x: nat, b: seq<nat>, i: nat) returns (a': seq<nat>, b': seq<nat>)
    requires i < |a + ([x] + b)| && i != |a|
    ensures RemoveAt(a + ([x] + b), i) == a' + ([x] + b')
    ensures exists j :: 0 <= j < |a + b| && (a + b)[j] == (a + ([x] + b))[i] && a' + b' == RemoveAt(a + b, j)
    ensures (forall y :: y in a' ==> y in a) && (forall y :: y in b' ==> y in b)
    ensures forall y :: y in b && y != (a + ([x] + b))[i] ==> y in b'
  {
    var s := a + ([x] + b);
    if i < |a| {
      a', b' := RemoveAt(a, i), b;
      assert (a + b)[i] == s[i] && a' + b' == RemoveAt(a + b, i);
    } else {
      var j := i - |a| - 1;
      a', b' := a, RemoveAt(b, j);
      assert (a + b)[i - 1] == s[i] && a' + b' == RemoveAt(a + b, i - 1);
      RemovedMembers(b, j);
    }
  }

  lemma RemovedMembers(b: seq<nat>, j: nat)
    requires j < |b|
    ensures forall y :: y in b && y != b[j] ==> y in RemoveAt(b, j)
  {
    assert b == b[..j] + [b[j]] + b[j + 1..];
  }

  lemma SizeOfChosen(l: Layout, k: nat)
    requires WellFormed(l) && k < |l.blocks|
    ensures SizeAt(l.blocks, l.blocks[k].addr) == l.blocks[k].size
  {
    FindUnique(l.blocks, l.start, l.end, k);
  }

  lemma AroundSplit(s: seq<nat>, p: nat)
    requires p < |s|
    ensures s[..p] + s[p + 1..] == RemoveAt(s, p)
    ensures p + 1 < |s| ==> (s[..p] + [s[p + 1]]) + s[p + 2..] == RemoveAt(s, p)
  {
  }

  /** The entries around the grown hole: all others, in their old order. */
  lemma AroundIndex(l: Layout, k: nat, p: nat)
    requires WellFormed(l) && InOrder(l) && MergesInto(l, k, p)
    ensures Before(l, k, p) + Behind(l, k, p) == RemoveAt(l.index, p)
    ensures Sorted(RemoveAt(l.index, p), SizeKey(l.blocks))
    ensures forall y :: y in Before(l, k, p) ==> SizeAt(l.blocks, y) <= Joint(l, k)
  {
    hide Sorted, WellFormed, SizeAt;
    RemoveKeepsSorted(l.index, p, SizeKey(l.blocks));
    SizeOfChosen(l, k - 1);
    forall y | y in Before(l, k, p) ensures SizeAt(l.blocks, y) <= Joint(l, k) {
      var i :| 0 <= i < |Before(l, k, p)| && Before(l, k, p)[i] == y;
      if i < p { SortedSizes(l.blocks, l.index, i, p); }
    }
    AroundSplit(l.index, p);
  }

  /** The hole at `y` is the one after block `k`, which the free takes in. */
  predicate TakenIn(l: Layout, k: nat, y: nat) {
    MergesRight(l.blocks, k) && y == l.blocks[k + 1].addr
  }

  /** What is left of the entries around the grown hole when the right neighbour's is removed. */
  ghost predicate Around(l: Layout, k: nat, p: nat, a: seq<nat>, b: seq<nat>) {
    && MergesInto(l, k, p)
    && (forall y :: y in a ==> y in Before(l, k, p))
    && (forall y :: y in b <==> y in Behind(l, k, p) && !TakenIn(l, k, y))
    && (forall y :: y in a + b ==> y in l.index && y != l.blocks[k - 1].addr && y != l.blocks[k].addr)
    && (forall y :: y in a + b && MergesRight(l.blocks, k) ==> y != l.blocks[k + 1].addr)
    && Sorted(a + b, SizeKey(l.blocks))
  }

  lemma OthersElsewhere(l: Layout, k: nat, p: nat)
    requires WellFormed(l) && MergesInto(l, k, p)
    ensures forall y :: y in RemoveAt(l.index, p) ==>
      y in l.index && y != l.blocks[k - 1].addr && y != l.blocks[k].addr
  {
    RemovedIsGone(l, p);
    LiveNotIndexed(l, k);
  }

  /** The index after both halves, split around the grown hole. */
  lemma FinalIndex(l: Layout, k: nat, p: nat, l2: Layout) returns (a: seq<nat>, b: seq<nat>)
    requires WellFormed(l) && InOrder(l) && MergesInto(l, k, p)
    requires FreeRight(FreeLeft(l, k), k - 1) == Done(l2)
    ensures l2.index == a + ([l.index[p]] + b) && Around(l, k, p, a, b)
  {
    hide FreeLeft, FreeRight, Pass, Before, Behind, Sorted, WellFormed, SizeAt, RemoveAt;
    PassedIndex(l, k, p);
    AroundIndex(l, k, p);
    OthersElsewhere(l, k, p);
    a, b := Before(l, k, p), Behind(l, k, p);
    RightStep(l, k, l2);
    if MergesRight(l.blocks, k) {
      var r := l.blocks[k + 1].addr;
      var x := l.index[p];
      var i := IndexOf(FreeLeft(l, k).index, r);
      NeighboursDiffer(l, k);
      var a', b' := RemoveAround(a, x, b, i);
      var j :| 0 <= j < |a + b| && (a + b)[j] == r && a' + b' == RemoveAt(a + b, j);
      RemoveKeepsSorted(a + b, j, SizeKey(l.blocks));
      OnceRemoved(l, p, j);
      SubMembers(a + b, j);
      a, b := a', b';
    }
  }

  lemma NeighboursDiffer(l: Layout, k: nat)
    requires WellFormed(l) && 0 < k && k + 1 < |l.blocks|
    ensures l.blocks[k - 1].addr != l.blocks[k + 1].addr
  {
    TilesOrdered(l.blocks, l.start, l.end, k - 1, k + 1);
  }

  lemma SubMembers(s: seq<nat>, j: nat)
    requires j < |s|
    ensures forall y :: y in RemoveAt(s, j) ==> y in s
  {
  }

  /** An address stands in the index once, so it is gone after two removals one of which is its own. */
  lemma OnceRemoved(l: Layout, p: nat, j: nat)
    requires WellFormed(l) && p < |l.index| && j < |RemoveAt(l.index, p)|
    ensures RemoveAt(l.index, p)[j] !in RemoveAt(RemoveAt(l.index, p), j)
  {
    var s := RemoveAt(l.index, p);
    HolesAtMostOne(l.blocks, l.start, l.end, s[j]);
    assert Occurs(l.index, s[j]) == Holes(l.blocks, s[j]);
    OccursRemoved(l.index, p, s[j]);
    OccursRemoved(s, j, s[j]);
    OccursIn(RemoveAt(s, j), s[j]);
  }

  /** What the right half does to the index. */
  lemma RightStep(l: Layout, k: nat, l2: Layout)
    requires WellFormed(l) && k < |l.blocks| && !l.blocks[k].hole && MergesLeft(l.blocks, k)
    requires FreeRight(FreeLeft(l, k), k - 1) == Done(l2)
    ensures l2.start == l.start && l2.end == l.end
    ensures !MergesRight(l.blocks, k) ==> l2.index == FreeLeft(l, k).index
    ensures MergesRight(l.blocks, k) ==>
      var s := FreeLeft(l, k).index;
      var i := IndexOf(s, l.blocks[k + 1].addr);
      i < |s| && l2.index == RemoveAt(s, i)
  {
    hide Pass;
    FreeLeftNext(l, k);
  }

  /**
   * A free that merges to the left keeps the index sorted exactly when no entry left behind the hole is smaller than
   * it.
   */
  lemma FreeInOrderIff(l: Layout, ptr: nat, p: nat)
    requires WellFormed(l) && InOrder(l) && IsLive(l, ptr) && MergesInto(l, At(l, ptr), p)
    ensures Free(l, ptr).Done?
    ensures InOrder(Free(l, ptr).value) <==>
      forall y :: y in Behind(l, At(l, ptr), p) && !TakenIn(l, At(l, ptr), y) ==>
        MergedSize(l, At(l, ptr)) <= SizeAt(l.blocks, y)
  {
    hide FreeLeft, FreeRight, Behind, Before, Sorted, Indexed;
    var k := At(l, ptr);
    var l2 := FreeHalves(l, k);
    var a, b := FinalIndex(l, k, p, l2);
    FinalKeys(l, k, p, l2, a, b);
    AroundGrown(a, l.index[p], b, SizeKey(l2.blocks));
  }

  /** The hole that a free with a merge to the left leaves. */
  function MergedSize(l: Layout, k: nat): nat
    requires 0 < k < |l.blocks|
  {
    Joint(l, k) + if MergesRight(l.blocks, k) then l.blocks[k + 1].size else 0
  }

  lemma FinalKeys(l: Layout, k: nat, p: nat, l2: Layout, a: seq<nat>, b: seq<nat>)
    requires WellFormed(l) && InOrder(l) && Around(l, k, p, a, b) && Shaped(l2)
    requires FreeRight(FreeLeft(l, k), k - 1) == Done(l2)
    ensures SizeKey(l2.blocks)(l.index[p]) == MergedSize(l, k)
    ensures forall y :: y in a + b ==> SizeKey(l2.blocks)(y) == SizeAt(l.blocks, y)
    ensures Sorted(a + b, SizeKey(l2.blocks)) && forall y :: y in a ==> SizeKey(l2.blocks)(y) <= MergedSize(l, k)
  {
    hide FreeLeft, FreeRight, Before, Behind, Sorted, Indexed;
    var hi := RightOf(l.blocks, k);
    HalvesBlocks(l, k, l2);
    RightStep(l, k, l2);
    var m := Fuse(l.blocks, k - 1, hi);
    assert l2.blocks[k - 1] == m;
    FindUnique(l2.blocks, l2.start, l2.end, k - 1);
    FusedSize(l, k);
    SpliceKeepsKeys(l, k - 1, hi, [m], a + b);
    SortedDependsOnKeys(a + b, SizeKey(l2.blocks), SizeKey(l.blocks));
    AroundIndex(l, k, p);
    forall y | y in a ensures SizeKey(l2.blocks)(y) <= MergedSize(l, k) {
      assert y in a + b;
    }
  }

  lemma FusedSize(l: Layout, k: nat)
    requires Shaped(l) && MergesLeft(l.blocks, k)
    ensures l.blocks[k - 1].addr <= l.blocks[RightOf(l.blocks, k) - 1].End()
    ensures Fuse(l.blocks, k - 1, RightOf(l.blocks, k)).size == MergedSize(l, k)
  {
    TilesAt(l.blocks, l.start, l.end, k - 1);
    TilesAt(l.blocks, l.start, l.end, k);
  }
}
