/** src/kheap.c: the heap as the kernel runs it, over raw memory, refining the layout functions. */
module KernelHeap {
  import opened Machine
  import opened OrderedArrays
  import opened HeapLayout
  import opened HeapAlloc
  import opened HeapFree
  import opened HeapTags
  import opened HeapRuns
  import opened HeapOrder
  import opened HeapMemory

  /** header->magic, is_hole and size */
  method WriteHeader(mem: array<Byte>, a: nat, size: nat, hole: bool)
    requires a + HEADER_SIZE <= mem.Length && size < WORD_LIMIT
    modifies mem
    ensures HeaderAt(mem[..], a, size, hole)
    ensures SameOutside(old(mem[..]), mem[..], a, a + HEADER_SIZE)
  {
    StoreWord(mem, a + 8, size);
    ghost var m1 := mem[..];
    StoreWord(mem, a, MAGIC);
    ghost var m2 := mem[..];
    WordFrame(m1, m2, a, a + 4, a + 8);
    StoreWord(mem, a + 4, if hole then 1 else 0);
    WordFrame(m2, mem[..], a + 4, a + 8, a);
    WordFrame(m2, mem[..], a + 4, a + 8, a + 8);
  }

  /** footer->magic and header */
  method WriteFooter(mem: array<Byte>, end: nat, header: nat)
    requires FOOTER_SIZE <= end <= mem.Length && header < WORD_LIMIT
    modifies mem
    ensures FooterAt(mem[..], end, header)
    ensures SameOutside(old(mem[..]), mem[..], end - FOOTER_SIZE, end)
  {
    StoreWord(mem, end - 8, MAGIC);
    ghost var m1 := mem[..];
    StoreWord(mem, end - 4, header);
    WordFrame(m1, mem[..], end - 4, end, end - 8);
  }

  /** Both tags of a block. */
  method WriteBlock(mem: array<Byte>, a: nat, size: nat, hole: bool)
    requires size >= TAGS && a + size <= mem.Length && a + size < WORD_LIMIT
    modifies mem
    ensures BlockTagged(mem[..], Block(a, size, hole, true))
    ensures SameOutside(old(mem[..]), mem[..], a, a + size)
    ensures forall x :: a + HEADER_SIZE <= x < a + size - FOOTER_SIZE ==> mem[x] == old(mem[x])
  {
    WriteHeader(mem, a, size, hole);
    ghost var m1 := mem[..];
    WriteFooter(mem, a + size, a);
    HeaderFrame(m1, mem[..], a + size - FOOTER_SIZE, a + size, a, size, hole);
    assert forall x :: a + HEADER_SIZE <= x < a + size - FOOTER_SIZE ==> mem[..][x] == m1[x];
  }

  /** The tags of the hole left in front; as written, line 223 then takes its size away again */
  method WriteFront(mem: array<Byte>, a: nat, offset: nat, corrected: bool)
    requires TAGS < offset && a + offset <= mem.Length && a + offset < WORD_LIMIT
    modifies mem
    ensures HeaderAt(mem[..], a, if corrected then offset else 0, true) && FooterAt(mem[..], a + offset, a)
    ensures SameOutside(old(mem[..]), mem[..], a, a + offset)
  {
    hide Word;
    WriteBlock(mem, a, offset, true);
    if !corrected {
      // left_header and orig_hole_header are one address
      ghost var m := mem[..];
      var size := LoadWord(mem, a + 8);
      StoreWord(mem, a + 8, size - offset);
      WordFrame(m, mem[..], a + 8, a + 12, a);
      WordFrame(m, mem[..], a + 8, a + 12, a + 4);
      WordFrame(m, mem[..], a + 8, a + 12, a + offset - 8);
      WordFrame(m, mem[..], a + 8, a + 12, a + offset - 4);
    }
  }

  lemma HeaderFrame(m: seq<Byte>, m': seq<Byte>, lo: nat, hi: nat, a: nat, size: nat, hole: bool)
    requires SameOutside(m, m', lo, hi) && HeaderAt(m, a, size, hole) && (a + HEADER_SIZE <= lo || hi <= a)
    ensures HeaderAt(m', a, size, hole)
  {
    WordFrame(m, m', lo, hi, a);
    WordFrame(m, m', lo, hi, a + 4);
    WordFrame(m, m', lo, hi, a + 8);
  }

  /** src/kheap.c:149-154: the header of the one hole of a new heap, and its entry in the empty index */
  method EnterFirst(mem: array<Byte>, index: OrderedArray, body: nat, end: nat)
    requires body + TAGS <= end <= mem.Length && end < WORD_LIMIT && Word(mem[..], end - 8) != MAGIC
    requires index.Valid() && index.Contents() == [] && index.elems.Length > 0
    requires mem as object != index.elems as object
    modifies mem, index`size, index.elems
    ensures index.Valid() && index.Contents() == [body]
    ensures Tagged(mem[..], [Block(body, end - body, true, false)])
    ensures SameOutside(old(mem[..]), mem[..], body, body + HEADER_SIZE)
  {
    hide Word, WordKey, SameOutside, Tagged, Pass;
    WriteHeader(mem, body, end - body, true);
    var m := mem[..];
    NewHoleTagged(old(mem[..]), m, body, end);
    SinglePass(body, WordKey(m));
    var done := index.Insert(body, WordKey(m));
    assert mem[..] == m;
  }

  class Heap {
    const mem: array<Byte>
    const index: OrderedArray
    const start: nat
    var end: nat
    const limit: nat
    ghost var blocks: seq<Block>

    /** The layout this heap stands for. */
    ghost function View(): Layout
      requires index.Valid()
      reads this, index, index.elems
    {
      Layout(start, end, limit, blocks, index.Contents())
    }

    ghost predicate Shape()
      reads this, mem, index, index.elems
    {
      && index.Valid() && index.elems.Length == INDEX_SIZE
      && mem as object != index.elems as object
      && limit <= mem.Length
      && Shaped(View()) && Tagged(mem[..], blocks)
    }

    /** Tiling, tags and index agree. */
    ghost predicate Valid()
      reads this, mem, index, index.elems
    {
      Shape() && WellFormed(View())
    }

    /** heap_create past its alignment assertions: one hole, without a footer. */
    constructor Init(mem: array<Byte>, start: nat, end: nat, limit: nat)
      requires start % PAGE_SIZE == 0 && end % PAGE_SIZE == 0 && Region(start, end, limit) && limit <= mem.Length
      requires Word(mem[..], end - 8) != MAGIC
      modifies mem
      ensures this.mem == mem && fresh(index) && fresh(index.elems)
      ensures Valid() && Create(start, end, limit) == Done(View())
      ensures SameOutside(old(mem[..]), mem[..], start + INDEX_BYTES, start + INDEX_BYTES + HEADER_SIZE)
    {
      this.mem := mem;
      index := new OrderedArray(INDEX_SIZE);
      var body := PageCeil(start + INDEX_BYTES);
      this.start := body;
      this.end := end;
      this.limit := limit;
      blocks := [Block(body, end - body, true, false)];
      new;
      hide WellFormed, Shaped, Coalesced, HeapOrder.InOrder, Word, SameOutside, Tagged;
      CreateWellFormed(start, end, limit);
      EnterFirst(mem, index, body, end);
      assert View() == Create(start, end, limit).value;
      WellFormedParts(View());
    }

    /** The size word of an indexed hole, as find_hole reads it. */
    lemma HoleHeader(i: nat)
      requires Valid() && i < index.size
      ensures var a := index.elems[i];
        a + HEADER_SIZE <= mem.Length && Word(mem[..], a + 8) == SizeAt(blocks, a) && a < ADDRESS_LIMIT
    {
      IndexedIsHole(View(), i);
      var k := Find(blocks, index.elems[i]);
      assert BlockTagged(mem[..], blocks[k]);
      TilesAt(blocks, start, end, k);
    }

    /** find_hole: the position of the first hole that fits, or -1 */
    method FindHole(size: nat, align: bool) returns (r: int)
      requires Valid()
      ensures r == if FirstFit(blocks, index.Contents(), size, align) < index.size
                   then FirstFit(blocks, index.Contents(), size, align) else -1
    {
      hide AlignOffset, FirstFit, WellFormed, Shaped, Tagged, SizeAt;
      var i := 0;
      while i < index.size
        invariant i <= index.size
        invariant forall j :: 0 <= j < i ==> !Fits(blocks, index.Contents()[j], size, align)
      {
        var entry := index.Index(i);
        var header := entry.value;
        HoleHeader(i);
        var holeSize := LoadWord(mem, header + 8);
        if holeSize - (if align then AlignOffset(header) else 0) >= size {
          return i;
        }
        i := i + 1;
      }
      return -1;
    }

    // ----- growth -----

    /** expand, without the mapping of the new pages */
    method Expand(size: nat) returns (r: Outcome<()>)
      requires start <= end
      modifies this`end
      ensures r == if PageCeil(size) <= old(end) - start then Panic(NotLarger)
                   else if start + PageCeil(size) > limit then Panic(HeapExhausted)
                   else Done(())
      ensures end == if r.Done? then start + PageCeil(size) else old(end)
    {
      var newSize := size;
      if newSize % PAGE_SIZE != 0 {
        newSize := PageFloor(newSize) + PAGE_SIZE;
      }
      var oldSize := end - start;
      if !(newSize > oldSize) { return Panic(NotLarger); }
      if !(start + newSize <= limit) { return Panic(HeapExhausted); }
      end := start + newSize;
      return Done(());
    }

    /** src/kheap.c:163-183 */
    method GrowHeap(need: nat) returns (r: Outcome<()>)
      requires Valid()
      modifies this, mem, index`size, index.elems
      ensures match Grow(old(View()), need)
        case Done(l) => r == Done(()) && Valid() && View() == l
        case Panic(f) => r == Panic(f)
      ensures r.Done? ==> SameOutside(old(mem[..]), mem[..], old(end), end)
    {
      hide PageCeil, Pass, Tagged, WellFormed, Shaped, BlockTagged;
      ghost var l, m := View(), mem[..];
      ShapedBounds(l);
      var oldLength := end - start;
      var oldEnd := end;
      GrownLengthAligned(l, need);
      r := Expand(oldLength + need + PAGE_SIZE);
      if r.Panic? { return; }
      var newLength := end - start;
      WriteBlock(mem, oldEnd, newLength - oldLength, true);
      ghost var hole := Block(oldEnd, end - oldEnd, true, true);
      blocks := blocks + [hole];
      var now := mem[..];
      AppendTagged(m, now, l, hole);
      r := index.Insert(oldEnd, WordKey(now));
      if r.Panic? { return; }
      GrowWellFormed(l, need);
      WellFormedParts(l);
      WellFormedParts(Grow(l, need).value);
      GrownKeys(l, hole, now);
      assert View() == Grow(l, need).value;
    }

    /** src/kheap.c:161-187; the assertion after growth holds */
    method LocateHole(need: nat, align: bool) returns (r: Outcome<nat>)
      requires Valid()
      modifies this, mem, index`size, index.elems
      ensures match Locate(old(View()), need, align)
        case Panic(f) => r == Panic(f)
        case Done(l) =>
          && Valid() && View() == l
          && r == Done(FirstFit(l.blocks, l.index, need, align)) && r.value < |l.index|
      ensures r.Done? ==> SameOutside(old(mem[..]), mem[..], old(end), end)
    {
      hide Grow, FirstFit, WellFormed, Shaped, Tagged;
      ghost var l := View();
      var i := FindHole(need, align);
      if i == -1 {
        var grown := GrowHeap(need);
        if grown.Panic? { return Panic(grown.fault); }
        i := FindHole(need, align);
        GrowthFits(l, need, align);
        assert i != -1;
      }
      return Done(i);
    }

    // ----- placing a block -----

    /** src/kheap.c:202-228: a hole of `offset` bytes in front; as written, its size ends up 0 */
    method SplitFront(i: nat, a: nat, offset: nat, corrected: bool)
      requires index.Valid() && mem as object != index.elems as object
      requires i < index.size && index.elems[i] == a
      requires TAGS < offset && a + offset <= mem.Length && a + offset < WORD_LIMIT
      modifies mem, index`size, index.elems
      ensures index.Valid() && index.size == old(index.size)
      ensures index.Contents() == Pass(RemoveAt(old(index.Contents()), i) + [a], WordKey(mem[..]))
      ensures HeaderAt(mem[..], a, if corrected then offset else 0, true) && FooterAt(mem[..], a + offset, a)
      ensures SameOutside(old(mem[..]), mem[..], a, a + offset)
    {
      hide Pass, Word, SameOutside;
      WriteFront(mem, a, offset, corrected);
      var now := mem[..];
      var removed := index.Remove(i);
      var entered := index.Insert(a, WordKey(now));
      assert mem[..] == now;
    }

    /** src/kheap.c:238-271, for a hole of `total` bytes at `a`; its two edge assertions hold */
    method PlaceBlock(a: nat, total: nat, size: nat) returns (r: Outcome<nat>)
      requires index.Valid() && mem as object != index.elems as object
      requires TAGS <= size <= total && a + total <= end <= mem.Length && end < WORD_LIMIT
      modifies mem, index`size, index.elems
      ensures index.Valid()
      ensures r == if 0 < total - size <= TAGS then Panic(RemainderTooSmall)
                   else if total > size && old(index.size) == index.elems.Length then Panic(IndexFull)
                   else Done(a + HEADER_SIZE)
      ensures BlockTagged(mem[..], Block(a, size, false, true))
      ensures r.Done? && size < total ==> BlockTagged(mem[..], Block(a + size, total - size, true, true))
      ensures r.Done? && size == total ==> index.Contents() == old(index.Contents())
      ensures r.Done? && size < total ==>
        index.Contents() == Pass(old(index.Contents()) + [a + size], WordKey(mem[..]))
      ensures SameOutside(old(mem[..]), mem[..], a, a + total)
    {
      hide Pass, BlockTagged, Word, WordKey;
      WriteBlock(mem, a, size, false);
      assert a + size - FOOTER_SIZE < end;
      if total - size > 0 {
        if !(total - size > TAGS) { return Panic(RemainderTooSmall); }
        ghost var m := mem[..];
        WriteBlock(mem, a + size, total - size, true);
        TagFrame(m, mem[..], a + size, a + total, Block(a, size, false, true));
        assert a + total - FOOTER_SIZE < end;
        var now := mem[..];
        var entered := index.Insert(a + size, WordKey(now));
        if entered.Panic? { return Panic(entered.fault); }
      }
      return Done(a + HEADER_SIZE);
    }

    /** Everything agrees except one header, whose size word is 0. */
    ghost predicate Damaged(a: nat)
      reads this, mem, index, index.elems
    {
      && index.Valid() && index.elems.Length == INDEX_SIZE && limit <= mem.Length
      && WellFormed(View())
      && TaggedBut(mem[..], blocks, a)
      && HeaderAt(mem[..], a, 0, true)
    }

    /** src/kheap.c:202-236: the entry of the hole goes, or becomes that of the hole left in front */
    method LeaveFront(i: nat, a: nat, offset: nat, corrected: bool)
      requires index.Valid() && mem as object != index.elems as object && i < index.size && index.elems[i] == a
      requires (offset == 0 || offset > TAGS) && a + offset <= mem.Length && a + offset < WORD_LIMIT
      modifies mem, index`size, index.elems
      ensures index.Valid() && SameOutside(old(mem[..]), mem[..], a, a + offset)
      ensures offset > 0 ==> HeaderAt(mem[..], a, if corrected then offset else 0, true)
      ensures offset > 0 ==> FooterAt(mem[..], a + offset, a)
      ensures offset > 0 ==> index.Contents() == Pass(RemoveAt(old(index.Contents()), i) + [a], WordKey(mem[..]))
      ensures offset == 0 ==> index.Contents() == RemoveAt(old(index.Contents()), i)
    {
      hide Pass, HeaderAt, FooterAt, SameOutside, RemoveAt, WordKey;
      if offset > 0 {
        SplitFront(i, a, offset, corrected);
      } else {
        SameOutsideSelf(mem[..], a);
        var removed := index.Remove(i);
        assert mem[..] == old(mem[..]);
      }
    }

    /** src/kheap.c:189-271 for a chosen hole, offset and size. */
    method PlaceAt(i: nat, offset: nat, size: nat, corrected: bool) returns (r: Outcome<nat>)
      requires Valid() && i < index.size && Find(blocks, index.elems[i]) < |blocks|
      requires offset + size <= Chosen(View(), i).size && (offset == 0 || offset > TAGS) && size >= TAGS
      modifies this`blocks, mem, index`size, index.elems
      ensures match CarveAt(old(View()), i, offset, size)
        case Panic(f) => r == Panic(f)
        case Done(p) =>
          && r == Done(p.ptr)
          && blocks == p.layout.blocks
          && (if corrected || offset == 0 then Valid() && View() == p.layout else Damaged(p.ptr - HEADER_SIZE - offset))
      ensures var h := Chosen(old(View()), i); SameOutside(old(mem[..]), mem[..], h.addr, h.End())
    {
      hide Pass, CarveAt, CarveFront, Tagged, Shaped, WellFormed, BlockTagged, HeaderAt, FooterAt, TaggedBut;
      hide SizeAt, Word, SameOutside, Find, WordKey, Indexed, RemoveAt;
      ghost var l, m := View(), mem[..];
      HoleHeader(i);
      ChosenBounds(l, i);
      CarveAtPanics(l, i, offset, size);
      var a := index.elems[i];
      var total := LoadWord(mem, a + 8);
      LeaveFront(i, a, offset, corrected);
      ghost var m1, c1 := mem[..], index.Contents();
      r := PlaceBlock(a + offset, total - offset, size);
      SameOutsideJoin(m, m1, mem[..], a, a + offset, a + total);
      FrontLength(l, i, offset, size, m1, c1);
      if r.Done? {
        blocks := CarveAt(l, i, offset, size).value.layout.blocks;
        Placement(l, i, offset, size, m, m1, mem[..], c1, index.Contents(), corrected);
      }
    }

    /** src/kheap.c:189-209: where in the hole the block goes and how large it gets; the assertion holds */
    method Measure(i: nat, need: nat, align: bool) returns (offset: nat, size: nat)
      requires Valid() && i < index.size && Find(blocks, index.elems[i]) < |blocks| && need >= TAGS
      requires Chosen(View(), i).size - CarveOffset(Chosen(View(), i), align) >= need
      ensures var h := Chosen(View(), i);
        && offset == CarveOffset(h, align) && size == BlockSize(h, need)
        && offset + size <= h.size && (offset == 0 || offset > TAGS) && size >= TAGS
    {
      hide AlignOffset, WellFormed, Shaped, Tagged;
      var a := index.elems[i];
      HoleHeader(i);
      ChosenBounds(View(), i);
      CarveRoom(Chosen(View(), i), need, align);
      AlignOffsetZero(a);
      var total := LoadWord(mem, a + 8);
      size := need;
      if total - need <= TAGS { size := total; }
      offset := 0;
      if align && (a + HEADER_SIZE) % PAGE_SIZE != 0 {
        offset := AlignOffset(a);
        assert offset > TAGS;
      }
    }

    /** heap_alloc; `corrected` says whether the left hole of an aligned split keeps its size */
    method AllocWith(request: nat, align: bool, corrected: bool) returns (r: Outcome<nat>)
      requires Valid() && request < REQUEST_LIMIT
      modifies this, mem, index`size, index.elems
      ensures Allocated(old(View()), request, align, corrected, r)
      ensures r.Done? ==> Untouched(old(mem[..]), old(blocks), mem[..], blocks)
    {
      hide HeapAlloc.Alloc, Locate, FirstFit, AlignOffset, WellFormed, Shaped, Tagged, SameOutside, Untouched, CarveAt;
      hide Heap.Damaged;
      ghost var l, m := View(), mem[..];
      var need := request + TAGS;
      AllocStops(l, request, align);
      var found := LocateHole(need, align);
      if found.Panic? { return Panic(found.fault); }
      ghost var l1, m1 := View(), mem[..];
      TargetExists(l, need, align);
      var offset, size := Measure(found.value, need, align);
      AllocCarves(l, request, align, offset, size);
      PlacedPointer(l1, found.value, offset, size);
      r := PlaceAt(found.value, offset, size, corrected);
      if r.Done? {
        CarvedGone(l1, found.value, offset, size);
        AllocUntouched(l, l1, found.value, m, m1, mem[..], blocks);
      }
    }

    /** heap_alloc as written */
    method Alloc(request: nat, align: bool) returns (r: Outcome<nat>)
      requires Valid() && request < REQUEST_LIMIT
      modifies this, mem, index`size, index.elems
      ensures Allocated(old(View()), request, align, false, r)
      ensures r.Done? ==> Untouched(old(mem[..]), old(blocks), mem[..], blocks)
      ensures r.Done? ==> HeapAlloc.Alloc(old(View()), request, align).Done?
      ensures r.Done? ==> (Valid() <==> PlacedOffset(old(View()), request, align) == 0)
    {
      r := AllocWith(request, align, false);
      if r.Done? { ValidIffNoOffset(old(View()), request, align, r); }
    }

    /** Allocation as written leaves a valid heap exactly when the block starts where its hole did. */
    lemma ValidIffNoOffset(l: Layout, request: nat, align: bool, r: Outcome<nat>)
      requires WellFormed(l) && Allocated(l, request, align, false, r) && r.Done?
      ensures HeapAlloc.Alloc(l, request, align).Done?
      ensures Valid() <==> PlacedOffset(l, request, align) == 0
    {
      hide HeapAlloc.Alloc, PlacedOffset, WellFormed, TaggedBut, Tagged, Shaped;
      if PlacedOffset(l, request, align) != 0 {
        var k := OffsetLeavesHole(l, request, align);
        DamageBreaksTags(mem[..], blocks, blocks[k].addr, k);
      }
    }

    /** heap_alloc with src/kheap.c:223 corrected */
    method AllocCorrected(request: nat, align: bool) returns (r: Outcome<nat>)
      requires Valid() && request < REQUEST_LIMIT
      modifies this, mem, index`size, index.elems
      ensures Allocated(old(View()), request, align, true, r)
      ensures r.Done? ==> Untouched(old(mem[..]), old(blocks), mem[..], blocks)
    {
      r := AllocWith(request, align, true);
    }

    /**
     * The outcome of the specification. The new state refines it, unless the block was aligned
     * behind a hole in front: as written, that hole's size is lost.
     */
    ghost predicate Allocated(l: Layout, request: nat, align: bool, corrected: bool, r: Outcome<nat>)
      requires WellFormed(l)
      reads this, mem, index, index.elems
    {
      match HeapAlloc.Alloc(l, request, align)
      case Panic(f) => r == Panic(f)
      case Done(p) =>
        var offset := PlacedOffset(l, request, align);
        && r == Done(p.ptr) && blocks == p.layout.blocks
        && (if corrected || offset == 0 then Valid() && View() == p.layout
            else offset + HEADER_SIZE <= p.ptr && Damaged(p.ptr - HEADER_SIZE - offset))
    }

    // ----- freeing -----

    /** header->is_hole = TRUE */
    method MarkHole(a: nat, ghost k: nat)
      requires Shape() && k < |blocks| && blocks[k].addr == a && !blocks[k].hole
      modifies this`blocks, mem
      ensures Shape() && blocks == old(blocks)[k := old(blocks)[k].(hole := true)]
      ensures SameOutside(old(mem[..]), mem[..], a, old(blocks)[k].End())
    {
      hide Tagged, Shaped, Word;
      ghost var l, m, b := View(), mem[..], blocks[k];
      BlockAt(l, m, k);
      StoreWord(mem, a + 4, 1);
      MarkedTags(m, mem[..], b);
      MarkedShape(l, m, mem[..], k);
      blocks := blocks[k := b.(hole := true)];
    }

    /** src/kheap.c:291-297: is there a hole to the left, and where does it start? The assertion holds. */
    method LeftHole(a: nat, ghost k: nat) returns (found: bool, left: nat)
      requires Shape() && k < |blocks| && blocks[k].addr == a
      ensures found == MergesLeft(blocks, k)
      ensures found ==> left == blocks[k - 1].addr
    {
      hide Tagged, Shaped, Word;
      BlockAt(View(), mem[..], k);
      left := 0;
      if !(a - FOOTER_SIZE > start) { return false, 0; }
      BlockAt(View(), mem[..], k - 1);
      var magic := LoadWord(mem, a - 8);
      if magic != MAGIC { return false, 0; }
      left := LoadWord(mem, a - 4);
      var isHole := LoadWord(mem, left + 4);
      found := isHole != 0;
      if found {
        var leftMagic := LoadWord(mem, left);
        assert leftMagic == MAGIC;
      }
    }

    /** src/kheap.c:298-308: the hole at `left` takes in the block at `a`, and one pass is made. */
    method MergeLeft(left: nat, a: nat, ghost k: nat)
      requires Shape() && 0 < k < |blocks| && blocks[k].addr == a && blocks[k].hole && blocks[k].footed
      requires blocks[k - 1].addr == left && MergesLeft(blocks, k)
      modifies this`blocks, mem, index.elems
      ensures Shape()
      ensures blocks == Splice(old(blocks), k - 1, k + 1,
        [Block(left, old(blocks)[k - 1].size + old(blocks)[k].size, true, true)])
      ensures index.Contents() == Pass(old(index.Contents()), WordKey(mem[..]))
      ensures SameOutside(old(mem[..]), mem[..], left, old(blocks)[k].End())
    {
      hide Tagged, Shaped, Word, Pass, SameOutside;
      ghost var l, m, b := View(), mem[..], blocks[k];
      BlockAt(l, m, k);
      BlockAt(l, m, k - 1);
      var size := LoadWord(mem, a + 8);
      StoreWord(mem, a + size - 4, left);
      ghost var m1 := mem[..];
      WordFrame(m, m1, a + size - 4, a + size, left + 8);
      var leftSize := LoadWord(mem, left + 8);
      StoreWord(mem, left + 8, leftSize + size);
      var now := mem[..];
      JoinedTags(m, m1, now, blocks[k - 1], b);
      JoinedShape(l, m, now, k - 1);
      blocks := Splice(blocks, k - 1, k + 1, [Block(left, leftSize + size, true, true)]);
      index.ChangedElement(WordKey(now));
      ShapedIgnoresIndex(l.(blocks := blocks), index.Contents());
      assert mem[..] == now;
    }

    /** src/kheap.c:312-314: is there a hole to the right? */
    method RightHole(h: nat, ghost k: nat) returns (found: bool, right: nat)
      requires Shape() && k < |blocks| && blocks[k].addr == h
      ensures found == MergesRight(blocks, k)
      ensures found ==> right == blocks[k + 1].addr
    {
      hide Tagged, Shaped, Word;
      BlockAt(View(), mem[..], k);
      var size := LoadWord(mem, h + 8);
      right := h + size;
      if !(right < end) {
        NothingBeyond(View(), k);
        return false, right;
      }
      NextExists(View(), k);
      BlockAt(View(), mem[..], k + 1);
      var magic := LoadWord(mem, right);
      var isHole := LoadWord(mem, right + 4);
      found := magic == MAGIC && isHole != 0;
    }

    /** src/kheap.c:323-333: find the entry of a hole and remove it; the assertion holds. */
    method Forget(a: nat)
      requires index.Valid() && a in index.Contents()
      modifies index`size, index.elems
      ensures index.Valid() && index.Contents() == RemoveAt(old(index.Contents()), IndexOf(old(index.Contents()), a))
    {
      hide RemoveAt;
      var i := 0;
      while i < index.size
        invariant index.Valid() && i <= index.size && index.Contents() == old(index.Contents())
        invariant forall j :: 0 <= j < i ==> index.Contents()[j] != a
      {
        var entry := index.Index(i);
        if entry.value == a { break; }
        i := i + 1;
      }
      FirstIsIndexOf(index.Contents(), a, i);
      var removed := index.Remove(i);
    }

    /** src/kheap.c:315-321: the hole at `h` takes in the hole at `right`; the assertion holds. */
    method JoinRight(h: nat, right: nat, ghost k: nat)
      requires Shape() && k + 1 < |blocks| && blocks[k].addr == h && blocks[k].hole && blocks[k + 1].addr == right
      modifies this`blocks, mem
      ensures Shape() && blocks == Splice(old(blocks), k, k + 2,
        [Block(h, old(blocks)[k].size + old(blocks)[k + 1].size, true, true)])
      ensures SameOutside(old(mem[..]), mem[..], h, old(blocks)[k + 1].End())
    {
      hide Tagged, Shaped, Word, SameOutside;
      ghost var l, m := View(), mem[..];
      BlockAt(l, m, k);
      BlockAt(l, m, k + 1);
      var size := LoadWord(mem, h + 8);
      var rightSize := LoadWord(mem, right + 8);
      StoreWord(mem, h + 8, size + rightSize);
      ghost var m1 := mem[..];
      WordFrame(m, m1, h + 8, h + 12, right + rightSize - 8);
      var magic := LoadWord(mem, h + size + rightSize - 8);
      assert magic == MAGIC;
      StoreWord(mem, h + size + rightSize - 4, h);
      FusedTags(m, m1, mem[..], blocks[k], blocks[k + 1]);
      JoinedShape(l, m, mem[..], k);
      blocks := Splice(blocks, k, k + 2, [Block(h, size + rightSize, true, true)]);
    }

    /** src/kheap.c:315-333 */
    method MergeRight(h: nat, right: nat, ghost k: nat)
      requires Shape() && MergesRight(blocks, k) && blocks[k].addr == h && blocks[k].hole
      requires blocks[k + 1].addr == right && right in index.Contents()
      modifies this`blocks, mem, index`size, index.elems
      ensures Shape() && FreeRight(old(View()), k) == Done(View())
      ensures SameOutside(old(mem[..]), mem[..], h, old(blocks)[k + 1].End())
    {
      hide Tagged, Shaped, Word, SameOutside, Splice, RemoveAt, IndexOf;
      JoinRight(h, right, k);
      ghost var l1, m1 := View(), mem[..];
      Forget(right);
      ShapedIgnoresIndex(l1, index.Contents());
      assert mem[..] == m1;
    }

    /** src/kheap.c:285-309 */
    method FreeLeftHalf(a: nat, ghost k: nat) returns (merged: bool, h: nat)
      requires Valid() && k < |blocks| && blocks[k].addr == a && !blocks[k].hole
      modifies this`blocks, mem, index.elems
      ensures Shape() && View() == FreeLeft(old(View()), k)
      ensures merged == MergesLeft(old(blocks), k) && h == old(blocks)[LeftOf(old(blocks), k)].addr
      ensures SameOutside(old(mem[..]), mem[..], h, old(blocks)[k].End())
    {
      hide Tagged, Shaped, WellFormed, Pass, SameOutside, Word;
      ghost var l, m := View(), mem[..];
      BlockAt(l, m, k);
      MarkHole(a, k);
      ghost var m1 := mem[..];
      var left;
      merged, left := LeftHole(a, k);
      h := a;
      if merged {
        MergeLeft(left, a, k);
        h := left;
        SameOutsideWiden(m, m1, mem[..], left, a, l.blocks[k].End());
        LeftKeys(l, k, mem[..]);
      }
    }

    /** src/kheap.c:311-334 */
    method FreeRightHalf(h: nat, ghost k: nat)
      requires Shape() && k < |blocks| && blocks[k].addr == h && blocks[k].hole
      requires FreeRight(View(), k).Done?
      modifies this`blocks, mem, index`size, index.elems
      ensures Shape() && FreeRight(old(View()), k) == Done(View())
      ensures SameOutside(old(mem[..]), mem[..], h, old(blocks)[RightOf(old(blocks), k) - 1].End())
    {
      hide Tagged, Shaped;
      var found, right := RightHole(h, k);
      if found {
        MergeRight(h, right, k);
      }
    }

    /** src/kheap.c:280-284: the tags of the block to be freed are in place, so neither assertion fails */
    method CheckTags(a: nat, ghost k: nat)
      requires Shape() && k < |blocks| && !blocks[k].hole && blocks[k].addr == a
    {
      hide Tagged, Shaped, Word;
      BlockAt(View(), mem[..], k);
      var magic := LoadWord(mem, a);
      var size := LoadWord(mem, a + 8);
      var footerMagic := LoadWord(mem, a + size - 8);
      assert magic == MAGIC && footerMagic == MAGIC;
    }

    /** heap_free: of null, nothing; of a live pointer, what the specification says. Its assertions hold. */
    method Free(ptr: nat) returns (r: Outcome<()>)
      requires Valid() && (ptr == 0 || IsLive(View(), ptr))
      modifies this`blocks, mem, index`size, index.elems
      ensures ptr == 0 ==> r == Done(()) && Valid() && View() == old(View()) && mem[..] == old(mem[..])
      ensures ptr != 0 ==> match HeapFree.Free(old(View()), ptr)
        case Panic(f) => r == Panic(f)
        case Done(l) => r == Done(()) && Valid() && View() == l
      ensures r.Done? ==> Untouched(old(mem[..]), old(blocks), mem[..], blocks)
    {
      hide Tagged, Shaped, WellFormed, FreeLeft, FreeRight, SameOutside, Pass, Word, Untouched;
      hide HeapFree.Free, Find, WordKey, SizeKey, IndexedBut;
      hide BlockTagged, FooterAt, MergesLeft, MergesRight, RightOf, IndexOf;
      ghost var l, m := View(), mem[..];
      if ptr == 0 {
        NothingWritten(m, blocks);
        return Done(());
      }
      ghost var k := At(l, ptr);
      ghost var lo := LeftOf(blocks, k);
      var a := ptr - HEADER_SIZE;
      CheckTags(a, k);
      ghost var l2 := FreeHalves(l, k);
      FreeIs(l, ptr, l2);
      FreeLeftNext(l, k);
      FreeWellFormed(l, ptr);
      var merged, h := FreeLeftHalf(a, k);
      ghost var m1 := mem[..];
      FreeRightHalf(h, lo);
      var now := mem[..];
      if !merged {
        var entered := index.Insert(h, WordKey(now));
        if entered.Panic? { return Panic(entered.fault); }
        EnlistKeys(l2, h, now);
      }
      WellFormedParts(View());
      FreeSpan(l, k, m, m1, now);
      FreeUntouched(l, ptr, m, now);
      return Done(());
    }

    ghost function Now(): State
      requires index.Valid()
      reads this, mem, index, index.elems
    {
      State(View(), mem[..])
    }

    /** One step of a run; aligned requests use the corrected line, unaligned ones the code as written. */
    method Perform(op: Op) returns (r: Outcome<nat>)
      requires Valid() && Proper(View(), Operate(op))
      modifies this, mem, index`size, index.elems
      ensures r.Done? ==> Valid() && old(WellFormed(View())) && Operates(old(Now()), op, Now())
      ensures match After(old(View()), Operate(op))
        case Done(l) => r.Done? && View() == l
        case Panic(f) => r == Panic(f)
      ensures r.Panic? ==> r.fault in {HeapExhausted, IndexFull, RemainderTooSmall}
      ensures r == Panic(RemainderTooSmall) ==> op.Request? && op.align
    {
      hide HeapAlloc.Alloc, HeapFree.Free, Tagged, WellFormed, Untouched;
      match op
      case Request(n, align) =>
        if HeapAlloc.Alloc(View(), n, align).Panic? { AllocFaults(View(), n, align); }
        if align {
          r := AllocCorrected(n, true);
        } else {
          r := Alloc(n, false);
        }
        if r.Done? { TaggedMembers(mem[..], blocks); }
      case Release(p) =>
        if p != 0 { FreeWellFormed(View(), p); }
        var done := Free(p);
        r := if done.Done? then Done(p) else Panic(done.fault);
        if r.Done? { TaggedMembers(mem[..], blocks); }
    }

    /** A caller's write to one byte of a live payload. */
    method Poke(x: nat, v: Byte)
      requires Valid() && InPayload(blocks, x)
      modifies mem
      ensures Valid() && x < mem.Length && mem[..] == old(mem[..])[x := v]
    {
      hide Tagged, WellFormed, Shaped;
      PokeInMemory(Now(), x);
      PokeKeepsConsistent(Now(), x, v);
      mem[x] := v;
      assert mem[..] == old(mem[..])[x := v];
      WellFormedParts(View());
    }

    /**
     * Any proper sequence of requests, releases and payload writes, on memory. It ends as the layouts say; the states
     * it goes through are a trace, so tags, tiling and index agree throughout; and a byte of a payload that stays
     * live changes only when its owner writes to it.
     */
    method Execute(acts: seq<Action>) returns (r: Outcome<()>, ghost states: seq<State>)
      requires Valid() && ProperRun(View(), acts)
      modifies this, mem, index`size, index.elems
      ensures match Play(old(View()), acts)
        case Done(l) => r == Done(()) && Valid() && View() == l
        case Panic(f) => r == Panic(f)
      ensures r.Done? ==> Trace(states, acts) && states[0] == old(Now()) && states[|acts|] == Now()
      ensures r.Done? ==> forall b: Block, x: nat ::
        LiveThroughout(states, b) && InPayloadOf(b, x) && !Poked(acts, x) ==>
          x < mem.Length && mem[x] == old(mem[x])
    {
      hide Tagged, WellFormed, Shaped, Operates, After, Proper;
      states := [Now()];
      var i := 0;
      StartTrace(Now(), acts);
      while i < |acts|
        invariant i <= |acts| && Valid() && WellFormed(View())
        invariant |states| == i + 1 && states[0] == old(Now()) && states[i] == Now() && Trace(states, acts[..i])
        invariant ProperRun(View(), acts[i..]) && Play(View(), acts[i..]) == Play(old(View()), acts)
      {
        ghost var s := Now();
        assert acts[i..][0] == acts[i] && acts[i..][1..] == acts[i + 1..];
        if acts[i].Operate? {
          var done := Perform(acts[i].op);
          if done.Panic? { return Panic(done.fault), states; }
        } else {
          PokeIsProper(View(), acts[i]);
          Poke(acts[i].at, acts[i].value);
        }
        TraceExtends(states, acts, i, Now());
        states := states + [Now()];
        i := i + 1;
      }
      assert acts[..|acts|] == acts;
      PayloadsSurvive(states, acts);
      return Done(()), states;
    }
  }

  /** heap_create, its alignment assertions included */
  method HeapCreate(mem: array<Byte>, start: nat, end: nat, limit: nat) returns (r: Outcome<Heap>)
    requires Region(start, end, limit) && limit <= mem.Length
    requires Word(mem[..], end - 8) != MAGIC
    modifies mem
    ensures match Create(start, end, limit)
      case Panic(f) => r == Panic(f) && f == Misaligned && mem[..] == old(mem[..])
      case Done(l) => r.Done? && fresh(r.value) && r.value.mem == mem && r.value.Valid() && r.value.View() == l
    ensures r.Panic? <==> start % PAGE_SIZE != 0 || end % PAGE_SIZE != 0
  {
    if start % PAGE_SIZE != 0 || end % PAGE_SIZE != 0 {
      return Panic(Misaligned);
    }
    var heap := new Heap.Init(mem, start, end, limit);
    return Done(heap);
  }

  /** The first allocation from the kernel's heap: a page directory of 8196 bytes, aligned (src/mm/paging.c:122). */
  lemma FirstCloneOffset(l: Layout)
    requires Region(0x0F00_0000, 0x0F01_0000, 0x0FFF_F000)
    requires Create(0x0F00_0000, 0x0F01_0000, 0x0FFF_F000) == Done(l) && WellFormed(l)
    ensures HeapAlloc.Alloc(l, 8196, true).Done? && PlacedOffset(l, 8196, true) == 4084
  {
    hide HeapAlloc.Alloc, WellFormed;
    FindUnique(l.blocks, l.start, l.end, 0);
    assert FirstFit(l.blocks, l.index, 8216, true) == 0;
    assert Target(l, 8216, true) == l.blocks[0];
    AlignedPanics(l, 8196, l);
  }

  /** So the heap the kernel starts with is damaged by its first use. */
  method FirstCloneDamages(mem: array<Byte>) returns (heap: Heap, r: Outcome<nat>)
    requires mem.Length >= 0x0FFF_F000 && Word(mem[..], 0x0F01_0000 - 8) != MAGIC
    modifies mem
    ensures r.Done? && !heap.Valid()
  {
    hide WellFormed, HeapAlloc.Alloc, PlacedOffset, Tagged;
    assert Region(0x0F00_0000, 0x0F01_0000, 0x0FFF_F000);
    heap := new Heap.Init(mem, 0x0F00_0000, 0x0F01_0000, 0x0FFF_F000);
    FirstCloneOffset(heap.View());
    r := heap.Alloc(8196, true);
  }

  lemma FirstIsIndexOf(s: seq<nat>, a: nat, i: nat)
    requires a in s && i <= |s| && (i < |s| ==> s[i] == a) && forall j :: 0 <= j < i ==> s[j] != a
    ensures i < |s| && IndexOf(s, a) == i
  {
    hide IndexOf;
    var n := IndexOf(s, a);
    assert n < |s| && s[n] == a;
  }

  lemma SameOutsideSelf(m: seq<Byte>, a: nat)
    ensures SameOutside(m, m, a, a)
  {
  }

  /** The one hole of a new heap: a header, and no footer. */
  lemma NewHoleTagged(m: seq<Byte>, m': seq<Byte>, a: nat, end: nat)
    requires a + TAGS <= end <= |m| && Word(m, end - 8) != MAGIC
    requires SameOutside(m, m', a, a + HEADER_SIZE) && HeaderAt(m', a, end - a, true)
    ensures Tagged(m', [Block(a, end - a, true, false)])
  {
    hide Word;
    WordFrame(m, m', a, a + HEADER_SIZE, end - 8);
  }

  lemma SinglePass(a: nat, key: Key)
    ensures Pass([] + [a], key) == [a]
  {
    assert [] + [a] == [a];
  }

  lemma TaggedMembers(m: seq<Byte>, bs: seq<Block>)
    requires Tagged(m, bs)
    ensures forall b: Block :: b in bs ==> BlockTagged(m, b)
  {
    hide BlockTagged;
  }

  lemma ShapedBounds(l: Layout)
    requires Shaped(l)
    ensures PAGE_SIZE <= l.start < l.end <= l.limit <= ADDRESS_LIMIT
  {
  }

  lemma AppendTagged(m: seq<Byte>, m': seq<Byte>, l: Layout, b: Block)
    requires Shaped(l) && Tagged(m, l.blocks) && BlockTagged(m', b) && b.addr == l.end
    requires SameOutside(m, m', b.addr, b.End())
    ensures Tagged(m', l.blocks + [b])
  {
    forall i | 0 <= i < |l.blocks| ensures BlockTagged(m', l.blocks[i]) {
      TilesAt(l.blocks, l.start, l.end, i);
      TagFrame(m, m', b.addr, b.End(), l.blocks[i]);
    }
  }

  /** The comparator sees the layout's sizes when the new hole is entered. */
  lemma GrownKeys(l: Layout, b: Block, m: seq<Byte>)
    requires Indexed(l) && Tagged(m, l.blocks + [b]) && b.hole
    requires Tiles(l.blocks + [b], l.start, b.End())
    ensures Pass(l.index + [b.addr], WordKey(m)) == Pass(l.index + [b.addr], SizeKey(l.blocks + [b]))
  {
    forall a | a in l.index + [b.addr] ensures Holes(l.blocks + [b], a) > 0 {
      HolesConcat(l.blocks, [b], a);
      CountsSingle(b, a, b);
      if a in l.index { OccursIn(l.index, a); }
    }
    TaggedKeys(m, l.blocks + [b], l.start, b.End(), l.index + [b.addr]);
    PassDependsOnKeys(l.index + [b.addr], WordKey(m), SizeKey(l.blocks + [b]));
  }

  /** Every block but the one at `a` is tagged; of that one, a hole, the footer is right. */
  ghost predicate TaggedBut(m: seq<Byte>, bs: seq<Block>, a: nat) {
    forall i :: 0 <= i < |bs| ==>
      if bs[i].addr != a then BlockTagged(m, bs[i]) else bs[i].hole && bs[i].size > 0 && FooterAt(m, bs[i].End(), a)
  }

  /** A header whose size word is 0 no longer leads to the next block. */
  lemma DamageBreaksTags(m: seq<Byte>, bs: seq<Block>, a: nat, k: nat)
    requires TaggedBut(m, bs, a) && HeaderAt(m, a, 0, true) && k < |bs| && bs[k].addr == a
    ensures !Tagged(m, bs)
  {
    assert !BlockTagged(m, bs[k]);
  }

  // ----- lemmas for PlaceAt -----

  lemma CarveFrontFrame(l: Layout, i: nat, offset: nat, size: nat)
    requires i < |l.index| && Find(l.blocks, l.index[i]) < |l.blocks| && offset + size <= Chosen(l, i).size
    ensures var l1, k := CarveFront(l, i, offset, size), Find(l.blocks, l.index[i]);
      && l1.start == l.start && l1.end == l.end && l1.limit == l.limit
      && l1.blocks == Splice(l.blocks, k, k + 1, Pieces(l.blocks[k], offset, size))
  {
  }

  lemma ChosenBounds(l: Layout, i: nat)
    requires WellFormed(l) && i < |l.index| && Find(l.blocks, l.index[i]) < |l.blocks|
    ensures var h := Chosen(l, i);
      && h.hole && h.addr == l.index[i] && SizeAt(l.blocks, h.addr) == h.size && h.size >= TAGS
      && l.start <= h.addr && h.End() <= l.end <= l.limit <= ADDRESS_LIMIT
  {
    IndexedIsHole(l, i);
    TilesAt(l.blocks, l.start, l.end, Find(l.blocks, l.index[i]));
  }

  /** An index with the same entries in another order is as good. */
  lemma Reindexed(l: Layout, s: seq<nat>)
    requires WellFormed(l) && |s| == |l.index| && forall x :: Occurs(s, x) == Occurs(l.index, x)
    ensures WellFormed(l.(index := s))
  {
    var l' := l.(index := s);
    forall x ensures Occurs(l'.index, x) == Holes(l'.blocks, x) {
      assert Occurs(s, x) == Occurs(l.index, x);
    }
  }

  /** After the first phase the index is that of the specification, or a rearrangement when a size is wrong. */
  lemma FrontIndex(l: Layout, i: nat, offset: nat, size: nat, m: seq<Byte>, m1: seq<Byte>, c1: seq<nat>,
                   corrected: bool)
    requires WellFormed(l) && Tagged(m, l.blocks) && i < |l.index| && Find(l.blocks, l.index[i]) < |l.blocks|
    requires offset + size <= Chosen(l, i).size && (offset == 0 || offset > TAGS) && size >= TAGS
    requires var a := l.index[i];
      if offset > 0 then
        && c1 == Pass(RemoveAt(l.index, i) + [a], WordKey(m1)) && SameOutside(m, m1, a, a + offset)
        && HeaderAt(m1, a, if corrected then offset else 0, true)
      else c1 == RemoveAt(l.index, i)
    ensures var l1 := CarveFront(l, i, offset, size);
      && ((corrected || offset == 0) && Shaped(l1) ==> c1 == l1.index)
      && |c1| == |l1.index| && forall x :: Occurs(c1, x) == Occurs(l1.index, x)
  {
    hide Pass;
    var a := l.index[i];
    var s := RemoveAt(l.index, i) + [a];
    var l1 := CarveFront(l, i, offset, size);
    if offset > 0 {
      forall x ensures Occurs(c1, x) == Occurs(l1.index, x) {
        OccursPassed(s, WordKey(m1), x);
        OccursPassed(s, SizeKey(l1.blocks), x);
      }
      if corrected && Shaped(l1) {
        FrontKeys(l, i, offset, size, m, m1);
        PassDependsOnKeys(s, WordKey(m1), SizeKey(l1.blocks));
      }
    }
  }

  lemma FrontLength(l: Layout, i: nat, offset: nat, size: nat, m1: seq<Byte>, c1: seq<nat>)
    requires i < |l.index| && Find(l.blocks, l.index[i]) < |l.blocks| && offset + size <= Chosen(l, i).size
    requires c1 == if offset > 0 then Pass(RemoveAt(l.index, i) + [l.index[i]], WordKey(m1)) else RemoveAt(l.index, i)
    ensures |c1| == |l.index| - (if offset > 0 then 0 else 1)
  {
    hide Pass;
  }

  /** The keys seen when the hole in front is entered. */
  lemma FrontKeys(l: Layout, i: nat, offset: nat, size: nat, m: seq<Byte>, m1: seq<Byte>)
    requires WellFormed(l) && Tagged(m, l.blocks) && i < |l.index| && Find(l.blocks, l.index[i]) < |l.blocks|
    requires 0 < offset && offset + size <= Chosen(l, i).size && Shaped(CarveFront(l, i, offset, size))
    requires SameOutside(m, m1, l.index[i], l.index[i] + offset) && HeaderAt(m1, l.index[i], offset, true)
    ensures forall x :: x in RemoveAt(l.index, i) + [l.index[i]] ==>
      WordKey(m1)(x) == SizeKey(CarveFront(l, i, offset, size).blocks)(x)
  {
    hide Pass, CarveFront, Tagged, WellFormed;
    var a, k := l.index[i], Find(l.blocks, l.index[i]);
    var l1 := CarveFront(l, i, offset, size);
    var removed := RemoveAt(l.index, i);
    ChosenBounds(l, i);
    RemovedIsGone(l, i);
    FrontPiece(l, i, offset, size);
    WellFormedParts(l);
    SpliceKeepsKeys(l, k, k + 1, Pieces(l.blocks[k], offset, size), removed);
    FindUnique(l1.blocks, l1.start, l1.end, k);
    forall x | x in removed ensures WordKey(m1)(x) == SizeKey(l1.blocks)(x) {
      var n :| 0 <= n < |l.index| && l.index[n] == x;
      OtherHeader(l, k, n, offset, m, m1);
    }
  }

  lemma FrontPiece(l: Layout, i: nat, offset: nat, size: nat)
    requires i < |l.index| && Find(l.blocks, l.index[i]) < |l.blocks|
    requires 0 < offset && offset + size <= Chosen(l, i).size
    ensures var k, l1 := Find(l.blocks, l.index[i]), CarveFront(l, i, offset, size);
      && l1.blocks == Splice(l.blocks, k, k + 1, Pieces(l.blocks[k], offset, size))
      && k < |l1.blocks| && l1.blocks[k] == Block(l.index[i], offset, true, true)
      && l1.start == l.start && l1.end == l.end
  {
  }

  /** A write inside one hole leaves the header of every other hole alone. */
  lemma OtherHeader(l: Layout, k: nat, n: nat, offset: nat, m: seq<Byte>, m1: seq<Byte>)
    requires WellFormed(l) && Tagged(m, l.blocks) && k < |l.blocks| && n < |l.index|
    requires l.index[n] != l.blocks[k].addr && offset <= l.blocks[k].size
    requires SameOutside(m, m1, l.blocks[k].addr, l.blocks[k].addr + offset)
    ensures WordKey(m1)(l.index[n]) == SizeKey(l.blocks)(l.index[n])
  {
    IndexedIsHole(l, n);
    var j := Find(l.blocks, l.index[n]);
    assert BlockTagged(m, l.blocks[j]);
    if j < k { TilesOrdered(l.blocks, l.start, l.end, j, k); } else { TilesOrdered(l.blocks, l.start, l.end, k, j); }
    TagFrame(m, m1, l.blocks[k].addr, l.blocks[k].addr + offset, l.blocks[j]);
  }

  lemma PlacedTags(l: Layout, i: nat, offset: nat, size: nat, m: seq<Byte>, m1: seq<Byte>, m2: seq<Byte>,
                   corrected: bool)
    requires WellFormed(l) && Tagged(m, l.blocks) && i < |l.index| && Find(l.blocks, l.index[i]) < |l.blocks|
    requires offset + size <= Chosen(l, i).size && (offset == 0 || offset > TAGS) && size >= TAGS
    requires var h := Chosen(l, i);
      && SameOutside(m, m1, h.addr, h.addr + offset)
      && (offset > 0 ==> HeaderAt(m1, h.addr, if corrected then offset else 0, true))
      && (offset > 0 ==> FooterAt(m1, h.addr + offset, h.addr))
      && SameOutside(m1, m2, h.addr + offset, h.End())
      && BlockTagged(m2, Block(h.addr + offset, size, false, true))
      && (offset + size < h.size ==> BlockTagged(m2, Block(h.addr + offset + size, h.size - offset - size, true, true)))
    ensures var l1, a := CarveFront(l, i, offset, size), Chosen(l, i).addr;
      && (corrected || offset == 0 ==> Tagged(m2, l1.blocks))
      && (!corrected && offset > 0 ==> TaggedBut(m2, l1.blocks, a) && HeaderAt(m2, a, 0, true))
  {
    hide BlockTagged, HeaderAt, FooterAt, Tagged, TaggedBut, Pieces, CarveFront, WellFormed, SameOutside, Tiles;
    var k, h := Find(l.blocks, l.index[i]), Chosen(l, i);
    PiecesTagged(h, offset, size, m1, m2, corrected);
    WellFormedParts(l);
    SameOutsideJoin(m, m1, m2, h.addr, h.addr + offset, h.End());
    ReplacedTags(l.blocks, l.start, l.end, k, offset, size, m, m2, corrected);
    CarveFrontFrame(l, i, offset, size);
  }

  lemma ReplacedTags(bs: seq<Block>, lo: nat, hi: nat, k: nat, offset: nat, size: nat, m: seq<Byte>, m2: seq<Byte>,
                     corrected: bool)
    requires Tiles(bs, lo, hi) && Tagged(m, bs) && k < |bs| && offset + size <= bs[k].size
    requires SameOutside(m, m2, bs[k].addr, bs[k].End())
    requires corrected || offset == 0 ==> Tagged(m2, Pieces(bs[k], offset, size))
    requires !corrected && offset > 0 ==> TaggedBut(m2, Pieces(bs[k], offset, size), bs[k].addr)
    ensures var bs' := Splice(bs, k, k + 1, Pieces(bs[k], offset, size));
      && (corrected || offset == 0 ==> Tagged(m2, bs'))
      && (!corrected && offset > 0 ==> TaggedBut(m2, bs', bs[k].addr))
  {
    hide BlockTagged, HeaderAt, FooterAt, Tagged, TaggedBut, Pieces, SameOutside, Tiles;
    TilesAt(bs, lo, hi, k);
    if corrected || offset == 0 {
      SpliceTagged(m, m2, bs, lo, hi, k, k + 1, Pieces(bs[k], offset, size));
    } else {
      SpliceTaggedBut(m, m2, bs, lo, hi, k, Pieces(bs[k], offset, size));
    }
  }

  /** The tags of the pieces, after both phases. */
  lemma PiecesTagged(h: Block, offset: nat, size: nat, m1: seq<Byte>, m2: seq<Byte>, corrected: bool)
    requires offset + size <= h.size && (offset == 0 || offset > TAGS) && size >= TAGS
    requires offset > 0 ==> HeaderAt(m1, h.addr, if corrected then offset else 0, true)
    requires offset > 0 ==> FooterAt(m1, h.addr + offset, h.addr)
    requires SameOutside(m1, m2, h.addr + offset, h.End())
    requires BlockTagged(m2, Block(h.addr + offset, size, false, true))
    requires offset + size < h.size ==>
      BlockTagged(m2, Block(h.addr + offset + size, h.size - offset - size, true, true))
    ensures corrected || offset == 0 ==> Tagged(m2, Pieces(h, offset, size))
    ensures !corrected && offset > 0 ==> TaggedBut(m2, Pieces(h, offset, size), h.addr) && HeaderAt(m2, h.addr, 0, true)
  {
    hide Word;
    if offset > 0 {
      HeaderFrame(m1, m2, h.addr + offset, h.End(), h.addr, if corrected then offset else 0, true);
      WordFrame(m1, m2, h.addr + offset, h.End(), h.addr + offset - 8);
      WordFrame(m1, m2, h.addr + offset, h.End(), h.addr + offset - 4);
      assert FooterAt(m2, h.addr + offset, h.addr);
      if corrected { assert BlockTagged(m2, Block(h.addr, offset, true, true)); }
    }
    hide BlockTagged, HeaderAt, FooterAt;
  }

  lemma SpliceTaggedBut(m: seq<Byte>, m': seq<Byte>, bs: seq<Block>, start: nat, end: nat, k: nat, ps: seq<Block>)
    requires Tiles(bs, start, end) && k < |bs| && Tagged(m, bs)
    requires SameOutside(m, m', bs[k].addr, bs[k].End()) && TaggedBut(m', ps, bs[k].addr)
    ensures TaggedBut(m', Splice(bs, k, k + 1, ps), bs[k].addr)
  {
    hide BlockTagged, FooterAt, Tiles, SameOutside;
    var r := Splice(bs, k, k + 1, ps);
    TilesAt(bs, start, end, k);
    forall x | 0 <= x < |r| && !(k <= x < k + |ps|) ensures r[x].addr != bs[k].addr && BlockTagged(m', r[x]) {
      var y := if x < k then x else x - |ps| + 1;
      assert r[x] == bs[y];
      if y < k { TilesOrdered(bs, start, end, y, k); } else { TilesOrdered(bs, start, end, k, y); }
      TagFrame(m, m', bs[k].addr, bs[k].End(), bs[y]);
    }
    assert forall x :: k <= x < k + |ps| ==> r[x] == ps[x - k];
  }

  /** What PlaceAt leaves behind. */
  lemma Placement(l: Layout, i: nat, offset: nat, size: nat,
                  m: seq<Byte>, m1: seq<Byte>, m2: seq<Byte>, c1: seq<nat>, c2: seq<nat>, corrected: bool)
    requires WellFormed(l) && Tagged(m, l.blocks) && i < |l.index| && Find(l.blocks, l.index[i]) < |l.blocks|
    requires offset + size <= Chosen(l, i).size && (offset == 0 || offset > TAGS) && size >= TAGS
    requires CarveAt(l, i, offset, size).Done?
    requires var h := Chosen(l, i);
      && SameOutside(m, m1, h.addr, h.addr + offset)
      && (offset > 0 ==> HeaderAt(m1, h.addr, if corrected then offset else 0, true))
      && (offset > 0 ==> FooterAt(m1, h.addr + offset, h.addr))
      && SameOutside(m1, m2, h.addr + offset, h.End())
      && BlockTagged(m2, Block(h.addr + offset, size, false, true))
      && (offset + size < h.size ==> BlockTagged(m2, Block(h.addr + offset + size, h.size - offset - size, true, true)))
    requires var h := Chosen(l, i);
      && c1 == (if offset > 0 then Pass(RemoveAt(l.index, i) + [l.index[i]], WordKey(m1)) else RemoveAt(l.index, i))
      && c2 == (if offset + size == h.size then c1 else Pass(c1 + [h.addr + offset + size], WordKey(m2)))
    ensures var p, a := CarveAt(l, i, offset, size).value.layout, Chosen(l, i).addr;
      && CarveAt(l, i, offset, size).value.ptr == a + offset + HEADER_SIZE
      && p.start == l.start && p.end == l.end && p.limit == l.limit && Shaped(p.(index := c2))
      && (corrected || offset == 0 ==> Tagged(m2, p.blocks) && c2 == p.index && WellFormed(p))
      && (!corrected && offset > 0 ==>
            TaggedBut(m2, p.blocks, a) && HeaderAt(m2, a, 0, true) && WellFormed(p.(index := c2)))
  {
    hide Pass, CarveFront, BlockTagged, Tagged, TaggedBut, HeaderAt, FooterAt, CarveAt;
    CarveAtPanics(l, i, offset, size);
    CarveFrontShaped(l, i, offset, size);
    ChosenBounds(l, i);
    FrontIndex(l, i, offset, size, m, m1, c1, corrected);
    PlacedTags(l, i, offset, size, m, m1, m2, corrected);
    PlacedIndex(l, i, offset, size, m2, c1, c2, corrected);
    CarveAtBlocks(l, i, offset, size);
    CarveAtWellFormed(l, i, offset, size);
    CarveFrontFrame(l, i, offset, size);
    Reindexed(CarveAt(l, i, offset, size).value.layout, c2);
  }

  /** After the second phase, likewise. */
  lemma PlacedIndex(l: Layout, i: nat, offset: nat, size: nat, m2: seq<Byte>, c1: seq<nat>, c2: seq<nat>,
                    corrected: bool)
    requires WellFormed(l) && i < |l.index| && Find(l.blocks, l.index[i]) < |l.blocks|
    requires offset + size <= Chosen(l, i).size && (offset == 0 || offset > TAGS) && size >= TAGS
    requires CarveAt(l, i, offset, size).Done?
    requires var l1, h := CarveFront(l, i, offset, size), Chosen(l, i);
      && (corrected || offset == 0 ==> c1 == l1.index && Tagged(m2, l1.blocks))
      && |c1| == |l1.index| && (forall x :: Occurs(c1, x) == Occurs(l1.index, x))
      && c2 == (if offset + size == h.size then c1 else Pass(c1 + [h.addr + offset + size], WordKey(m2)))
    ensures var r := CarveAt(l, i, offset, size).value.layout;
      && (corrected || offset == 0 ==> c2 == r.index)
      && |c2| == |r.index| && forall x :: Occurs(c2, x) == Occurs(r.index, x)
  {
    hide Pass, CarveFront, Occurs, WellFormed, Tagged, WordKey, SizeKey;
    var l1, h := CarveFront(l, i, offset, size), Chosen(l, i);
    if offset + size < h.size {
      var right := h.addr + offset + size;
      forall x ensures Occurs(c2, x) == Occurs(CarveAt(l, i, offset, size).value.layout.index, x) {
        OccursPassed(c1 + [right], WordKey(m2), x);
        OccursPassed(l1.index + [right], SizeKey(l1.blocks), x);
        OccursAppended(c1, right, x);
        OccursAppended(l1.index, right, x);
      }
      if corrected || offset == 0 {
        forall x | x in c1 + [right] ensures Holes(l1.blocks, x) > 0 {
          CarveFrontIndexed(l, i, offset, size, x);
          OccursIn(c1, x);
        }
        CarveFrontShaped(l, i, offset, size);
        TaggedKeys(m2, l1.blocks, l1.start, l1.end, c1 + [right]);
        PassDependsOnKeys(c1 + [right], WordKey(m2), SizeKey(l1.blocks));
      }
    }
  }

  // ----- lemmas for Alloc -----

  lemma AlignOffsetZero(a: nat)
    ensures AlignOffset(a) == 0 <==> (a + HEADER_SIZE) % PAGE_SIZE == 0
    ensures AlignOffset(a) > 0 ==> AlignOffset(a) > TAGS
  {
  }

  lemma PlacedPointer(l: Layout, i: nat, offset: nat, size: nat)
    requires i < |l.index| && Find(l.blocks, l.index[i]) < |l.blocks| && offset + size <= Chosen(l, i).size
    ensures CarveAt(l, i, offset, size).Done? ==>
      CarveAt(l, i, offset, size).value.ptr == Chosen(l, i).addr + offset + HEADER_SIZE
  {
  }

  lemma AllocUntouched(l: Layout, l1: Layout, i: nat, m: seq<Byte>, m1: seq<Byte>, m2: seq<Byte>, bs: seq<Block>)
    requires Shaped(l) && WellFormed(l1) && i < |l1.index| && Find(l1.blocks, l1.index[i]) < |l1.blocks|
    requires l.blocks <= l1.blocks && Chosen(l1, i) !in bs
    requires SameOutside(m, m1, l.end, l1.end)
    requires SameOutside(m1, m2, Chosen(l1, i).addr, Chosen(l1, i).End())
    ensures Untouched(m, l.blocks, m2, bs)
  {
    var k := Find(l1.blocks, l1.index[i]);
    forall b: Block | b in l.blocks && b in bs ensures BlockKept(m, m2, b) {
      var j :| 0 <= j < |l.blocks| && l.blocks[j] == b;
      assert l1.blocks[j] == b && j != k;
      TilesAt(l.blocks, l.start, l.end, j);
      if j < k {
        TilesOrdered(l1.blocks, l1.start, l1.end, j, k);
      } else {
        TilesOrdered(l1.blocks, l1.start, l1.end, k, j);
      }
    }
  }

  /** A block that is spliced out is not in the result, unless the replacement has it. */
  lemma SplicedOut(bs: seq<Block>, lo: nat, hi: nat, i: nat, j: nat, ps: seq<Block>, x: nat)
    requires Tiles(bs, lo, hi) && i <= x < j <= |bs| && bs[x] !in ps
    ensures bs[x] !in Splice(bs, i, j, ps)
  {
    forall y | 0 <= y < |bs| && y != x ensures bs[y] != bs[x] {
      if y < x { TilesOrdered(bs, lo, hi, y, x); } else { TilesOrdered(bs, lo, hi, x, y); }
    }
    assert forall y :: 0 <= y < i ==> bs[..i][y] == bs[y];
    assert forall y :: 0 <= y < |bs| - j ==> bs[j..][y] == bs[y + j];
  }

  /** The hole a block was carved from is no longer there. */
  lemma CarvedGone(l: Layout, i: nat, offset: nat, size: nat)
    requires WellFormed(l) && i < |l.index| && Find(l.blocks, l.index[i]) < |l.blocks|
    requires offset + size <= Chosen(l, i).size && size > 0 && CarveAt(l, i, offset, size).Done?
    ensures Chosen(l, i) !in CarveAt(l, i, offset, size).value.layout.blocks
  {
    hide CarveAt;
    var k := Find(l.blocks, l.index[i]);
    IndexedIsHole(l, i);
    CarveAtBlocks(l, i, offset, size);
    SplicedOut(l.blocks, l.start, l.end, k, k + 1, Pieces(l.blocks[k], offset, size), k);
  }

  // ----- lemmas for Free -----

  lemma BlockAt(l: Layout, m: seq<Byte>, k: nat)
    requires Shaped(l) && Tagged(m, l.blocks) && k < |l.blocks|
    ensures BlockTagged(m, l.blocks[k]) && l.start <= l.blocks[k].addr && l.blocks[k].End() <= l.end <= l.limit
    ensures PAGE_SIZE <= l.start && l.limit <= ADDRESS_LIMIT
    ensures k == 0 <==> l.blocks[k].addr == l.start
    ensures k > 0 ==> l.start + TAGS <= l.blocks[k].addr == l.blocks[k - 1].End()
    ensures l.blocks[k].footed || (k == 0 && l.blocks[k].hole)
    ensures l.blocks[k].End() == Bound(l.blocks, k + 1, l.end)
  {
    TilesAt(l.blocks, l.start, l.end, k);
    if k > 0 { TilesAt(l.blocks, l.start, l.end, k - 1); }
  }

  lemma MarkedTags(m: seq<Byte>, m': seq<Byte>, b: Block)
    requires BlockTagged(m, b) && b.footed && SameOutside(m, m', b.addr + 4, b.addr + 8) && Word(m', b.addr + 4) == 1
    ensures BlockTagged(m', b.(hole := true)) && SameOutside(m, m', b.addr, b.End())
  {
    hide Word;
    WordFrame(m, m', b.addr + 4, b.addr + 8, b.addr);
    WordFrame(m, m', b.addr + 4, b.addr + 8, b.addr + 8);
    WordFrame(m, m', b.addr + 4, b.addr + 8, b.End() - 8);
    WordFrame(m, m', b.addr + 4, b.addr + 8, b.End() - 4);
  }

  lemma MarkedShape(l: Layout, m: seq<Byte>, m': seq<Byte>, k: nat)
    requires Shaped(l) && Tagged(m, l.blocks) && k < |l.blocks| && l.blocks[k].footed
    requires SameOutside(m, m', l.blocks[k].addr, l.blocks[k].End())
    requires BlockTagged(m', l.blocks[k].(hole := true))
    ensures var bs := l.blocks[k := l.blocks[k].(hole := true)]; Shaped(l.(blocks := bs)) && Tagged(m', bs)
  {
    hide BlockTagged, Shaped;
    var b := l.blocks[k].(hole := true);
    BlockAt(l, m, k);
    FuseShaped(l, k, k + 1);
    SpliceTagged(m, m', l.blocks, l.start, l.end, k, k + 1, [b]) by { ShapedTiles(l); }
    assert l.blocks[k := b] == Splice(l.blocks, k, k + 1, [b]);
    assert b == Fuse(l.blocks, k, k + 1);
  }

  lemma ShapedTiles(l: Layout)
    requires Shaped(l)
    ensures Tiles(l.blocks, l.start, l.end)
  {
  }

  /** Two stores make one tagged hole of a hole and the hole after it. */
  lemma JoinedTags(m: seq<Byte>, m1: seq<Byte>, m2: seq<Byte>, x: Block, y: Block)
    requires BlockTagged(m, x) && BlockTagged(m, y) && x.hole && y.footed && x.End() == y.addr
    requires SameOutside(m, m1, y.End() - 4, y.End()) && Word(m1, y.End() - 4) == x.addr
    requires SameOutside(m1, m2, x.addr + 8, x.addr + 12) && Word(m2, x.addr + 8) == x.size + y.size
    ensures BlockTagged(m2, Block(x.addr, x.size + y.size, true, true)) && SameOutside(m, m2, x.addr, y.End())
  {
    hide Word;
    WordFrame(m, m1, y.End() - 4, y.End(), x.addr);
    WordFrame(m, m1, y.End() - 4, y.End(), x.addr + 4);
    WordFrame(m, m1, y.End() - 4, y.End(), y.End() - 8);
    WordFrame(m1, m2, x.addr + 8, x.addr + 12, x.addr);
    WordFrame(m1, m2, x.addr + 8, x.addr + 12, x.addr + 4);
    WordFrame(m1, m2, x.addr + 8, x.addr + 12, y.End() - 8);
    WordFrame(m1, m2, x.addr + 8, x.addr + 12, y.End() - 4);
  }

  lemma JoinedShape(l: Layout, m: seq<Byte>, m': seq<Byte>, k: nat)
    requires Shaped(l) && Tagged(m, l.blocks) && k + 1 < |l.blocks|
    requires SameOutside(m, m', l.blocks[k].addr, l.blocks[k + 1].End())
    requires BlockTagged(m', Block(l.blocks[k].addr, l.blocks[k].size + l.blocks[k + 1].size, true, true))
    ensures var joined := Block(l.blocks[k].addr, l.blocks[k].size + l.blocks[k + 1].size, true, true);
      var bs := Splice(l.blocks, k, k + 2, [joined]);
      Shaped(l.(blocks := bs)) && Tagged(m', bs)
  {
    hide BlockTagged, Shaped;
    BlockAt(l, m, k + 1);
    FuseAt(l, k, k + 2);
    FuseShaped(l, k, k + 2);
    ShapedTiles(l);
    SpliceTagged(m, m', l.blocks, l.start, l.end, k, k + 2, [Fuse(l.blocks, k, k + 2)]);
  }

  lemma NothingBeyond(l: Layout, k: nat)
    requires Shaped(l) && k < |l.blocks| && l.blocks[k].End() >= l.end
    ensures k + 1 == |l.blocks|
  {
    TilesAt(l.blocks, l.start, l.end, k);
    if k + 1 < |l.blocks| { TilesAt(l.blocks, l.start, l.end, k + 1); }
  }

  lemma NextExists(l: Layout, k: nat)
    requires Shaped(l) && k < |l.blocks| && l.blocks[k].End() < l.end
    ensures k + 1 < |l.blocks| && l.blocks[k + 1].addr == l.blocks[k].End()
  {
    TilesAt(l.blocks, l.start, l.end, k);
  }

  /** The two stores in the other order, as the right merge makes them. */
  lemma FusedTags(m: seq<Byte>, m1: seq<Byte>, m2: seq<Byte>, x: Block, y: Block)
    requires BlockTagged(m, x) && BlockTagged(m, y) && x.hole && y.footed && x.End() == y.addr
    requires SameOutside(m, m1, x.addr + 8, x.addr + 12) && Word(m1, x.addr + 8) == x.size + y.size
    requires SameOutside(m1, m2, y.End() - 4, y.End()) && Word(m2, y.End() - 4) == x.addr
    ensures BlockTagged(m2, Block(x.addr, x.size + y.size, true, true)) && SameOutside(m, m2, x.addr, y.End())
  {
    hide Word;
    WordFrame(m, m1, x.addr + 8, x.addr + 12, x.addr);
    WordFrame(m, m1, x.addr + 8, x.addr + 12, x.addr + 4);
    WordFrame(m, m1, x.addr + 8, x.addr + 12, y.End() - 8);
    WordFrame(m1, m2, y.End() - 4, y.End(), x.addr);
    WordFrame(m1, m2, y.End() - 4, y.End(), x.addr + 4);
    WordFrame(m1, m2, y.End() - 4, y.End(), x.addr + 8);
    WordFrame(m1, m2, y.End() - 4, y.End(), y.End() - 8);
  }

  lemma SameOutsideWiden(m: seq<Byte>, m1: seq<Byte>, m2: seq<Byte>, lo: int, mid: int, hi: int)
    requires SameOutside(m, m1, mid, hi) && SameOutside(m1, m2, lo, hi) && lo <= mid
    ensures SameOutside(m, m2, lo, hi)
  {
  }

  /** The keys of the pass after a left merge are the sizes of the merged layout. */
  lemma LeftKeys(l: Layout, k: nat, m: seq<Byte>)
    requires WellFormed(l) && k < |l.blocks| && !l.blocks[k].hole && MergesLeft(l.blocks, k)
    requires Tagged(m, FreeLeft(l, k).blocks)
    ensures Pass(l.index, WordKey(m)) == FreeLeft(l, k).index
    ensures var b := l.blocks[k].(hole := true);
      Splice(l.blocks[k := b], k - 1, k + 1, [Block(l.blocks[k - 1].addr, l.blocks[k - 1].size + b.size, true, true)])
      == FreeLeft(l, k).blocks
  {
    hide Pass;
    var l1 := FreeLeft(l, k);
    FreeLeftKeeps(l, k);
    forall a | a in l.index ensures Holes(l1.blocks, a) > 0 {
      FreeLeftIndex(l, k, a);
      OccursIn(l.index, a);
    }
    TaggedKeys(m, l1.blocks, l1.start, l1.end, l.index);
    PassDependsOnKeys(l.index, WordKey(m), SizeKey(l1.blocks));
    MarkedSplice(l.blocks, k);
  }

  lemma MarkedSplice(bs: seq<Block>, k: nat)
    requires 0 < k < |bs|
    ensures var b := bs[k].(hole := true);
      forall m: Block :: Splice(bs[k := b], k - 1, k + 1, [m]) == Splice(bs, k - 1, k + 1, [m])
  {
  }

  lemma NothingWritten(m: seq<Byte>, bs: seq<Block>)
    ensures Untouched(m, bs, m, bs)
  {
  }

  lemma FreeIs(l: Layout, ptr: nat, l2: Layout)
    requires IsLive(l, ptr) && FreeRight(FreeLeft(l, At(l, ptr)), LeftOf(l.blocks, At(l, ptr))) == Done(l2)
    ensures HeapFree.Free(l, ptr) ==
      if MergesLeft(l.blocks, At(l, ptr)) then Done(l2) else Enlist(l2, l.blocks[At(l, ptr)].addr)
  {
  }

  lemma EnlistKeys(l: Layout, b: nat, m: seq<Byte>)
    requires Shaped(l) && IndexedBut(l, true, b) && Tagged(m, l.blocks)
    ensures Pass(l.index + [b], WordKey(m)) == Pass(l.index + [b], SizeKey(l.blocks))
  {
    hide Pass;
    forall a | a in l.index + [b] ensures Holes(l.blocks, a) > 0 {
      OccursIn(l.index, a);
    }
    TaggedKeys(m, l.blocks, l.start, l.end, l.index + [b]);
    PassDependsOnKeys(l.index + [b], WordKey(m), SizeKey(l.blocks));
  }

  /** Both halves write only under the blocks that became one hole. */
  lemma FreeSpan(l: Layout, k: nat, m: seq<Byte>, m1: seq<Byte>, m2: seq<Byte>)
    requires Shaped(l) && k < |l.blocks| && !l.blocks[k].hole
    requires var lo := LeftOf(l.blocks, k);
      && SameOutside(m, m1, l.blocks[lo].addr, l.blocks[k].End())
      && lo < |FreeLeft(l, k).blocks|
      && var bs := FreeLeft(l, k).blocks; SameOutside(m1, m2, l.blocks[lo].addr, bs[RightOf(bs, lo) - 1].End())
    ensures var lo, hi := LeftOf(l.blocks, k), RightOf(l.blocks, k);
      SameOutside(m, m2, l.blocks[lo].addr, l.blocks[hi - 1].End())
  {
    FreeLeftNext(l, k);
    FuseAt(l, LeftOf(l.blocks, k), k + 1);
    FuseAt(l, LeftOf(l.blocks, k), RightOf(l.blocks, k));
    if MergesRight(l.blocks, k) { TilesOrdered(l.blocks, l.start, l.end, k, k + 1); }
  }

  lemma FreeUntouched(l: Layout, ptr: nat, m: seq<Byte>, m': seq<Byte>)
    requires WellFormed(l) && IsLive(l, ptr) && HeapFree.Free(l, ptr).Done?
    requires var lo, hi := LeftOf(l.blocks, At(l, ptr)), RightOf(l.blocks, At(l, ptr));
      SameOutside(m, m', l.blocks[lo].addr, l.blocks[hi - 1].End())
    ensures Untouched(m, l.blocks, m', HeapFree.Free(l, ptr).value.blocks)
  {
    hide HeapFree.Free, WellFormed, Splice, LeftOf, RightOf;
    var k, bs := At(l, ptr), HeapFree.Free(l, ptr).value.blocks;
    var lo, hi := LeftOf(l.blocks, k), RightOf(l.blocks, k);
    FreedBlocks(l, ptr);
    WellFormedParts(l);
    forall b: Block | b in l.blocks && b in bs ensures BlockKept(m, m', b) {
      var j :| 0 <= j < |l.blocks| && l.blocks[j] == b;
      if lo <= j < hi {
        FusedDiffers(l, k, j);
        SplicedOut(l.blocks, l.start, l.end, lo, hi, [Fuse(l.blocks, lo, hi)], j);
      }
      if j < lo { TilesOrdered(l.blocks, l.start, l.end, j, lo); }
      if hi <= j { TilesOrdered(l.blocks, l.start, l.end, hi - 1, j); }
    }
  }

  /** The hole left by a free is none of the blocks that went into it. */
  lemma FusedDiffers(l: Layout, k: nat, j: nat)
    requires Shaped(l) && k < |l.blocks| && !l.blocks[k].hole && LeftOf(l.blocks, k) <= j < RightOf(l.blocks, k)
    ensures var lo, hi := LeftOf(l.blocks, k), RightOf(l.blocks, k);
      l.blocks[lo].addr <= l.blocks[hi - 1].End() && Fuse(l.blocks, lo, hi) != l.blocks[j]
  {
    var lo, hi := LeftOf(l.blocks, k), RightOf(l.blocks, k);
    FuseAt(l, lo, hi);
    TilesAt(l.blocks, l.start, l.end, lo);
    if lo < hi - 1 {
      TilesOrdered(l.blocks, l.start, l.end, lo, hi - 1);
      TilesAt(l.blocks, l.start, l.end, hi - 1);
      if lo < j { TilesOrdered(l.blocks, l.start, l.end, lo, j); }
    }
  }
}
