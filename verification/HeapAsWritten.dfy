/** src/kheap.c as written, line 223 included, on the tags in memory: live payloads come to overlap. */
module HeapAsWritten {
  import opened Machine
  import opened OrderedArrays
  import opened HeapLayout
  import opened HeapAlloc
  import opened HeapFree
  import opened HeapRuns

  /** A header: its size word and its is_hole word. */
  datatype Head = Head(size: nat, hole: bool)

  /** All of memory that the heap looks at: headers by address, footers by the address behind them, and the index. */
  datatype Tags = Tags(start: nat, end: nat, limit: nat, heads: map<nat, Head>, feet: map<nat, nat>, index: seq<nat>)

  // ----- tags in memory -----

  predicate Overlap(a: int, b: int, c: int, d: int) { a < d && c < b }

  /** Writing a header destroys every other tag that it overlaps. */
  function PutHead(t: Tags, a: nat, size: nat, hole: bool): Tags {
    t.(heads := (map k | k in t.heads && (k == a || !Overlap(k, k + HEADER_SIZE, a, a + HEADER_SIZE)) :: t.heads[k])
                [a := Head(size, hole)],
       feet := map e | e in t.feet && !Overlap(e - FOOTER_SIZE, e, a, a + HEADER_SIZE) :: t.feet[e])
  }

  function PutFoot(t: Tags, end: nat, header: nat): Tags {
    t.(heads := map k | k in t.heads && !Overlap(k, k + HEADER_SIZE, end - FOOTER_SIZE, end) :: t.heads[k],
       feet := (map e | e in t.feet && (e == end || !Overlap(e - FOOTER_SIZE, e, end - FOOTER_SIZE, end)) :: t.feet[e])
               [end := header])
  }

  /** What the comparator reads; memory without a header reads as 0. */
  function SizeOf(t: Tags, a: nat): nat { if a in t.heads then t.heads[a].size else 0 }

  function TagKey(t: Tags): Key { (a: nat) => SizeOf(t, a) }

  function Enter(t: Tags, a: nat): Outcome<Tags> {
    if |t.index| >= INDEX_SIZE then Panic(IndexFull) else Done(t.(index := Pass(t.index + [a], TagKey(t))))
  }

  // ----- heap_alloc -----

  predicate Holds(t: Tags, a: nat, need: nat, align: bool) {
    SizeOf(t, a) - (if align then AlignOffset(a) else 0) >= need
  }

  function FirstHolding(t: Tags, need: nat, align: bool, i: nat): (r: nat)
    requires i <= |t.index|
    decreases |t.index| - i
  {
    if i == |t.index| || Holds(t, t.index[i], need, align) then i else FirstHolding(t, need, align, i + 1)
  }

  /** src/kheap.c:163-187 */
  function Located(t: Tags, need: nat, align: bool): Outcome<Tags> {
    if FirstHolding(t, need, align, 0) < |t.index| then Done(t)
    else if t.end < t.start then Panic(Undefined)
    else
      var size := PageCeil(t.end - t.start + need + PAGE_SIZE);
      if t.start + size > t.limit then Panic(HeapExhausted)
      else
        var end := t.start + size;
        match Enter(PutFoot(PutHead(t.(end := end), t.end, end - t.end, true), end, t.end), t.end)
        case Panic(f) => Panic(f)
        case Done(t') => if FirstHolding(t', need, align, 0) < |t'.index| then Done(t') else Panic(NoHoleAfterGrowth)
  }

  /** src/kheap.c:202-231: the hole in front, whose size line 223 takes away again, and the entry of the hole */
  function Front(t: Tags, i: nat, offset: nat): Outcome<Tags>
    requires i < |t.index|
  {
    var a := t.index[i];
    var t' := t.(index := RemoveAt(t.index, i));
    if offset == 0 then Done(t')
    else Enter(PutHead(PutFoot(PutHead(t', a, offset, true), a + offset, a), a, 0, true), a)
  }

  /** src/kheap.c:238-271 */
  function Block(t: Tags, a: nat, total: nat, size: nat): Outcome<Tags>
    requires size <= total
  {
    var t' := PutFoot(PutHead(t, a, size, false), a + size, a);
    var rest := total - size;
    if a + size >= t.end + FOOTER_SIZE then Panic(OverTheEdge)
    else if rest == 0 then Done(t')
    else if rest <= TAGS then Panic(RemainderTooSmall)
    else if a + total >= t.end + FOOTER_SIZE then Panic(OverTheEdge)
    else Enter(PutFoot(PutHead(t', a + size, rest, true), a + total, a + size), a + size)
  }

  datatype Served = Served(tags: Tags, ptr: nat)

  /** heap_alloc */
  function AllocAsWritten(t: Tags, request: nat, align: bool): Outcome<Served> {
    var need := request + TAGS;
    match Located(t, need, align)
    case Panic(f) => Panic(f)
    case Done(t1) =>
      var i := FirstHolding(t1, need, align, 0);
      if i >= |t1.index| then Panic(NoHoleAfterGrowth)
      else
        var a := t1.index[i];
        var total := SizeOf(t1, a);
        var offset := if align then AlignOffset(a) else 0;
        var size := if total - need <= TAGS then total else need;
        if offset + size > total then Panic(Undefined)
        else
          match Front(t1, i, offset)
          case Panic(f) => Panic(f)
          case Done(t2) =>
            match Block(t2, a + offset, total - offset, size)
            case Panic(f) => Panic(f)
            case Done(t3) => Done(Served(t3, a + offset + HEADER_SIZE))
  }

  // ----- heap_free -----

  datatype Joined = Joined(tags: Tags, hole: nat, merged: bool)

  /** src/kheap.c:291-309: the hole the freed block belongs to afterwards, and whether it is an old one */
  function Leftwards(t: Tags, h: nat, size: nat): Outcome<Joined> {
    if !(h > t.start + FOOTER_SIZE && h in t.feet) then Done(Joined(t, h, false))
    else if t.feet[h] !in t.heads then Panic(Undefined)
    else if !t.heads[t.feet[h]].hole then Done(Joined(t, h, false))
    else
      var left := t.feet[h];
      var t' := PutHead(PutFoot(t, h + size, left), left, t.heads[left].size + size, true);
      Done(Joined(t'.(index := Pass(t'.index, TagKey(t'))), left, true))
  }

  /** src/kheap.c:311-334 */
  function Rightwards(t: Tags, h: nat): Outcome<Tags>
    requires h in t.heads
  {
    var right := h + t.heads[h].size;
    if right < t.end && right in t.heads && t.heads[right].hole then
      var size := t.heads[h].size + t.heads[right].size;
      if h + size !in t.feet then Panic(BadMagic)
      else if IndexOf(t.index, right) == |t.index| then Panic(HoleNotIndexed)
      else
        var t' := PutFoot(PutHead(t, h, size, true), h + size, h);
        Done(t'.(index := RemoveAt(t.index, IndexOf(t.index, right))))
    else Done(t)
  }

  /** heap_free; its magic assertions fail where there is no tag */
  function FreeAsWritten(t: Tags, ptr: nat): Outcome<Tags> {
    if ptr == 0 then Done(t)
    else if ptr < HEADER_SIZE then Panic(Undefined)
    else
      var h := ptr - HEADER_SIZE;
      if h !in t.heads || h + t.heads[h].size !in t.feet then Panic(BadMagic)
      else
        var size := t.heads[h].size;
        match Leftwards(PutHead(t, h, size, true), h, size)
        case Panic(f) => Panic(f)
        case Done(j) =>
          if j.hole !in j.tags.heads then Panic(Undefined)
          else
            match Rightwards(j.tags, j.hole)
            case Panic(f) => Panic(f)
            case Done(t2) => if j.merged then Done(t2) else Enter(t2, j.hole)
  }

  // ----- reading back what was written -----

  const BASE: nat := 0x0F00_2000
  const LAST: nat := 0x0F01_0000

  ghost predicate Framed(t: Tags) { t.start == BASE && t.end == LAST }

  function HeadAt(t: Tags, x: nat): Option<Head> { if x in t.heads then Some(t.heads[x]) else None }
  function FootAt(t: Tags, e: nat): Option<nat> { if e in t.feet then Some(t.feet[e]) else None }

  lemma AfterHead(t: Tags, a: nat, size: nat, hole: bool, x: nat)
    ensures var t' := PutHead(t, a, size, hole);
      && HeadAt(t', x) == (if x == a then Some(Head(size, hole))
                           else if Overlap(x, x + HEADER_SIZE, a, a + HEADER_SIZE) then None else HeadAt(t, x))
      && FootAt(t', x) == (if Overlap(x - FOOTER_SIZE, x, a, a + HEADER_SIZE) then None else FootAt(t, x))
      && t'.index == t.index && t'.start == t.start && t'.end == t.end && t'.limit == t.limit
  {
  }

  lemma AfterFoot(t: Tags, end: nat, header: nat, x: nat)
    ensures var t' := PutFoot(t, end, header);
      && HeadAt(t', x) == (if Overlap(x, x + HEADER_SIZE, end - FOOTER_SIZE, end) then None else HeadAt(t, x))
      && FootAt(t', x) == (if x == end then Some(header)
                           else if Overlap(x - FOOTER_SIZE, x, end - FOOTER_SIZE, end) then None else FootAt(t, x))
      && t'.index == t.index && t'.start == t.start && t'.end == t.end && t'.limit == t.limit
  {
  }

  /** The four tags of a block and the hole behind it. */
  function Cut(t: Tags, a: nat, size: nat, total: nat): Tags
    requires size <= total
  {
    var block := PutFoot(PutHead(t, a, size, false), a + size, a);
    PutFoot(PutHead(block, a + size, total - size, true), a + total, a + size)
  }

  /** The bytes from `lo` to `hi` are under none of them. */
  predicate Spared(lo: int, hi: int, a: nat, size: nat, total: nat) {
    && !Overlap(lo, hi, a, a + HEADER_SIZE) && !Overlap(lo, hi, a + size - FOOTER_SIZE, a + size)
    && !Overlap(lo, hi, a + size, a + size + HEADER_SIZE) && !Overlap(lo, hi, a + total - FOOTER_SIZE, a + total)
  }

  lemma AfterCut(t: Tags, a: nat, size: nat, total: nat, x: nat)
    requires TAGS <= size && size + TAGS < total
    ensures var t' := Cut(t, a, size, total);
      && HeadAt(t', x) == (if x == a then Some(Head(size, false))
                           else if x == a + size then Some(Head(total - size, true))
                           else if Spared(x, x + HEADER_SIZE, a, size, total) then HeadAt(t, x) else None)
      && FootAt(t', x) == (if x == a + size then Some(a) else if x == a + total then Some(a + size)
                           else if Spared(x - FOOTER_SIZE, x, a, size, total) then FootAt(t, x) else None)
      && t'.index == t.index && t'.start == t.start && t'.end == t.end
  {
    hide PutHead, PutFoot, HeadAt, FootAt;
    var t1 := PutHead(t, a, size, false);
    var t2 := PutFoot(t1, a + size, a);
    var t3 := PutHead(t2, a + size, total - size, true);
    AfterHead(t, a, size, false, x);
    AfterFoot(t1, a + size, a, x);
    AfterHead(t2, a + size, total - size, true, x);
    AfterFoot(t3, a + total, a + size, x);
  }

  /** The tags after a block joins the hole that the footer before it names. */
  function Join(t: Tags, h: nat, size: nat, left: nat, joint: nat): Tags {
    PutHead(PutFoot(PutHead(t, h, size, true), h + size, left), left, joint, true)
  }

  predicate SparedJoin(lo: int, hi: int, h: nat, size: nat, left: nat) {
    && !Overlap(lo, hi, h, h + HEADER_SIZE) && !Overlap(lo, hi, h + size - FOOTER_SIZE, h + size)
    && !Overlap(lo, hi, left, left + HEADER_SIZE)
  }

  lemma AfterJoin(t: Tags, h: nat, size: nat, left: nat, joint: nat, x: nat)
    requires TAGS <= size && left + HEADER_SIZE <= h
    ensures var t' := Join(t, h, size, left, joint);
      && (x == left ==> HeadAt(t', x) == Some(Head(joint, true)))
      && (SparedJoin(x, x + HEADER_SIZE, h, size, left) ==> HeadAt(t', x) == HeadAt(t, x))
      && (x != left && x != h && HeadAt(t, x).None? ==> HeadAt(t', x).None?)
      && (x == h + size ==> FootAt(t', x) == Some(left))
      && (SparedJoin(x - FOOTER_SIZE, x, h, size, left) ==> FootAt(t', x) == FootAt(t, x))
      && t'.index == t.index && t'.start == t.start && t'.end == t.end
  {
    hide PutHead, PutFoot, HeadAt, FootAt;
    var t1 := PutHead(t, h, size, true);
    var t2 := PutFoot(t1, h + size, left);
    AfterHead(t, h, size, true, x);
    AfterFoot(t1, h + size, left, x);
    AfterHead(t2, left, joint, true, x);
  }

  // ----- what a call does -----

  lemma {:induction false} FirstHoldingAt(t: Tags, need: nat, align: bool, j: nat, i: nat)
    requires j <= i < |t.index| && Holds(t, t.index[i], need, align)
    requires forall x :: j <= x < i ==> !Holds(t, t.index[x], need, align)
    ensures FirstHolding(t, need, align, j) == i
    decreases i - j
  {
    if j < i { FirstHoldingAt(t, need, align, j + 1, i); }
  }

  /** A request served by the hole at position `i`, which leaves a hole behind. */
  lemma Splits(t: Tags, n: nat, i: nat, total: nat) returns (t': Tags)
    requires i < |t.index| < INDEX_SIZE && SizeOf(t, t.index[i]) == total && n + 2 * TAGS < total
    requires t.index[i] + total <= t.end
    requires forall j :: 0 <= j < i ==> SizeOf(t, t.index[j]) < n + TAGS
    ensures AllocAsWritten(t, n, false) == Done(Served(t', t.index[i] + HEADER_SIZE))
    ensures var removed := t.(index := RemoveAt(t.index, i));
      var cut := Cut(removed, t.index[i], n + TAGS, total);
      t' == cut.(index := Pass(removed.index + [t.index[i] + n + TAGS], TagKey(cut)))
  {
    hide Pass, PutHead, PutFoot, FirstHolding, TagKey;
    var a, need := t.index[i], n + TAGS;
    FirstHoldingAt(t, need, false, 0, i);
    var removed := t.(index := RemoveAt(t.index, i));
    var cut := Cut(removed, a, need, total);
    AfterCut(removed, a, need, total, 0);
    t' := cut.(index := Pass(removed.index + [a + need], TagKey(cut)));
    assert Block(removed, a, total, need) == Done(t') by { BlockCuts(removed, a, total, need); }
  }

  lemma BlockCuts(t: Tags, a: nat, total: nat, size: nat)
    requires size + TAGS < total && a + total <= t.end
    ensures Block(t, a, total, size) == Enter(Cut(t, a, size, total), a + size)
  {
    hide PutHead, PutFoot, Enter;
  }

  /** Nothing to merge with on the right: no header there, or a live one. */
  ghost predicate NoHoleAt(t: Tags, x: nat) {
    HeadAt(t, x).Some? ==> !HeadAt(t, x).value.hole
  }

  lemma LeftAlone(t: Tags, h: nat, size: nat)
    requires h == t.start
    ensures Leftwards(t, h, size) == Done(Joined(t, h, false))
  {
  }

  lemma RightAlone(t: Tags, h: nat, size: nat)
    requires h in t.heads && t.heads[h].size == size && NoHoleAt(t, h + size)
    ensures Rightwards(t, h) == Done(t)
  {
  }

  lemma LeftJoins(t: Tags, h: nat, size: nat, left: nat, leftSize: nat)
    requires FootAt(t, h) == Some(left) && HeadAt(t, left) == Some(Head(leftSize, true)) && h > t.start + FOOTER_SIZE
    ensures var t' := PutHead(PutFoot(t, h + size, left), left, leftSize + size, true);
      Leftwards(t, h, size) == Done(Joined(t'.(index := Pass(t'.index, TagKey(t'))), left, true))
  {
    hide PutHead, PutFoot, Pass, TagKey;
  }

  /** The first block of the arena is released, and there is no hole behind it. */
  lemma FirstFreed(t: Tags, size: nat) returns (t': Tags)
    requires HeadAt(t, t.start) == Some(Head(size, false)) && FootAt(t, t.start + size).Some? && TAGS <= size
    requires NoHoleAt(t, t.start + size) && |t.index| < INDEX_SIZE
    ensures FreeAsWritten(t, t.start + HEADER_SIZE) == Done(t')
    ensures var marked := PutHead(t, t.start, size, true);
      t' == marked.(index := Pass(t.index + [t.start], TagKey(marked)))
  {
    hide PutHead, Pass, TagKey, Leftwards, Rightwards;
    var marked := PutHead(t, t.start, size, true);
    AfterHead(t, t.start, size, true, t.start);
    AfterHead(t, t.start, size, true, t.start + size);
    LeftAlone(marked, t.start, size);
    RightAlone(marked, t.start, size);
    t' := marked.(index := Pass(t.index + [t.start], TagKey(marked)));
  }

  /** A block is released whose preceding footer names a hole, wherever that hole lies. */
  lemma JoinFreed(t: Tags, h: nat, size: nat, left: nat, leftSize: nat) returns (t': Tags)
    requires HeadAt(t, h) == Some(Head(size, false)) && FootAt(t, h) == Some(left) && FootAt(t, h + size).Some?
    requires HeadAt(t, left) == Some(Head(leftSize, true)) && TAGS <= size
    requires h > t.start + FOOTER_SIZE && left + HEADER_SIZE <= h - FOOTER_SIZE
    requires HeadAt(t, left + leftSize + size).None? && left + leftSize + size != h && leftSize + size > 0
    ensures FreeAsWritten(t, h + HEADER_SIZE) == Done(t')
    ensures var joined := Join(t, h, size, left, leftSize + size);
      t' == joined.(index := Pass(t.index, TagKey(joined)))
  {
    hide PutHead, PutFoot, Pass, TagKey, Leftwards, Rightwards;
    var joint := leftSize + size;
    var marked := PutHead(t, h, size, true);
    AfterHead(t, h, size, true, left);
    AfterHead(t, h, size, true, h);
    AfterHead(t, h, size, true, h + size);
    var joined := Join(t, h, size, left, joint);
    AfterJoin(t, h, size, left, joint, left);
    AfterJoin(t, h, size, left, joint, left + joint);
    t' := joined.(index := Pass(t.index, TagKey(joined)));
    LeftJoins(marked, h, size, left, leftSize);
    RightAlone(t', left, joint);
  }

  // ----- a run -----

  /** The tags, and the size asked for behind every pointer not yet released. */
  datatype Books = Books(tags: Tags, asked: map<nat, nat>)

  function Replay(b: Books, ops: seq<Op>): Outcome<Books>
    decreases |ops|
  {
    if ops == [] then Done(b)
    else
      match ops[0]
      case Request(n, align) =>
        (match AllocAsWritten(b.tags, n, align)
         case Panic(f) => Panic(f)
         case Done(s) => Replay(Books(s.tags, b.asked[s.ptr := n]), ops[1..]))
      case Release(p) =>
        if p !in b.asked then Panic(Undefined)
        else
          match FreeAsWritten(b.tags, p)
          case Panic(f) => Panic(f)
          case Done(t) => Replay(Books(t, b.asked - {p}), ops[1..])
  }

  lemma Asks(b: Books, n: nat, align: bool, rest: seq<Op>, t: Tags, p: nat)
    requires AllocAsWritten(b.tags, n, align) == Done(Served(t, p))
    ensures Replay(b, [Request(n, align)] + rest) == Replay(Books(t, b.asked[p := n]), rest)
  {
    hide AllocAsWritten;
    var ops := [Request(n, align)] + rest;
    assert ops[0] == Request(n, align) && ops[1..] == rest;
  }

  lemma Gives(b: Books, p: nat, rest: seq<Op>, t: Tags)
    requires p in b.asked && FreeAsWritten(b.tags, p) == Done(t)
    ensures Replay(b, [Release(p)] + rest) == Replay(Books(t, b.asked - {p}), rest)
  {
    hide FreeAsWritten;
    var ops := [Release(p)] + rest;
    assert ops[0] == Release(p) && ops[1..] == rest;
  }

  /** The kernel's new heap: one header, no footer, and nothing else known of memory. */
  function NewTags(): Tags {
    Tags(BASE, LAST, 0x0FFF_F000, map[BASE := Head(57344, true)], map[], [BASE])
  }

  /** A page directory cloned, a second block, the directory released, two more blocks, and two releases. */
  function Calls(): seq<Op> {
    [Request(8196, true)] + ([Request(100, false)] + ([Release(BASE + 4096)] + ([Request(4000, false)]
    + ([Request(4100, false)] + ([Release(BASE + 12)] + ([Release(BASE + 12312)] + [Request(4090, false)]))))))
  }

  lemma PassTwo(x: nat, y: nat, key: Key)
    ensures key(x) <= key(y) ==> Pass([x] + [y], key) == [x, y] && Pass([x, y], key) == [x, y]
    ensures key(y) < key(x) ==> Pass([x] + [y], key) == [y, x]
  {
    assert ([x] + [y])[1..] == [y] && [x, y][1..] == [y];
  }

  lemma PassThree(x: nat, y: nat, z: nat, key: Key)
    ensures key(x) <= key(y) <= key(z) ==> Pass([x, y, z], key) == [x, y, z]
    ensures key(x) <= key(z) < key(y) ==> Pass([x, y] + [z], key) == [x, z, y]
  {
    assert [x, y, z][1..] == [y, z] && ([x, y] + [z])[1..] == [y] + [z];
    PassTwo(y, z, key);
  }

  /** After the aligned request: the hole in front has size 0, the directory stands behind it. */
  ghost predicate Cloned(t: Tags) {
    && Framed(t) && t.index == [BASE, BASE + 12300]
    && HeadAt(t, BASE) == Some(Head(0, true)) && FootAt(t, BASE + 4084) == Some(BASE)
    && HeadAt(t, BASE + 4084) == Some(Head(8216, false)) && FootAt(t, BASE + 12300) == Some(BASE + 4084)
    && HeadAt(t, BASE + 12300) == Some(Head(45044, true))
    && HeadAt(t, BASE + 4140).None? && HeadAt(t, BASE + 8216).None?
  }

  /** After the second request. */
  ghost predicate Second(t: Tags) {
    && Framed(t) && t.index == [BASE, BASE + 12420]
    && HeadAt(t, BASE) == Some(Head(0, true)) && FootAt(t, BASE + 4084) == Some(BASE)
    && HeadAt(t, BASE + 4084) == Some(Head(8216, false)) && FootAt(t, BASE + 12300) == Some(BASE + 4084)
    && HeadAt(t, BASE + 12300) == Some(Head(120, false)) && FootAt(t, BASE + 12420) == Some(BASE + 12300)
    && HeadAt(t, BASE + 12420) == Some(Head(44924, true))
    && HeadAt(t, BASE + 4140).None? && HeadAt(t, BASE + 8216).None?
  }

  lemma SecondRequest(t: Tags) returns (t': Tags)
    requires Cloned(t)
    ensures AllocAsWritten(t, 100, false) == Done(Served(t', BASE + 12312)) && Second(t')
  {
    hide AllocAsWritten, Pass, Cut, PutHead, PutFoot;
    t' := Splits(t, 100, 1, 45044);
    var r := t.(index := RemoveAt(t.index, 1));
    AfterCut(r, BASE + 12300, 120, 45044, BASE);
    AfterCut(r, BASE + 12300, 120, 45044, BASE + 4084);
    AfterCut(r, BASE + 12300, 120, 45044, BASE + 12300);
    AfterCut(r, BASE + 12300, 120, 45044, BASE + 12420);
    AfterCut(r, BASE + 12300, 120, 45044, BASE + 4140);
    AfterCut(r, BASE + 12300, 120, 45044, BASE + 8216);
    assert RemoveAt(t.index, 1) == [BASE];
    PassTwo(BASE, BASE + 12420, TagKey(Cut(r, BASE + 12300, 120, 45044)));
  }

  /** After the directory is released: the hole it joined is 4084 bytes longer than its header says. */
  ghost predicate Third(t: Tags) {
    && Framed(t) && t.index == [BASE, BASE + 12420]
    && HeadAt(t, BASE) == Some(Head(8216, true)) && FootAt(t, BASE + 12300) == Some(BASE) && Upper(t)
  }

  /** The second block, the large hole behind it, and an address without a header. */
  ghost predicate Upper(t: Tags) {
    && HeadAt(t, BASE + 12300) == Some(Head(120, false)) && FootAt(t, BASE + 12420) == Some(BASE + 12300)
    && HeadAt(t, BASE + 12420) == Some(Head(44924, true)) && HeadAt(t, BASE + 4140).None?
  }

  lemma ReleaseDirectory(t: Tags) returns (t': Tags)
    requires Second(t)
    ensures FreeAsWritten(t, BASE + 4096) == Done(t') && Third(t')
  {
    hide FreeAsWritten, Pass, Join, PutHead, PutFoot;
    var h := BASE + 4084;
    t' := JoinFreed(t, h, 8216, BASE, 0);
    AfterJoin(t, h, 8216, BASE, 8216, BASE);
    AfterJoin(t, h, 8216, BASE, 8216, BASE + 12300);
    AfterJoin(t, h, 8216, BASE, 8216, BASE + 12420);
    AfterJoin(t, h, 8216, BASE, 8216, BASE + 4140);
    PassTwo(BASE, BASE + 12420, TagKey(Join(t, h, 8216, BASE, 8216)));
  }

  /** After the third request, which splits that hole. */
  ghost predicate Fourth(t: Tags) {
    && Framed(t) && t.index == [BASE + 4020, BASE + 12420] && FootAt(t, BASE + 12300) == Some(BASE) && Upper(t)
    && HeadAt(t, BASE) == Some(Head(4020, false)) && FootAt(t, BASE + 4020) == Some(BASE)
    && HeadAt(t, BASE + 4020) == Some(Head(4196, true))
  }

  lemma ThirdRequest(t: Tags) returns (t': Tags)
    requires Third(t)
    ensures AllocAsWritten(t, 4000, false) == Done(Served(t', BASE + 12)) && Fourth(t')
  {
    hide AllocAsWritten, Pass, Cut, PutHead, PutFoot;
    t' := Splits(t, 4000, 0, 8216);
    var r := t.(index := RemoveAt(t.index, 0));
    AfterCut(r, BASE, 4020, 8216, BASE);
    AfterCut(r, BASE, 4020, 8216, BASE + 4020);
    AfterCut(r, BASE, 4020, 8216, BASE + 12300);
    AfterCut(r, BASE, 4020, 8216, BASE + 12420);
    AfterCut(r, BASE, 4020, 8216, BASE + 4140);
    assert RemoveAt(t.index, 0) == [BASE + 12420];
    PassTwo(BASE + 12420, BASE + 4020, TagKey(Cut(r, BASE, 4020, 8216)));
  }

  /** After the fourth request, for 4100 bytes at BASE + 4032. */
  ghost predicate Fifth(t: Tags) {
    && Framed(t) && t.index == [BASE + 8140, BASE + 12420] && FootAt(t, BASE + 12300) == Some(BASE) && Upper(t)
    && HeadAt(t, BASE) == Some(Head(4020, false)) && FootAt(t, BASE + 4020) == Some(BASE)
    && HeadAt(t, BASE + 4020) == Some(Head(4120, false)) && HeadAt(t, BASE + 8140) == Some(Head(76, true))
  }

  lemma FourthRequest(t: Tags) returns (t': Tags)
    requires Fourth(t)
    ensures AllocAsWritten(t, 4100, false) == Done(Served(t', BASE + 4032)) && Fifth(t')
  {
    hide AllocAsWritten, Pass, Cut, PutHead, PutFoot;
    t' := Splits(t, 4100, 0, 4196);
    var r := t.(index := RemoveAt(t.index, 0));
    AfterCut(r, BASE + 4020, 4120, 4196, BASE);
    AfterCut(r, BASE + 4020, 4120, 4196, BASE + 4020);
    AfterCut(r, BASE + 4020, 4120, 4196, BASE + 8140);
    AfterCut(r, BASE + 4020, 4120, 4196, BASE + 12300);
    AfterCut(r, BASE + 4020, 4120, 4196, BASE + 12420);
    AfterCut(r, BASE + 4020, 4120, 4196, BASE + 4140);
    assert RemoveAt(t.index, 0) == [BASE + 12420];
    PassTwo(BASE + 12420, BASE + 8140, TagKey(Cut(r, BASE + 4020, 4120, 4196)));
  }

  /** After the release of the third request's block. */
  ghost predicate Sixth(t: Tags) {
    && Framed(t) && t.index == [BASE + 8140, BASE, BASE + 12420] && FootAt(t, BASE + 12300) == Some(BASE) && Upper(t)
    && HeadAt(t, BASE) == Some(Head(4020, true)) && HeadAt(t, BASE + 8140) == Some(Head(76, true))
  }

  lemma ReleaseThird(t: Tags) returns (t': Tags)
    requires Fifth(t)
    ensures FreeAsWritten(t, BASE + 12) == Done(t') && Sixth(t')
  {
    hide FreeAsWritten, Pass, PutHead;
    t' := FirstFreed(t, 4020);
    AfterHead(t, BASE, 4020, true, BASE);
    AfterHead(t, BASE, 4020, true, BASE + 8140);
    AfterHead(t, BASE, 4020, true, BASE + 12300);
    AfterHead(t, BASE, 4020, true, BASE + 12420);
    AfterHead(t, BASE, 4020, true, BASE + 4140);
    PassThree(BASE + 8140, BASE + 12420, BASE, TagKey(PutHead(t, BASE, 4020, true)));
  }

  /** After the release of the second block: the stale footer before it names the first hole, which grows too far. */
  ghost predicate Seventh(t: Tags) {
    && Framed(t) && t.index == [BASE + 8140, BASE, BASE + 12420]
    && HeadAt(t, BASE) == Some(Head(4140, true)) && HeadAt(t, BASE + 8140) == Some(Head(76, true))
  }

  lemma ReleaseSecond(t: Tags) returns (t': Tags)
    requires Sixth(t)
    ensures FreeAsWritten(t, BASE + 12312) == Done(t') && Seventh(t')
  {
    hide FreeAsWritten, Pass, Join, PutHead, PutFoot;
    var h := BASE + 12300;
    t' := JoinFreed(t, h, 120, BASE, 4020);
    AfterJoin(t, h, 120, BASE, 4140, BASE);
    AfterJoin(t, h, 120, BASE, 4140, BASE + 8140);
    AfterJoin(t, h, 120, BASE, 4140, BASE + 12420);
    PassThree(BASE + 8140, BASE, BASE + 12420, TagKey(Join(t, h, 120, BASE, 4140)));
  }

  lemma LastRequest(t: Tags) returns (t': Tags)
    requires Seventh(t)
    ensures AllocAsWritten(t, 4090, false) == Done(Served(t', BASE + 12))
  {
    hide AllocAsWritten, Pass, Cut;
    t' := Splits(t, 4090, 1, 4140);
  }

  lemma FirstRequest() returns (t': Tags)
    ensures AllocAsWritten(NewTags(), 8196, true) == Done(Served(t', BASE + 4096)) && Cloned(t')
  {
    hide Pass, PutHead, PutFoot, Cut, FirstHolding, Front, Block, AlignOffset;
    var t := NewTags();
    AlignOfBase();
    FirstHoldingAt(t, 8216, true, 0, 0);
    var t2 := FirstFront();
    var a := BASE + 4084;
    BlockCuts(t2, a, 53260, 8216);
    AfterCut(t2, a, 8216, 53260, BASE);
    AfterCut(t2, a, 8216, 53260, a);
    AfterCut(t2, a, 8216, 53260, BASE + 12300);
    AfterCut(t2, a, 8216, 53260, BASE + 4140);
    AfterCut(t2, a, 8216, 53260, BASE + 8216);
    var cut := Cut(t2, a, 8216, 53260);
    PassTwo(BASE, BASE + 12300, TagKey(cut));
    t' := cut.(index := [BASE, BASE + 12300]);
  }

  lemma AlignOfBase()
    ensures AlignOffset(BASE) == 4084
  {
  }

  /** The tags of the hole in front, after line 223. */
  function FrontTags(t: Tags, a: nat, offset: nat): Tags {
    PutHead(PutFoot(PutHead(t, a, offset, true), a + offset, a), a, 0, true)
  }

  lemma AfterFront(t: Tags, a: nat, offset: nat, x: nat)
    requires TAGS < offset
    ensures var t' := FrontTags(t, a, offset);
      && (x == a ==> HeadAt(t', x) == Some(Head(0, true)))
      && (x == a + offset ==> FootAt(t', x) == Some(a))
      && (x != a && HeadAt(t, x).None? ==> HeadAt(t', x).None?)
      && t'.index == t.index && t'.start == t.start && t'.end == t.end
  {
    hide PutHead, PutFoot, HeadAt, FootAt;
    var t1 := PutHead(t, a, offset, true);
    var t2 := PutFoot(t1, a + offset, a);
    AfterHead(t, a, offset, true, x);
    AfterFoot(t1, a + offset, a, x);
    AfterHead(t2, a, 0, true, x);
  }

  /** Lines 212-229 on the new heap. */
  lemma FirstFront() returns (t': Tags)
    ensures Front(NewTags(), 0, 4084) == Done(t') && Framed(t') && t'.index == [BASE]
    ensures HeadAt(t', BASE) == Some(Head(0, true)) && FootAt(t', BASE + 4084) == Some(BASE)
    ensures HeadAt(t', BASE + 4140).None? && HeadAt(t', BASE + 8216).None?
  {
    hide Pass, PutHead, PutFoot;
    var t := NewTags().(index := []);
    assert RemoveAt(NewTags().index, 0) == [];
    var t3 := FrontTags(t, BASE, 4084);
    AfterFront(t, BASE, 4084, BASE);
    AfterFront(t, BASE, 4084, BASE + 4084);
    AfterFront(t, BASE, 4084, BASE + 4140);
    AfterFront(t, BASE, 4084, BASE + 8216);
    assert [] + [BASE] == [BASE];
    SinglePassed(BASE, TagKey(t3));
    t' := t3.(index := [BASE]);
  }

  lemma SinglePassed(a: nat, key: Key)
    ensures Pass([a], key) == [a]
  {
  }

  /**
   * Live payloads overlap. On the kernel's own heap, with the code as written, eight calls all return; two pointers
   * are then outstanding, for 4090 bytes at BASE + 12 and for 4100 bytes at BASE + 4032.
   */
  lemma PayloadsOverlap() returns (b: Books)
    ensures Replay(Books(NewTags(), map[]), Calls()) == Done(b)
    ensures b.asked == map[BASE + 4032 := 4100, BASE + 12 := 4090] && BASE + 12 + 4090 > BASE + 4032
  {
    hide Replay, AllocAsWritten, FreeAsWritten, Cloned, Second, Third, Fourth, Fifth, Sixth, Seventh, NewTags;
    var r7 := [Request(4090, false)];
    var r6 := [Release(BASE + 12312)] + r7;
    var r5 := [Release(BASE + 12)] + r6;
    var r4 := [Request(4100, false)] + r5;
    var r3 := [Request(4000, false)] + r4;
    var r2 := [Release(BASE + 4096)] + r3;
    var r1 := [Request(100, false)] + r2;
    var t1 := FirstRequest();
    Asks(Books(NewTags(), map[]), 8196, true, r1, t1, BASE + 4096);
    var t2 := SecondRequest(t1);
    var b2 := Books(t1, map[BASE + 4096 := 8196]);
    Asks(b2, 100, false, r2, t2, BASE + 12312);
    var t3 := ReleaseDirectory(t2);
    Gives(Books(t2, b2.asked[BASE + 12312 := 100]), BASE + 4096, r3, t3);
    var b4 := Books(t3, map[BASE + 12312 := 100]);
    assert b2.asked[BASE + 12312 := 100] - {BASE + 4096} == b4.asked;
    var t4 := ThirdRequest(t3);
    Asks(b4, 4000, false, r4, t4, BASE + 12);
    var b5 := Books(t4, b4.asked[BASE + 12 := 4000]);
    var t5 := FourthRequest(t4);
    Asks(b5, 4100, false, r5, t5, BASE + 4032);
    var b6 := Books(t5, b5.asked[BASE + 4032 := 4100]);
    var t6 := ReleaseThird(t5);
    Gives(b6, BASE + 12, r6, t6);
    var b7 := Books(t6, map[BASE + 12312 := 100, BASE + 4032 := 4100]);
    assert b6.asked - {BASE + 12} == b7.asked;
    var t7 := ReleaseSecond(t6);
    Gives(b7, BASE + 12312, r7, t7);
    var b8 := Books(t7, map[BASE + 4032 := 4100]);
    assert b7.asked - {BASE + 12312} == b8.asked;
    var t8 := LastRequest(t7);
    assert r7 == [Request(4090, false)] + [];
    Asks(b8, 4090, false, [], t8, BASE + 12);
    b := Books(t8, b8.asked[BASE + 12 := 4090]);
    assert Replay(b, []) == Done(b) by { NothingLeft(b); }
  }

  lemma NothingLeft(b: Books)
    ensures Replay(b, []) == Done(b)
  {
  }
}
