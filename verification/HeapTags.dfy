/** Boundary tags in raw memory: a 12-byte header and an 8-byte footer per block. */
module HeapTags {
  import opened Machine
  import opened OrderedArrays
  import opened HeapLayout

  const MAGIC: nat := 0xDEAD_BEEF

  ghost predicate HeaderAt(m: seq<Byte>, a: nat, size: nat, hole: bool) {
    && a + HEADER_SIZE <= |m|
    && Word(m, a) == 0xDEAD_BEEF && Word(m, a + 4) == (if hole then 1 else 0) && Word(m, a + 8) == size
  }

  ghost predicate FooterAt(m: seq<Byte>, end: nat, header: nat) {
    && FOOTER_SIZE <= end <= |m|
    && Word(m, end - 8) == 0xDEAD_BEEF && Word(m, end - 4) == header
  }

  /** The tags of a block. A footer never written is known only not to look like one. */
  ghost predicate BlockTagged(m: seq<Byte>, b: Block) {
    && b.size >= TAGS && b.End() <= |m|
    && HeaderAt(m, b.addr, b.size, b.hole)
    && if b.footed then FooterAt(m, b.End(), b.addr) else Word(m, b.End() - 8) != 0xDEAD_BEEF
  }

  ghost predicate Tagged(m: seq<Byte>, bs: seq<Block>) {
    forall i :: 0 <= i < |bs| ==> BlockTagged(m, bs[i])
  }

  /** What header_t_cmp compares. */
  function WordKey(m: seq<Byte>): Key {
    (a: nat) => if a + HEADER_SIZE <= |m| then Word(m, a + 8) else 0
  }

  lemma WordFrame(m: seq<Byte>, m': seq<Byte>, lo: int, hi: int, a: nat)
    requires SameOutside(m, m', lo, hi) && a + 4 <= |m| && (a + 4 <= lo || hi <= a)
    ensures Word(m', a) == Word(m, a)
  {
  }

  lemma TagFrame(m: seq<Byte>, m': seq<Byte>, lo: int, hi: int, b: Block)
    requires SameOutside(m, m', lo, hi) && BlockTagged(m, b) && (b.End() <= lo || hi <= b.addr)
    ensures BlockTagged(m', b)
  {
    WordFrame(m, m', lo, hi, b.addr);
    WordFrame(m, m', lo, hi, b.addr + 4);
    WordFrame(m, m', lo, hi, b.addr + 8);
    WordFrame(m, m', lo, hi, b.End() - 8);
    WordFrame(m, m', lo, hi, b.End() - 4);
  }

  /** Memory rewritten only under a run of blocks, and tagged for their replacement, is tagged as a whole. */
  lemma SpliceTagged(m: seq<Byte>, m': seq<Byte>, bs: seq<Block>, start: nat, end: nat, i: nat, j: nat, ps: seq<Block>)
    requires Tiles(bs, start, end) && i < j <= |bs| && Tagged(m, bs)
    requires SameOutside(m, m', bs[i].addr, Bound(bs, j, end)) && Tagged(m', ps)
    ensures Tagged(m', Splice(bs, i, j, ps))
  {
    var r := Splice(bs, i, j, ps);
    forall x | 0 <= x < |r| ensures BlockTagged(m', r[x]) {
      if x < i {
        assert r[x] == bs[x];
        TilesOrdered(bs, start, end, x, i);
        TagFrame(m, m', bs[i].addr, Bound(bs, j, end), r[x]);
      } else if x < i + |ps| {
        assert r[x] == ps[x - i];
      } else {
        var y := x - i - |ps| + j;
        assert r[x] == bs[y];
        if y > j { TilesOrdered(bs, start, end, j, y); }
        TagFrame(m, m', bs[i].addr, Bound(bs, j, end), r[x]);
      }
    }
  }

  /** With every tag in place, the comparator sees the sizes of the layout. */
  lemma TaggedKeys(m: seq<Byte>, bs: seq<Block>, start: nat, end: nat, s: seq<nat>)
    requires Tiles(bs, start, end) && Tagged(m, bs)
    requires forall a :: a in s ==> Holes(bs, a) > 0
    ensures forall a :: a in s ==> WordKey(m)(a) == SizeKey(bs)(a)
  {
    forall a | a in s ensures WordKey(m)(a) == SizeKey(bs)(a) {
      HolesMember(bs, a);
      var k :| 0 <= k < |bs| && bs[k].hole && bs[k].addr == a;
      FindUnique(bs, start, end, k);
      assert BlockTagged(m, bs[k]);
    }
  }

  // ----- payloads -----

  /** No byte of `b` differs, tags included. */
  ghost predicate BlockKept(m: seq<Byte>, m': seq<Byte>, b: Block) {
    |m| == |m'| && forall x :: b.addr <= x < b.End() && x < |m| ==> m'[x] == m[x]
  }

  /** Every block, live or hole, that is in both sequences keeps all its bytes. */
  ghost predicate Untouched(m: seq<Byte>, bs: seq<Block>, m': seq<Byte>, bs': seq<Block>) {
    forall b: Block :: b in bs && b in bs' ==> BlockKept(m, m', b)
  }

  lemma KeptTag(m: seq<Byte>, m': seq<Byte>, b: Block)
    requires BlockTagged(m, b) && BlockKept(m, m', b)
    ensures BlockTagged(m', b)
  {
    assert forall x :: b.addr <= x < b.End() ==> m'[x] == m[x];
  }
}
