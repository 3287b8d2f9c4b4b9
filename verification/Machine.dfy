/** Vocabulary shared by every component: page arithmetic, outcomes, and raw little-endian memory. */
module Machine {

  const PAGE_SIZE: nat := 4096
  const WORD_LIMIT: nat := 0x1_0000_0000

  type Byte = x: int | 0 <= x < 256

  /** A 32-bit word. */
  type Word32 = x: int | 0 <= x < 0x1_0000_0000

  /** Every way the kernel stops instead of returning; an assertion that cannot fail is asserted where it stands. */
  datatype Fault =
    | IndexFull            // ordered_array_insert on a full array
    | OutOfBounds          // an index beyond an array
    | HeapExhausted        // expand beyond max_addr
    | NotLarger            // expand to a size that is not larger
    | NoHoleAfterGrowth    // second find_hole failed
    | RemainderTooSmall    // right remainder of 1..20 bytes
    | OverTheEdge          // a footer at or past allocated_end
    | BadMagic             // a boundary tag without the magic number
    | HoleNotIndexed       // the right neighbour is missing from the index
    | Misaligned           // heap_create on addresses that are not page-aligned
    | NoFreeFrames
    | NoFreeTask
    | Undefined            // the C program reads outside an object

  datatype Option<+T> = None | Some(value: T)

  datatype Outcome<+T> = Done(value: T) | Panic(fault: Fault)

  /** `a & PAGE_ADDR_MASK` */
  function PageFloor(a: nat): (r: nat)
    ensures r <= a < r + PAGE_SIZE && r % PAGE_SIZE == 0
  {
    a - a % PAGE_SIZE
  }

  /** Round up unless already page-aligned, as every caller of the mask does. */
  function PageCeil(a: nat): (r: nat)
    ensures a <= r < a + PAGE_SIZE && r % PAGE_SIZE == 0
  {
    if a % PAGE_SIZE != 0 then PageFloor(a) + PAGE_SIZE else a
  }

  // ----- sequences -----

  lemma Assoc<T>(a: seq<T>, b: seq<T>, c: seq<T>)
    ensures a + (b + c) == (a + b) + c
  {
  }

  /** A sequence around one of its elements. */
  lemma SplitAt<T>(s: seq<T>, p: nat)
    requires p < |s|
    ensures s == s[..p] + ([s[p]] + s[p + 1..])
    ensures p + 1 < |s| ==> s[p + 1..][0] == s[p + 1] && s[p + 1..][1..] == s[p + 2..]
  {
  }

  lemma SplitTwice<T>(s: seq<T>, i: nat, j: nat)
    requires i <= j <= |s|
    ensures s == s[..i] + s[i..j] + s[j..]
  {
  }

  // ----- raw memory -----

  /** The 32-bit little-endian word at address `a`, which need not be aligned. */
  function Word(m: seq<Byte>, a: nat): (w: nat)
    requires a + 4 <= |m|
    ensures w < WORD_LIMIT
  {
    m[a] as int + 0x100 * m[a + 1] as int + 0x1_0000 * m[a + 2] as int + 0x100_0000 * m[a + 3] as int
  }

  /** Memories of one size that agree on every byte outside `[lo, hi)`. */
  ghost predicate SameOutside(m: seq<Byte>, m': seq<Byte>, lo: int, hi: int) {
    |m| == |m'| && forall x :: 0 <= x < |m| && !(lo <= x < hi) ==> m'[x] == m[x]
  }

  lemma SameOutsideJoin(m: seq<Byte>, m1: seq<Byte>, m2: seq<Byte>, lo: int, mid: int, hi: int)
    requires SameOutside(m, m1, lo, mid) && SameOutside(m1, m2, mid, hi) && lo <= mid <= hi
    ensures SameOutside(m, m2, lo, hi)
  {
  }

  method StoreWord(mem: array<Byte>, a: nat, v: nat)
    requires a + 4 <= mem.Length && v < WORD_LIMIT
    modifies mem
    ensures Word(mem[..], a) == v
    ensures SameOutside(old(mem[..]), mem[..], a, a + 4)
  {
    var b0, r1 := v % 0x100, v / 0x100;
    var b1, r2 := r1 % 0x100, r1 / 0x100;
    var b2, b3 := r2 % 0x100, r2 / 0x100;
    mem[a], mem[a + 1], mem[a + 2], mem[a + 3] := b0, b1, b2, b3;
  }

  method LoadWord(mem: array<Byte>, a: nat) returns (w: nat)
    requires a + 4 <= mem.Length
    ensures w == Word(mem[..], a)
  {
    w := mem[a] as int + 0x100 * mem[a + 1] as int + 0x1_0000 * mem[a + 2] as int + 0x100_0000 * mem[a + 3] as int;
  }
}
