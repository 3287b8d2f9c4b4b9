/** src/datastructs/bitset.c: a set of small numbers packed into 32-bit words. */
module Bitsets {
  import opened Machine

  const BITS: nat := 32
  const ALL_USED: bv32 := 0xFFFF_FFFF
  const NONE_FREE: nat := 0xFFFF_FFFF

  // ----- words -----

  function And(w: bv32, a: bv32): bv32 { w & a }
  function Or(w: bv32, a: bv32): bv32 { w | a }
  function Without(w: bv32, a: bv32): bv32 { w & !a }

  /** `1 << inner` */
  function Mask(inner: nat): bv32
    requires inner < BITS
  {
    (1 as bv32) << inner
  }

  /** Bit `i` has the weight 2^i. */
  lemma MaskWeights()
    ensures Mask(0) == 0x1 && Mask(1) == 0x2 && Mask(2) == 0x4 && Mask(3) == 0x8
    ensures Mask(4) == 0x10 && Mask(5) == 0x20 && Mask(6) == 0x40 && Mask(7) == 0x80
    ensures Mask(8) == 0x100 && Mask(9) == 0x200 && Mask(10) == 0x400 && Mask(11) == 0x800
    ensures Mask(12) == 0x1000 && Mask(13) == 0x2000 && Mask(14) == 0x4000 && Mask(15) == 0x8000
    ensures Mask(16) == 0x1_0000 && Mask(17) == 0x2_0000 && Mask(18) == 0x4_0000 && Mask(19) == 0x8_0000
    ensures Mask(20) == 0x10_0000 && Mask(21) == 0x20_0000 && Mask(22) == 0x40_0000 && Mask(23) == 0x80_0000
    ensures Mask(24) == 0x100_0000 && Mask(25) == 0x200_0000 && Mask(26) == 0x400_0000 && Mask(27) == 0x800_0000
    ensures Mask(28) == 0x1000_0000 && Mask(29) == 0x2000_0000 && Mask(30) == 0x4000_0000 && Mask(31) == 0x8000_0000
  {
  }

  predicate Test(w: bv32, inner: nat)
    requires inner < BITS
  {
    And(w, Mask(inner)) != 0
  }

  /** Distinct positions have disjoint, nonzero masks. */
  lemma MaskAnd(i: nat, j: nat)
    requires i < BITS && j < BITS
    ensures Mask(i) != 0
    ensures i != j ==> And(Mask(i), Mask(j)) == 0
  {
  }

  lemma OrLaw(w: bv32, a: bv32, b: bv32)
    ensures And(Or(w, a), b) == Or(And(w, b), And(a, b))
  {
  }

  lemma ClearLaw(w: bv32, a: bv32, b: bv32)
    ensures And(Without(w, a), b) == Without(And(w, b), And(a, b))
  {
  }

  lemma Neutral(x: bv32, a: bv32)
    ensures Or(x, 0) == x && Without(x, 0) == x && And(a, a) == a
    ensures Or(And(x, a), a) == a && Without(And(x, a), a) == 0
  {
  }

  lemma UpdateBit(w: bv32, i: nat, j: nat)
    requires i < BITS && j < BITS
    ensures Test(Or(w, Mask(i)), j) <==> i == j || Test(w, j)
    ensures Test(Without(w, Mask(i)), j) <==> i != j && Test(w, j)
  {
    hide Mask, And, Or, Without;
    var a, b := Mask(i), Mask(j);
    MaskAnd(i, j);
    OrLaw(w, a, b);
    ClearLaw(w, a, b);
    Neutral(w, a);
    Neutral(And(w, b), a);
  }

  /** A word is full exactly when every bit is set. */
  lemma FullWord(w: bv32)
    ensures w == ALL_USED <==> forall i :: 0 <= i < BITS ==> Test(w, i)
  {
    if w == ALL_USED {
      forall i | 0 <= i < BITS ensures Test(w, i) {
        AllTested(i);
      }
    } else if forall i :: 0 <= i < BITS ==> Test(w, i) {
      EveryBit(w);
    }
  }

  lemma AllTested(i: nat)
    requires i < BITS
    ensures Test(ALL_USED, i)
  {
    MaskAnd(i, i);
    hide Mask;
    assert And(ALL_USED, Mask(i)) == Mask(i);
  }

  lemma EveryBit(w: bv32)
    requires forall i :: 0 <= i < BITS ==> Test(w, i)
    ensures w == ALL_USED
  {
    assert Test(w, 0) && Test(w, 1) && Test(w, 2) && Test(w, 3) && Test(w, 4) && Test(w, 5) && Test(w, 6) && Test(w, 7);
    assert Test(w, 8) && Test(w, 9) && Test(w, 10) && Test(w, 11);
    assert Test(w, 12) && Test(w, 13) && Test(w, 14) && Test(w, 15);
    assert Test(w, 16) && Test(w, 17) && Test(w, 18) && Test(w, 19);
    assert Test(w, 20) && Test(w, 21) && Test(w, 22) && Test(w, 23);
    assert Test(w, 24) && Test(w, 25) && Test(w, 26) && Test(w, 27);
    assert Test(w, 28) && Test(w, 29) && Test(w, 30) && Test(w, 31);
  }

  // ----- the set -----

  /** Bit `i` of a packed array. */
  predicate Bit(words: seq<bv32>, i: nat) {
    i / BITS < |words| && Test(words[i / BITS], i % BITS)
  }

  /** The least number below `cap` outside `used`, if there is one. */
  ghost predicate LeastFree(used: iset<nat>, cap: nat, i: nat) {
    i < cap && i !in used && forall j :: 0 <= j < i ==> j in used
  }

  lemma SameBit(i: nat, j: nat)
    ensures i == j <==> i / BITS == j / BITS && i % BITS == j % BITS
  {
    assert i == BITS * (i / BITS) + i % BITS;
    assert j == BITS * (j / BITS) + j % BITS;
  }

  lemma UpdatedWord(words: seq<bv32>, index: nat, w: bv32, i: nat, value: bool)
    requires index / BITS < |words|
    requires forall j :: 0 <= j < BITS ==>
      Test(w, j) == if j == index % BITS then value else Test(words[index / BITS], j)
    ensures Bit(words[index / BITS := w], i) == if i == index then value else Bit(words, i)
  {
    hide Test;
    SameBit(i, index);
  }

  class Bitset {
    const base: array<bv32>

    /** bitset_create: enough zeroed words for `bits` bits */
    constructor (bits: nat)
      ensures fresh(base) && base.Length == (bits + BITS - 1) / BITS
      ensures Members() == iset{}
    {
      base := new bv32[(bits + BITS - 1) / BITS](_ => 0);
      new;
      forall i: nat ensures !Bit(base[..], i) {
        if i / BITS < base.Length {
          assert base[..][i / BITS] == 0;
          ZeroWord(i % BITS);
        }
      }
    }

    ghost function Members(): iset<nat>
      reads base
    {
      iset i: nat | Bit(base[..], i)
    }

    /** bitset_set; an index beyond the array is ignored */
    method Set(index: nat)
      modifies base
      ensures Members() == old(Members()) + if index / BITS < base.Length then iset{index} else iset{}
    {
      hide Test, Or, Mask;
      var outer, inner := index / BITS, index % BITS;
      if outer >= base.Length { return; }
      ghost var was := base[..];
      base[outer] := Or(base[outer], Mask(inner));
      assert base[..] == was[outer := base[outer]];
      forall j | 0 <= j < BITS { UpdateBit(was[outer], inner, j); }
      forall i: nat { UpdatedWord(was, index, base[outer], i, true); }
    }

    /** bitset_clear; likewise */
    method Clear(index: nat)
      modifies base
      ensures Members() == old(Members()) - iset{index}
    {
      hide Test, Without, Mask;
      var outer, inner := index / BITS, index % BITS;
      if outer >= base.Length { return; }
      ghost var was := base[..];
      base[outer] := Without(base[outer], Mask(inner));
      assert base[..] == was[outer := base[outer]];
      forall j | 0 <= j < BITS { UpdateBit(was[outer], inner, j); }
      forall i: nat { UpdatedWord(was, index, base[outer], i, false); }
    }

    /** bitset_check_set */
    method Check(index: nat) returns (r: bool)
      ensures r <==> index in Members()
    {
      var outer, inner := index / BITS, index % BITS;
      if outer >= base.Length { return false; }
      return And(base[outer], Mask(inner)) != 0;
    }

    /** bitset_find_free: the least absent member, or 0xFFFFFFFF */
    method FindFree() returns (r: nat)
      ensures if exists i :: LeastFree(Members(), BITS * base.Length, i)
              then LeastFree(Members(), BITS * base.Length, r) else r == 0xFFFF_FFFF
    {
      hide Test;
      var outer := 0;
      while outer < base.Length
        invariant outer <= base.Length
        invariant forall i :: 0 <= i < BITS * outer ==> i in Members()
      {
        FullWord(base[outer]);
        if base[outer] != ALL_USED {
          var inner := 0;
          while inner < BITS
            invariant inner <= BITS
            invariant forall i :: 0 <= i < BITS * outer + inner ==> i in Members()
          {
            var index := outer * BITS + inner;
            SplitIndex(outer, inner);
            var used := Check(index);
            if !used {
              assert LeastFree(Members(), BITS * base.Length, index);
              return index;
            }
            inner := inner + 1;
          }
        } else {
          FullRange(base[..], outer);
        }
        outer := outer + 1;
      }
      return NONE_FREE;
    }
  }

  lemma ZeroWord(i: nat)
    requires i < BITS
    ensures !Test(0, i)
  {
  }

  lemma SplitIndex(outer: nat, inner: nat)
    requires inner < BITS
    ensures (outer * BITS + inner) / BITS == outer && (outer * BITS + inner) % BITS == inner
  {
  }

  /** Every bit of a full word is a member. */
  lemma FullRange(words: seq<bv32>, outer: nat)
    requires outer < |words| && forall j :: 0 <= j < BITS ==> Test(words[outer], j)
    ensures forall i: nat :: BITS * outer <= i < BITS * outer + BITS ==> Bit(words, i)
  {
    hide Test;
    forall i: nat | BITS * outer <= i < BITS * outer + BITS ensures Bit(words, i) {
      SplitIndex(outer, i - BITS * outer);
    }
  }
}
