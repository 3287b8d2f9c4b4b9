/** src/datastructs/ordered_array.c: an array kept in order by one backward bubble pass per change. */
module OrderedArrays {
  import opened Machine

  /** Both comparators of the kernel compare a key: the address itself, or a size read through it. */
  type Key = nat -> int

  // ----- specification -----

  /** One backward pass: the tail first, then its least element against the head. */
  function Pass(s: seq<nat>, key: Key): (r: seq<nat>)
    ensures |r| == |s|
  {
    if |s| <= 1 then s
    else
      var t := Pass(s[1..], key);
      if key(t[0]) < key(s[0]) then [t[0], s[0]] + t[1..] else [s[0]] + t
  }

  function Passes(s: seq<nat>, key: Key, k: nat): (r: seq<nat>)
    ensures |r| == |s|
  {
    if k == 0 then s else Pass(Passes(s, key, k - 1), key)
  }

  function RemoveAt(s: seq<nat>, i: nat): (r: seq<nat>)
    requires i < |s|
  {
    s[..i] + s[i + 1..]
  }

  ghost predicate Sorted(s: seq<nat>, key: Key) {
    forall i, j :: 0 <= i < j < |s| ==> key(s[i]) <= key(s[j])
  }

  /** No element of `s` has a key below `key(a)`. */
  ghost predicate AtMost(a: nat, s: seq<nat>, key: Key) {
    forall i :: 0 <= i < |s| ==> key(a) <= key(s[i])
  }

  // ----- what one pass does -----

  lemma HeadMultiset(s: seq<nat>)
    requires s != []
    ensures multiset(s) == multiset{s[0]} + multiset(s[1..])
  {
    assert s == [s[0]] + s[1..];
  }

  lemma {:induction false} PassKeepsMultiset(s: seq<nat>, key: Key)
    ensures multiset(Pass(s, key)) == multiset(s)
  {
    if |s| > 1 {
      PassKeepsMultiset(s[1..], key);
      HeadMultiset(s);
      JoinKeepsMultiset(s[0], Pass(s[1..], key));
    }
  }

  /** Putting `x` before `t`, in either order with its head. */
  lemma JoinKeepsMultiset(x: nat, t: seq<nat>)
    requires t != []
    ensures multiset([t[0], x] + t[1..]) == multiset{x} + multiset(t)
    ensures multiset([x] + t) == multiset{x} + multiset(t)
  {
    HeadMultiset(t);
  }

  /** A pass brings a minimum to the front, whatever the order was. */
  lemma {:induction false} PassBringsMinimum(s: seq<nat>, key: Key)
    requires s != []
    ensures Pass(s, key)[0] in s && AtMost(Pass(s, key)[0], s, key)
  {
    if |s| > 1 {
      PassBringsMinimum(s[1..], key);
      assert s == [s[0]] + s[1..];
    }
  }

  /** A pass that finds the array sorted changes nothing. */
  lemma {:induction false} PassOnSorted(s: seq<nat>, key: Key)
    requires Sorted(s, key)
    ensures Pass(s, key) == s
  {
    if |s| > 1 {
      PassOnSorted(s[1..], key);
    }
  }

  /** Only the keys of the elements present matter. */
  lemma {:induction false} PassDependsOnKeys(s: seq<nat>, f: Key, g: Key)
    requires forall x :: x in s ==> f(x) == g(x)
    ensures Pass(s, f) == Pass(s, g)
  {
    if |s| > 1 {
      PassDependsOnKeys(s[1..], f, g);
      PassBringsMinimum(s[1..], f);
    }
  }

  /** `front` with `x` put behind every element of at most its key. */
  function Place(front: seq<nat>, x: nat, key: Key): (r: seq<nat>)
    ensures |r| == |front| + 1
  {
    if front == [] then [x]
    else if key(x) < key(front[0]) then [x] + front
    else [front[0]] + Place(front[1..], x, key)
  }

  /** One element that is too far right moves to its place; this is an append, or an element that shrank. */
  lemma {:induction false} PassPlaces(front: seq<nat>, x: nat, rest: seq<nat>, key: Key)
    requires Sorted(front, key) && Sorted([x] + rest, key)
    ensures Pass(front + ([x] + rest), key) == Place(front, x, key) + rest
  {
    if front == [] {
      assert front + ([x] + rest) == [x] + rest;
      PassOnSorted([x] + rest, key);
    } else {
      var tail := front[1..];
      PassPlaces(tail, x, rest, key);
      assert (front + ([x] + rest))[1..] == tail + ([x] + rest);
      PlaceStep(front, x, rest, key);
    }
  }

  lemma PlaceStep(front: seq<nat>, x: nat, rest: seq<nat>, key: Key)
    requires front != [] && Sorted(front, key)
    ensures var t := Place(front[1..], x, key) + rest;
      Place(front, x, key) + rest ==
        if key(t[0]) < key(front[0]) then [t[0], front[0]] + t[1..] else [front[0]] + t
  {
    var tail := front[1..];
    assert tail != [] ==> key(front[0]) <= key(tail[0]);
    var t := Place(tail, x, key) + rest;
    if key(x) < key(front[0]) {
      assert Place(tail, x, key) == [x] + tail;
      Assoc([x], tail, rest);
      assert t == [x] + (tail + rest) && t[1..] == tail + rest;
      assert front == [front[0]] + tail;
      assert Place(front, x, key) == [x] + front;
      PairInFront(x, front[0], tail, rest);
    } else {
      Assoc([front[0]], Place(tail, x, key), rest);
    }
  }

  lemma PairInFront(x: nat, y: nat, tail: seq<nat>, rest: seq<nat>)
    ensures ([x] + ([y] + tail)) + rest == [x, y] + (tail + rest)
  {
  }

  lemma {:induction false} PlaceSorted(front: seq<nat>, x: nat, rest: seq<nat>, key: Key)
    requires Sorted(front + rest, key) && Sorted([x] + rest, key)
    ensures Sorted(Place(front, x, key) + rest, key)
  {
    hide Sorted;
    if front != [] {
      var tail := front[1..];
      assert front == [front[0]] + tail;
      Assoc([front[0]], tail, rest);
      PrependSorted(front[0], tail + rest, key);
      if key(x) < key(front[0]) {
        PrependSorted(x, front + rest, key);
        Assoc([x], front, rest);
      } else {
        PrependSorted(x, rest, key);
        PlaceSorted(tail, x, rest, key);
        PlaceHead(tail, x, key);
        PrependSorted(front[0], Place(tail, x, key) + rest, key);
        Assoc([front[0]], Place(tail, x, key), rest);
      }
    }
  }

  lemma PlaceHead(front: seq<nat>, x: nat, key: Key)
    ensures Place(front, x, key)[0] == x || (front != [] && Place(front, x, key)[0] == front[0])
  {
  }

  /** So order is restored after an append, or after one element shrank. */
  lemma PassRestoresOrder(front: seq<nat>, x: nat, rest: seq<nat>, key: Key)
    requires Sorted(front + rest, key) && Sorted([x] + rest, key)
    ensures Sorted(Pass(front + ([x] + rest), key), key)
  {
    hide Pass;
    SortedTail(front, rest, key);
    PassPlaces(front, x, rest, key);
    PlaceSorted(front, x, rest, key);
  }

  // ----- settled elements -----

  /** `front` is in its final place when everything after it is `rest`, in any order. */
  ghost predicate Settled(front: seq<nat>, rest: seq<nat>, key: Key) {
    Sorted(front, key) && forall i :: 0 <= i < |front| ==> AtMost(front[i], rest, key)
  }

  /** Elements already in place at the front stay there, and the pass works on the rest. */
  lemma {:induction false} PassSkipsSettled(front: seq<nat>, rest: seq<nat>, key: Key)
    requires Settled(front, rest, key)
    ensures Pass(front + rest, key) == front + Pass(rest, key)
  {
    if front == [] {
      assert front + rest == rest;
      assert front + Pass(rest, key) == Pass(rest, key);
    } else {
      var s := front + rest;
      assert s[1..] == front[1..] + rest;
      PassSkipsSettled(front[1..], rest, key);
      if |front| == 1 && rest != [] {
        PassBringsMinimum(rest, key);
      }
      assert [front[0]] + (front[1..] + Pass(rest, key)) == front + Pass(rest, key);
    }
  }

  /** A single grown element moves at most one place to the right, and nothing else moves. */
  lemma PassMovesGrownOnce(front: seq<nat>, x: nat, rest: seq<nat>, key: Key)
    requires Settled(front, rest, key) && Sorted(rest, key)
    requires forall i :: 0 <= i < |front| ==> key(front[i]) <= key(x)
    ensures Pass(front + ([x] + rest), key) ==
      front + if rest != [] && key(rest[0]) < key(x) then [rest[0], x] + rest[1..] else [x] + rest
  {
    PassSkipsSettled(front, [x] + rest, key);
    assert ([x] + rest)[1..] == rest;
    PassOnSorted(rest, key);
  }

  /** So a single pass repairs growth exactly when the grown element outgrew no more than one neighbour. */
  lemma GrownRepairedIff(front: seq<nat>, x: nat, rest: seq<nat>, key: Key)
    requires Settled(front, rest, key) && Sorted(rest, key)
    requires forall i :: 0 <= i < |front| ==> key(front[i]) <= key(x)
    ensures Sorted(Pass(front + ([x] + rest), key), key) <==> (|rest| >= 2 ==> key(x) <= key(rest[1]))
  {
    hide Pass, Sorted, Settled;
    PassMovesGrownOnce(front, x, rest, key);
    if rest != [] {
      HeadAndTail(rest);
      PrependSorted(rest[0], rest[1..], key);
    }
    if rest != [] && key(rest[0]) < key(x) {
      GrownMoved(front, x, rest, key);
    } else {
      SettledOver(front, [x] + rest, x, rest, key);
      PrependSorted(x, rest, key);
    }
  }

  lemma HeadAndTail(s: seq<nat>)
    requires s != []
    ensures s == [s[0]] + s[1..] && (|s| >= 2 ==> s[1..][0] == s[1])
  {
  }

  lemma GrownMoved(front: seq<nat>, x: nat, rest: seq<nat>, key: Key)
    requires Settled(front, rest, key) && Sorted(rest, key) && rest != [] && key(rest[0]) < key(x)
    requires forall i :: 0 <= i < |front| ==> key(front[i]) <= key(x)
    ensures Sorted(front + ([rest[0], x] + rest[1..]), key) <==> (|rest| >= 2 ==> key(x) <= key(rest[1]))
  {
    hide Sorted, Settled;
    var tail := [x] + rest[1..];
    HeadAndTail(rest);
    PrependSorted(rest[0], rest[1..], key);
    assert [rest[0], x] + rest[1..] == [rest[0]] + tail;
    SettledOver(front, [rest[0]] + tail, x, rest, key);
    PrependSorted(rest[0], tail, key);
    PrependSorted(x, rest[1..], key);
  }

  /** A settled front stays settled over any rearrangement of the rest and x. */
  lemma SettledOver(front: seq<nat>, s: seq<nat>, x: nat, rest: seq<nat>, key: Key)
    requires Settled(front, rest, key)
    requires forall i :: 0 <= i < |front| ==> key(front[i]) <= key(x)
    requires forall y :: y in s ==> y == x || y in rest
    ensures Sorted(front + s, key) <==> Sorted(s, key)
  {
    forall i | 0 <= i < |front| ensures AtMost(front[i], s, key) {
      forall j | 0 <= j < |s| ensures key(front[i]) <= key(s[j]) {
        assert s[j] in s;
      }
    }
    SortedTail(front, s, key);
  }

  lemma PrependSorted(x: nat, rest: seq<nat>, key: Key)
    ensures Sorted([x] + rest, key) <==> (rest == [] || key(x) <= key(rest[0])) && Sorted(rest, key)
  {
    var s := [x] + rest;
    assert forall j :: 0 <= j < |rest| ==> s[j + 1] == rest[j];
    if Sorted(s, key) {
      if rest != [] {
        assert key(s[0]) <= key(s[1]);
      }
      forall i, j | 0 <= i < j < |rest| ensures key(rest[i]) <= key(rest[j]) {
        assert key(s[i + 1]) <= key(s[j + 1]);
      }
    }
  }

  /** Sortedness of a concatenation whose front bounds its rest is sortedness of the two parts. */
  lemma SortedTail(front: seq<nat>, rest: seq<nat>, key: Key)
    ensures Settled(front, rest, key) && Sorted(rest, key) <==> Sorted(front + rest, key)
  {
    var s := front + rest;
    assert forall i :: 0 <= i < |front| ==> s[i] == front[i];
    assert forall j :: 0 <= j < |rest| ==> s[|front| + j] == rest[j];
    if Sorted(s, key) {
      forall i | 0 <= i < |front| ensures AtMost(front[i], rest, key) {
        forall j | 0 <= j < |rest| ensures key(front[i]) <= key(rest[j]) {
          assert key(s[i]) <= key(s[|front| + j]);
        }
      }
      forall i, j | 0 <= i < j < |rest| ensures key(rest[i]) <= key(rest[j]) {
        assert key(s[|front| + i]) <= key(s[|front| + j]);
      }
    }
  }

  // ----- k passes -----

  /** One more pass settles one more element. */
  lemma PassSettlesOneMore(front: seq<nat>, rest: seq<nat>, key: Key)
    requires Settled(front, rest, key) && rest != []
    ensures var p := Pass(rest, key); Settled(front + [p[0]], p[1..], key)
  {
    hide Pass;
    var p := Pass(rest, key);
    PassBringsMinimum(rest, key);
    PassKeepsMultiset(rest, key);
    forall j | 0 <= j < |p| ensures p[j] in rest {
      assert p[j] in multiset(p);
    }
    assert forall i, j :: 0 <= i < |front| && 0 <= j < |p| ==> key(front[i]) <= key(p[j]);
  }

  lemma {:induction false} PassesKeepMultiset(s: seq<nat>, key: Key, k: nat)
    ensures multiset(Passes(s, key, k)) == multiset(s)
  {
    hide Pass;
    if k > 0 {
      PassesKeepMultiset(s, key, k - 1);
      PassKeepsMultiset(Passes(s, key, k - 1), key);
    }
  }

  /** After k passes the k smallest elements of any array stand in order at the front. */
  lemma {:induction false} PassesSettleFront(s: seq<nat>, key: Key, k: nat)
    requires k <= |s|
    ensures Settled(Passes(s, key, k)[..k], Passes(s, key, k)[k..], key)
  {
    hide Pass;
    if k > 0 {
      PassesSettleFront(s, key, k - 1);
      SettleStep(Passes(s, key, k - 1), key, k - 1);
    }
  }

  lemma SettleStep(u: seq<nat>, key: Key, k: nat)
    requires k < |u| && Settled(u[..k], u[k..], key)
    ensures Settled(Pass(u, key)[..k + 1], Pass(u, key)[k + 1..], key)
  {
    hide Pass;
    var front, rest := u[..k], u[k..];
    assert u == front + rest;
    PassSkipsSettled(front, rest, key);
    PassSettlesOneMore(front, rest, key);
    var p := Pass(rest, key);
    assert (front + p)[..k + 1] == front + [p[0]] && (front + p)[k + 1..] == p[1..];
  }

  /** How the pass state `was[..i] + Pass(was[i..])` changes when `i` goes down by one. */
  lemma PassStep(was: seq<nat>, i: nat, key: Key)
    requires 0 < i < |was|
    ensures var s := was[..i] + Pass(was[i..], key);
      was[..i - 1] + Pass(was[i - 1..], key) == if key(s[i]) < key(s[i - 1]) then s[i := s[i - 1]][i - 1 := s[i]] else s
  {
    assert was[i - 1..][1..] == was[i..];
  }

  // ----- sortedness under insert and remove -----

  lemma InsertKeepsSorted(s: seq<nat>, a: nat, key: Key)
    requires Sorted(s, key)
    ensures Sorted(Pass(s + [a], key), key)
  {
    hide Pass;
    assert s + [] == s && s + ([a] + []) == s + [a];
    PassRestoresOrder(s, a, [], key);
  }

  lemma RemoveKeepsSorted(s: seq<nat>, i: nat, key: Key)
    requires i < |s| && Sorted(s, key)
    ensures Sorted(RemoveAt(s, i), key)
  {
  }

  // ----- counting occurrences -----

  function Occurs(s: seq<nat>, a: nat): nat {
    multiset(s)[a]
  }

  lemma OccursRemoved(s: seq<nat>, i: nat, a: nat)
    requires i < |s|
    ensures Occurs(RemoveAt(s, i), a) == Occurs(s, a) - (if s[i] == a then 1 else 0)
  {
    RemoveAtMultiset(s, i);
    assert s[i] in multiset(s);
  }

  lemma OccursPassed(s: seq<nat>, key: Key, a: nat)
    ensures Occurs(Pass(s, key), a) == Occurs(s, a)
  {
    PassKeepsMultiset(s, key);
  }

  lemma OccursAppended(s: seq<nat>, b: nat, a: nat)
    ensures Occurs(s + [b], a) == Occurs(s, a) + (if a == b then 1 else 0)
  {
  }

  lemma OccursIn(s: seq<nat>, a: nat)
    ensures Occurs(s, a) > 0 <==> a in s
  {
    assert a in multiset(s) <==> a in s;
  }

  lemma RemoveAtMultiset(s: seq<nat>, i: nat)
    requires i < |s|
    ensures multiset(RemoveAt(s, i)) == multiset(s) - multiset{s[i]}
  {
    assert s == s[..i] + [s[i]] + s[i + 1..];
  }

  // ----- the array itself -----

  class OrderedArray {
    const elems: array<nat>
    var size: nat

    ghost predicate Valid()
      reads this
    {
      size <= elems.Length
    }

    ghost function Contents(): (s: seq<nat>)
      requires Valid()
      reads this, elems
    {
      elems[..size]
    }

    /** ordered_array_create_at */
    constructor (maxSize: nat)
      ensures Valid() && fresh(elems) && elems.Length == maxSize && Contents() == []
    {
      elems := new nat[maxSize](_ => 0);
      size := 0;
    }

    /** ordered_array_changed_element */
    method ChangedElement(key: Key)
      requires Valid()
      modifies elems
      ensures Contents() == Pass(old(Contents()), key)
    {
      if size == 0 { return; }
      ghost var was := Contents();
      var i := size - 1;
      assert was == was[..i] + Pass(was[i..], key);
      while i > 0
        invariant 0 <= i < size
        invariant Contents() == was[..i] + Pass(was[i..], key)
      {
        PassStep(was, i, key);
        if key(elems[i]) < key(elems[i - 1]) {
          var temp := elems[i];
          elems[i] := elems[i - 1];
          elems[i - 1] := temp;
        }
        i := i - 1;
      }
      assert was[0..] == was;
    }

    /** ordered_array_insert */
    method Insert(value: nat, key: Key) returns (r: Outcome<()>)
      requires Valid()
      modifies this`size, elems
      ensures Valid()
      ensures r == if old(size) < elems.Length then Done(()) else Panic(IndexFull)
      ensures r.Done? ==> Contents() == Pass(old(Contents()) + [value], key)
      ensures r.Panic? ==> Contents() == old(Contents())
    {
      if size + 1 > elems.Length {
        return Panic(IndexFull);
      }
      elems[size] := value;
      size := size + 1;
      assert Contents() == old(Contents()) + [value];
      ChangedElement(key);
      return Done(());
    }

    /** ordered_array_remove */
    method Remove(index: nat) returns (r: Outcome<()>)
      requires Valid()
      modifies this`size, elems
      ensures Valid()
      ensures r == if index < old(size) then Done(()) else Panic(OutOfBounds)
      ensures r.Done? ==> Contents() == RemoveAt(old(Contents()), index)
      ensures r.Panic? ==> Contents() == old(Contents())
    {
      if index >= size {
        return Panic(OutOfBounds);
      }
      ghost var was := Contents();
      var i := index;
      size := size - 1;
      while i < size
        invariant index <= i <= size == |was| - 1 < elems.Length
        invariant forall j :: 0 <= j < index ==> elems[j] == was[j]
        invariant forall j :: index <= j < i ==> elems[j] == was[j + 1]
        invariant forall j :: i <= j <= size ==> elems[j] == was[j]
      {
        elems[i] := elems[i + 1];
        i := i + 1;
      }
      assert Contents() == RemoveAt(was, index);
      return Done(());
    }

    /** ordered_array_index */
    method Index(index: nat) returns (r: Outcome<nat>)
      requires Valid()
      ensures r == if index < size then Done(Contents()[index]) else Panic(OutOfBounds)
    {
      if index >= size {
        return Panic(OutOfBounds);
      }
      return Done(elems[index]);
    }
  }
}
