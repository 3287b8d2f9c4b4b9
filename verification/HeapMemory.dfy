/** Memory over whole runs: requests, releases, and the callers' own writes to their payloads. */
module HeapMemory {
  import opened Machine
  import opened HeapLayout
  import opened HeapAlloc
  import opened HeapFree
  import opened HeapTags
  import opened HeapLaws
  import opened HeapRuns

  datatype State = State(layout: Layout, mem: seq<Byte>)

  /** A heap operation, or a caller's write to one byte of a live payload. */
  datatype Action = Operate(op: Op) | Poke(at: nat, value: Byte)

  ghost predicate InPayload(bs: seq<Block>, x: nat) {
    exists b: Block :: b in bs && !b.hole && b.Pointer() <= x < b.End() - FOOTER_SIZE
  }

  ghost predicate Consistent(s: State) {
    WellFormed(s.layout) && s.layout.limit <= |s.mem| && Tagged(s.mem, s.layout.blocks)
  }

  /**
   * A heap operation, as a step of the layout and a footprint in memory: blocks that stay are not written to, and
   * blocks that are new have their tags. Nothing is said of the tags of any other block, nor of the new layout.
   */
  ghost predicate Operates(s: State, op: Op, s': State)
    requires WellFormed(s.layout)
  {
    && (match op
        case Request(n, align) =>
          Alloc(s.layout, n, align).Done? && s'.layout == Alloc(s.layout, n, align).value.layout
        case Release(p) =>
          if p == 0 then s'.layout == s.layout else IsLive(s.layout, p) && Free(s.layout, p) == Done(s'.layout))
    && |s'.mem| == |s.mem|
    && Untouched(s.mem, s.layout.blocks, s'.mem, s'.layout.blocks)
    && forall b: Block :: b in s'.layout.blocks && b !in s.layout.blocks ==> BlockTagged(s'.mem, b)
  }

  ghost predicate Moves(s: State, act: Action, s': State)
    requires WellFormed(s.layout)
  {
    match act
    case Operate(op) => Operates(s, op, s')
    case Poke(x, v) => InPayload(s.layout.blocks, x) && x < |s.mem| && s' == s.(mem := s.mem[x := v])
  }

  /** A caller that stays inside its payload cannot spoil a tag. */
  lemma PokeKeepsConsistent(s: State, x: nat, v: Byte)
    requires Consistent(s) && InPayload(s.layout.blocks, x) && x < |s.mem|
    ensures Consistent(s.(mem := s.mem[x := v]))
  {
    hide BlockTagged, Tiles;
    var l, m' := s.layout, s.mem[x := v];
    var b: Block :| b in l.blocks && !b.hole && b.Pointer() <= x < b.End() - FOOTER_SIZE;
    var k :| 0 <= k < |l.blocks| && l.blocks[k] == b;
    forall j | 0 <= j < |l.blocks| ensures BlockTagged(m', l.blocks[j]) {
      PokeKeepsTag(l.blocks, l.start, l.end, s.mem, m', k, x, j);
    }
  }

  lemma PokeKeepsTag(bs: seq<Block>, lo: nat, hi: nat, m: seq<Byte>, m': seq<Byte>, k: nat, x: nat, j: nat)
    requires Tiles(bs, lo, hi) && k < |bs| && j < |bs| && BlockTagged(m, bs[j])
    requires bs[k].Pointer() <= x < bs[k].End() - FOOTER_SIZE && SameOutside(m, m', x, x + 1)
    ensures BlockTagged(m', bs[j])
  {
    hide BlockTagged, Tiles, SameOutside;
    if j == k {
      InnerFrame(m, m', bs[k], x);
    } else {
      if j < k { TilesOrdered(bs, lo, hi, j, k); } else { TilesOrdered(bs, lo, hi, k, j); }
      TagFrame(m, m', x, x + 1, bs[j]);
    }
  }

  lemma InnerFrame(m: seq<Byte>, m': seq<Byte>, b: Block, x: nat)
    requires BlockTagged(m, b) && SameOutside(m, m', x, x + 1) && b.Pointer() <= x < b.End() - FOOTER_SIZE
    ensures BlockTagged(m', b)
  {
    hide Word;
    WordFrame(m, m', x, x + 1, b.addr);
    WordFrame(m, m', x, x + 1, b.addr + 4);
    WordFrame(m, m', x, x + 1, b.addr + 8);
    WordFrame(m, m', x, x + 1, b.End() - 8);
    WordFrame(m, m', x, x + 1, b.End() - 4);
  }

  lemma AllocLimit(l: Layout, n: nat, align: bool)
    requires WellFormed(l) && Alloc(l, n, align).Done?
    ensures Alloc(l, n, align).value.layout.limit == l.limit
  {
    hide Alloc, Locate, CarveAt, CarveFront;
    AllocLocates(l, n, align);
    var l1, i, offset, size := AllocIsCarveAt(l, n, align);
    CarveAtBlocks(l1, i, offset, size);
    CarveFrontLimit(l1, i, offset, size);
    if l1 != l { GrowWellFormed(l, n + TAGS); }
  }

  lemma CarveFrontLimit(l: Layout, i: nat, offset: nat, size: nat)
    requires i < |l.index| && Find(l.blocks, l.index[i]) < |l.blocks| && offset + size <= Chosen(l, i).size
    ensures CarveFront(l, i, offset, size).limit == l.limit
  {
  }

  /** A layout step keeps the layout well formed and the arena inside its limit. */
  lemma StepWellFormed(s: State, op: Op, s': State)
    requires WellFormed(s.layout) && Operates(s, op, s')
    ensures WellFormed(s'.layout) && s'.layout.limit == s.layout.limit
  {
    hide Alloc, Free, WellFormed;
    if op.Request? {
      AllocWellFormed(s.layout, op.size, op.align);
      AllocLimit(s.layout, op.size, op.align);
    } else if op.ptr != 0 {
      FreeWellFormed(s.layout, op.ptr);
      FreeFrame(s.layout, op.ptr);
    }
  }

  /** The footprint of an operation leaves every tag in place. */
  lemma OperationKeepsConsistent(s: State, op: Op, s': State)
    requires Consistent(s) && Operates(s, op, s')
    ensures Consistent(s')
  {
    hide Alloc, Free, WellFormed, BlockTagged, BlockKept;
    StepWellFormed(s, op, s');
    var bs, bs' := s.layout.blocks, s'.layout.blocks;
    forall i | 0 <= i < |bs'| ensures BlockTagged(s'.mem, bs'[i]) {
      if bs'[i] in bs {
        var j :| 0 <= j < |bs| && bs[j] == bs'[i];
        KeptTag(s.mem, s'.mem, bs[j]);
      }
    }
  }

  lemma MoveKeepsConsistent(s: State, act: Action, s': State)
    requires Consistent(s) && Moves(s, act, s')
    ensures Consistent(s')
  {
    if act.Poke? {
      PokeKeepsConsistent(s, act.at, act.value);
    } else {
      OperationKeepsConsistent(s, act.op, s');
    }
  }

  /** A trace of states, one action between each two. */
  ghost predicate Trace(states: seq<State>, acts: seq<Action>) {
    && |states| == |acts| + 1 && Consistent(states[0])
    && (forall i :: 0 <= i < |acts| ==> WellFormed(states[i].layout) && Moves(states[i], acts[i], states[i + 1]))
  }

  /** `b` is live in every state of the trace. */
  ghost predicate LiveThroughout(states: seq<State>, b: Block) {
    !b.hole && forall i :: 0 <= i < |states| ==> b in states[i].layout.blocks
  }

  lemma {:induction false} TraceConsistent(states: seq<State>, acts: seq<Action>)
    requires Trace(states, acts)
    ensures forall i :: 0 <= i < |states| ==> Consistent(states[i])
  {
    var n := |acts|;
    if n > 0 {
      TraceConsistent(states[..n], acts[..n - 1]);
      assert states[..n][n - 1] == states[n - 1];
      MoveKeepsConsistent(states[n - 1], acts[n - 1], states[n]);
    }
  }

  /** Over any trace, the payload of a block that stays live changes only where its owner writes. */
  lemma {:induction false} PayloadSurvives(states: seq<State>, acts: seq<Action>, b: Block, x: nat)
    requires Trace(states, acts) && LiveThroughout(states, b)
    requires b.Pointer() <= x < b.End() - FOOTER_SIZE
    requires forall i :: 0 <= i < |acts| && acts[i].Poke? ==> acts[i].at != x
    ensures x < |states[0].mem| == |states[|acts|].mem| && states[|acts|].mem[x] == states[0].mem[x]
  {
    var n := |acts|;
    TraceConsistent(states, acts);
    PayloadInMemory(states[0], b);
    if n > 0 {
      PayloadSurvives(states[..n], acts[..n - 1], b, x);
      var s, s' := states[n - 1], states[n];
      assert Moves(s, acts[n - 1], s');
      if acts[n - 1].Operate? {
        assert BlockKept(s.mem, s'.mem, b);
      }
    }
  }

  ghost predicate InPayloadOf(b: Block, x: nat) {
    b.Pointer() <= x < b.End() - FOOTER_SIZE
  }

  /** Some action of the run writes to `x`. */
  ghost predicate Poked(acts: seq<Action>, x: nat) {
    exists i :: 0 <= i < |acts| && acts[i].Poke? && acts[i].at == x
  }

  /** PayloadSurvives for every block and byte. */
  lemma PayloadsSurvive(states: seq<State>, acts: seq<Action>)
    requires Trace(states, acts)
    ensures forall b: Block, x: nat :: LiveThroughout(states, b) && InPayloadOf(b, x) && !Poked(acts, x) ==>
      x < |states[0].mem| == |states[|acts|].mem| && states[|acts|].mem[x] == states[0].mem[x]
  {
    hide Moves, WellFormed, Consistent;
    forall b: Block, x: nat | LiveThroughout(states, b) && InPayloadOf(b, x) && !Poked(acts, x)
      ensures x < |states[0].mem| == |states[|acts|].mem| && states[|acts|].mem[x] == states[0].mem[x]
    {
      PayloadSurvives(states, acts, b, x);
    }
  }

  lemma PayloadInMemory(s: State, b: Block)
    requires Consistent(s) && b in s.layout.blocks
    ensures b.End() <= |s.mem|
  {
    var k :| 0 <= k < |s.layout.blocks| && s.layout.blocks[k] == b;
    assert BlockTagged(s.mem, s.layout.blocks[k]);
  }

  // ----- what a sequence of actions does to the layout -----

  /** What the callers owe: requests of a sensible size, releases of live pointers or null, writes to live payloads. */
  ghost predicate Proper(l: Layout, act: Action) {
    match act
    case Operate(Request(n, _)) => n < REQUEST_LIMIT
    case Operate(Release(p)) => p == 0 || IsLive(l, p)
    case Poke(x, _) => InPayload(l.blocks, x)
  }

  ghost function After(l: Layout, act: Action): (r: Outcome<Layout>)
    requires WellFormed(l) && Proper(l, act)
    ensures r.Done? ==> WellFormed(r.value)
  {
    match act
    case Operate(Request(n, align)) =>
      if Alloc(l, n, align).Panic? then Panic(Alloc(l, n, align).fault)
      else
        AllocWellFormed(l, n, align);
        Done(Alloc(l, n, align).value.layout)
    case Operate(Release(p)) =>
      if p == 0 then Done(l)
      else
        FreeWellFormed(l, p);
        Free(l, p)
    case Poke(_, _) => Done(l)
  }

  /** Every action of the run is proper when its turn comes. */
  ghost predicate ProperRun(l: Layout, acts: seq<Action>)
    requires WellFormed(l)
    decreases |acts|
  {
    acts == [] ||
    (Proper(l, acts[0]) && (After(l, acts[0]).Done? ==> ProperRun(After(l, acts[0]).value, acts[1..])))
  }

  /** The layout after the run, or the first fault. */
  ghost function Play(l: Layout, acts: seq<Action>): Outcome<Layout>
    requires WellFormed(l) && ProperRun(l, acts)
    decreases |acts|
  {
    if acts == [] then Done(l)
    else if After(l, acts[0]).Panic? then Panic(After(l, acts[0]).fault)
    else Play(After(l, acts[0]).value, acts[1..])
  }

  lemma PokeIsProper(l: Layout, act: Action)
    requires WellFormed(l) && act.Poke? && Proper(l, act)
    ensures InPayload(l.blocks, act.at) && After(l, act) == Done(l)
  {
  }

  lemma PokeInMemory(s: State, x: nat)
    requires Consistent(s) && InPayload(s.layout.blocks, x)
    ensures x < |s.mem|
  {
    var b: Block :| b in s.layout.blocks && !b.hole && b.Pointer() <= x < b.End() - FOOTER_SIZE;
    PayloadInMemory(s, b);
  }

  lemma StartTrace(s: State, acts: seq<Action>)
    requires Consistent(s)
    ensures Trace([s], acts[..0]) && acts[0..] == acts
  {
  }

  /** One more state at the end of a trace. */
  lemma TraceExtends(states: seq<State>, acts: seq<Action>, i: nat, s: State)
    requires i < |acts| && Trace(states, acts[..i])
    requires WellFormed(states[i].layout) && Moves(states[i], acts[i], s)
    ensures Trace(states + [s], acts[..i + 1])
  {
    hide Moves, WellFormed, Consistent;
    var more := states + [s];
    forall j | 0 <= j < i + 1 ensures WellFormed(more[j].layout) && Moves(more[j], acts[..i + 1][j], more[j + 1]) {
      assert j < i ==> acts[..i][j] == acts[j];
    }
  }
}
