/** src/task/task.c: the task table, task creation and the round-robin choice of the next task. */
module Tasks {
  import opened Machine

  const MAX_TASKS: nat := 256
  const NO_TASK: Word32 := 0xFFFF_FFFF   // (pid_t)-1

  // ----- the scheduler on values -----

  /** Which slots hold a live task, and the task running now. */
  datatype State = State(alive: seq<bool>, current: Word32)

  datatype Op = Create | Switch

  /** No task is live and none has run, as after init_tasking. */
  ghost predicate Initial(s: State) {
    |s.alive| == MAX_TASKS && true !in s.alive && s.current == NO_TASK
  }

  /** current_task + 1 in 32 bits */
  function Start(current: Word32): (r: Word32) { (current + 1) % WORD_LIMIT }

  /** `x` mod `n`: whose turn it is among `n` tasks. */
  function Turn(x: nat, n: nat): nat
    requires n > 0
  {
    x % n
  }

  /** The slot looked at in round `k` of the search. */
  function SlotAt(start: nat, k: nat): (r: nat)
    ensures r < MAX_TASKS
  {
    (start + k) % MAX_TASKS
  }

  ghost predicate FirstFree(alive: seq<bool>, pid: nat) {
    pid < |alive| && !alive[pid] && forall j :: 0 <= j < pid ==> alive[j]
  }

  /** The first live slot in cyclic order from `start` is found in round `k`. */
  ghost predicate FirstLive(alive: seq<bool>, start: nat, k: nat)
    requires |alive| == MAX_TASKS
  {
    k < MAX_TASKS && alive[SlotAt(start, k)] && NoneLive(alive, start, k)
  }

  /** The first `k` rounds find nothing. */
  ghost predicate NoneLive(alive: seq<bool>, start: nat, k: nat)
    requires |alive| == MAX_TASKS
  {
    forall j: nat :: j < k ==> !alive[SlotAt(start, j)]
  }

  lemma FirstSlot(start: nat)
    requires start < MAX_TASKS
    ensures SlotAt(start, 0) == start
  {
  }

  lemma NextSlot(start: nat, k: nat)
    ensures SlotAt(start, k + 1) == (SlotAt(start, k) + 1) % MAX_TASKS
  {
  }

  /** What one call does, the faults included. */
  ghost predicate Step(s: State, op: Op, r: Outcome<State>) {
    |s.alive| == MAX_TASKS &&
    if op == Create then
      if r.Done? then Creates(s, r.value) else r.fault == NoFreeTask && false !in s.alive
    else
      if r.Done? then Switches(s, r.value) else r.fault == Undefined && CannotSwitch(s)
  }

  ghost predicate Creates(s: State, s': State) {
    exists pid: nat :: FirstFree(s.alive, pid) && s' == State(s.alive[pid := true], s.current)
  }

  ghost predicate Switches(s: State, s': State)
    requires |s.alive| == MAX_TASKS
  {
    Start(s.current) < MAX_TASKS &&
    exists k: nat :: FirstLive(s.alive, Start(s.current), k) && s' == State(s.alive, SlotAt(Start(s.current), k))
  }

  /** The search reads past the table, or there is nothing to find. */
  ghost predicate CannotSwitch(s: State) {
    Start(s.current) >= MAX_TASKS || true !in s.alive
  }

  // ----- one step from a table whose live slots are a prefix -----

  /** The live tasks are 0..n-1, and the running one is among them unless nothing has run yet. */
  ghost predicate Prefix(s: State, n: nat) {
    && |s.alive| == MAX_TASKS && n <= MAX_TASKS
    && (forall i :: 0 <= i < MAX_TASKS ==> s.alive[i] == (i < n))
    && (s.current == NO_TASK || s.current < n)
  }

  lemma CreateFromPrefix(s: State, n: nat, r: Outcome<State>)
    requires Prefix(s, n) && Step(s, Create, r)
    ensures r.Done? <==> n < 256
    ensures r.Done? ==> Prefix(r.value, n + 1) && r.value.current == s.current
  {
    if n < MAX_TASKS { assert !s.alive[n]; }
    if r.Done? {
      var pid: nat :| FirstFree(s.alive, pid) && r.value == State(s.alive[pid := true], s.current);
      assert n < MAX_TASKS && pid == n;
    }
  }

  /** A switch fails exactly when there is no task or slot 255 is running; otherwise it takes the next task in turn. */
  lemma SwitchFromPrefix(s: State, n: nat, r: Outcome<State>)
    requires Prefix(s, n) && Step(s, Switch, r)
    ensures r.Panic? <==> n == 0 || s.current == 255
    ensures r.Done? ==> Prefix(r.value, n) && r.value.alive == s.alive && r.value.current == Turn(Start(s.current), n)
  {
    var start := Start(s.current);
    if r.Done? {
      var k: nat :| FirstLive(s.alive, start, k) && r.value == State(s.alive, SlotAt(start, k));
      assert s.alive[SlotAt(start, k)];
      NextInPrefix(s, n, start, k);
    } else if n > 0 {
      assert s.alive[0];
    }
  }

  lemma NextInPrefix(s: State, n: nat, start: nat, k: nat)
    requires Prefix(s, n) && n > 0 && start <= n && start < MAX_TASKS && FirstLive(s.alive, start, k)
    ensures SlotAt(start, k) == Turn(start, n)
  {
    hide SlotAt;
    if start < n {
      SlotNear(start, 0);
      assert s.alive[SlotAt(start, 0)];
      TurnUnique(start, n, 0, start);
    } else {
      var wrap: nat := MAX_TASKS - start;
      SlotWraps(start);
      assert s.alive[SlotAt(start, wrap)];
      assert k <= wrap;
      if k < wrap { SlotNear(start, k); }
      TurnUnique(start, n, 1, 0);
    }
  }

  lemma SlotNear(start: nat, k: nat)
    requires start + k < MAX_TASKS
    ensures SlotAt(start, k) == start + k
  {
  }

  lemma SlotWraps(start: nat)
    requires start < MAX_TASKS
    ensures SlotAt(start, MAX_TASKS - start) == 0
  {
  }

  /** Both calls are total: some outcome is always allowed. */
  lemma StepTotal(s: State, n: nat, op: Op) returns (r: Outcome<State>)
    requires Prefix(s, n)
    ensures Step(s, op, r)
  {
    if op == Create {
      if n < MAX_TASKS {
        assert FirstFree(s.alive, n);
        return Done(s.(alive := s.alive[n := true]));
      }
      return Panic(NoFreeTask);
    }
    var start := Start(s.current);
    if n == 0 || start >= MAX_TASKS { return Panic(Undefined); }
    var k := if start < n then 0 else MAX_TASKS - start;
    assert FirstLive(s.alive, start, k);
    return Done(s.(current := SlotAt(start, k)));
  }

  // ----- whole runs -----

  /** A sequence of calls that all return, from the state init_tasking leaves. */
  ghost predicate Run(states: seq<State>, ops: seq<Op>) {
    && |states| == |ops| + 1 && Initial(states[0])
    && forall i :: 0 <= i < |ops| ==> Step(states[i], ops[i], Done(states[i + 1]))
  }

  function Count(op: Op, ops: seq<Op>): nat {
    if ops == [] then 0 else Count(op, ops[..|ops| - 1]) + if ops[|ops| - 1] == op then 1 else 0
  }

  /** The tasks created in the first `i` calls. */
  function TasksAt(ops: seq<Op>, i: nat): nat
    requires i <= |ops|
  {
    Count(Create, ops[..i])
  }

  lemma CountNone(op: Op, ops: seq<Op>, i: nat)
    requires i <= |ops|
    ensures Count(op, ops[i..i]) == 0
  {
  }

  lemma CountStep(op: Op, ops: seq<Op>, lo: nat, i: nat)
    requires lo <= i < |ops|
    ensures Count(op, ops[lo..i + 1]) == Count(op, ops[lo..i]) + if ops[i] == op then 1 else 0
  {
    assert ops[lo..i + 1][..i - lo] == ops[lo..i];
  }

  lemma {:induction false} CountGrows(ops: seq<Op>, i: nat, j: nat)
    requires i <= j <= |ops|
    ensures TasksAt(ops, i) <= TasksAt(ops, j)
    decreases j
  {
    if i < j {
      CountGrows(ops, i, j - 1);
      CountStep(Create, ops, 0, j - 1);
      assert ops[0..j] == ops[..j] && ops[0..j - 1] == ops[..j - 1];
    }
  }

  /** In every run the live pids are 0..n-1 for n tasks created, under every interleaving. */
  lemma {:induction false} RunPrefix(states: seq<State>, ops: seq<Op>, i: nat)
    requires Run(states, ops) && i <= |ops|
    ensures Prefix(states[i], TasksAt(ops, i))
  {
    hide Step, Prefix, Count;
    if i == 0 {
      InitialPrefix(states[0], ops);
    } else {
      RunPrefix(states, ops, i - 1);
      RunStep(states, ops, i - 1);
    }
  }

  lemma InitialPrefix(s: State, ops: seq<Op>)
    requires Initial(s)
    ensures Prefix(s, TasksAt(ops, 0))
  {
  }

  /** Each creation takes the next pid, and each switch takes (current + 1) mod n; current starts at -1. */
  lemma RunStep(states: seq<State>, ops: seq<Op>, i: nat)
    requires Run(states, ops) && i < |ops| && Prefix(states[i], TasksAt(ops, i))
    ensures TasksAt(ops, i + 1) == TasksAt(ops, i) + if ops[i] == Create then 1 else 0
    ensures Prefix(states[i + 1], TasksAt(ops, i + 1))
    ensures ops[i] == Create ==> TasksAt(ops, i) < 256 && states[i + 1].current == states[i].current
    ensures ops[i] == Switch ==> 0 < TasksAt(ops, i) && states[i].current != 255
    ensures ops[i] == Switch ==> states[i + 1].current == Turn(Start(states[i].current), TasksAt(ops, i))
  {
    hide Step, Prefix;
    var n := TasksAt(ops, i);
    CountStep(Create, ops, 0, i);
    assert ops[0..i + 1] == ops[..i + 1] && ops[0..i] == ops[..i];
    if ops[i] == Create {
      CreateFromPrefix(states[i], n, Done(states[i + 1]));
    } else {
      assert ops[i] == Switch;
      SwitchFromPrefix(states[i], n, Done(states[i + 1]));
    }
  }

  /** With 1 to 255 tasks no switch can fail, and creation fails only on a full table. */
  lemma RunNeverStuck(states: seq<State>, ops: seq<Op>, op: Op, r: Outcome<State>)
    requires Run(states, ops) && Step(states[|ops|], op, r)
    ensures op == Switch && 1 <= TasksAt(ops, |ops|) <= 255 ==> r.Done?
    ensures op == Create ==> (r.Done? <==> TasksAt(ops, |ops|) < 256)
  {
    hide Step, Count;
    var s, n := states[|ops|], TasksAt(ops, |ops|);
    RunPrefix(states, ops, |ops|);
    if op == Switch {
      SwitchFromPrefix(s, n, r);
    } else {
      assert op == Create;
      CreateFromPrefix(s, n, r);
    }
  }

  // ----- round robin -----

  /** Only switches between calls `i` and `j`. */
  ghost predicate OnlySwitches(ops: seq<Op>, i: nat, j: nat) {
    i <= j <= |ops| && forall k :: i <= k < j ==> ops[k] == Switch
  }

  lemma ModStep(x: nat, n: nat)
    requires n > 0
    ensures Turn(Turn(x, n) + 1, n) == Turn(x + 1, n)
  {
    hide Turn;
    var q := TurnParts(x, n);
    var r := Turn(x, n);
    if r + 1 == n {
      OneMoreTime(n, q);
      TurnUnique(x + 1, n, q + 1, 0);
      TurnUnique(n, n, 1, 0);
    } else {
      TurnUnique(x + 1, n, q, r + 1);
      TurnUnique(r + 1, n, 0, r + 1);
    }
  }

  lemma OneMoreTime(n: nat, q: nat)
    ensures n * (q + 1) == n * q + n
  {
  }

  lemma TurnParts(x: nat, n: nat) returns (q: nat)
    requires n > 0
    ensures x == n * q + Turn(x, n) && Turn(x, n) < n
  {
    q := x / n;
  }

  /** A remainder is what is left below `n`, whatever the quotient. */
  lemma TurnUnique(x: nat, n: nat, q: nat, r: nat)
    requires n > 0 && x == n * q + r && r < n
    ensures Turn(x, n) == r
  {
    hide Turn;
    var p := TurnParts(x, n);
    if p < q {
      Multiples(n, p, q);
    } else if q < p {
      Multiples(n, q, p);
    }
  }

  lemma {:induction false} Multiples(n: nat, p: nat, q: nat)
    requires p < q
    ensures n * p + n <= n * q
    decreases q
  {
    OneMoreTime(n, q - 1);
    if p + 1 < q { Multiples(n, p, q - 1); }
  }

  lemma OneMore(x: nat, current: Word32, n: nat)
    requires 0 < n < MAX_TASKS && current == Turn(x, n)
    ensures Turn(Start(current), n) == Turn(x + 1, n)
  {
    ModStep(x, n);
  }

  /** The task that `k` consecutive switches lead to. */
  lemma {:induction false} SwitchesAdvance(states: seq<State>, ops: seq<Op>, i: nat, k: nat)
    requires Run(states, ops) && k > 0 && OnlySwitches(ops, i, i + k) && TasksAt(ops, i) < MAX_TASKS
    ensures 0 < TasksAt(ops, i) && TasksAt(ops, i + k) == TasksAt(ops, i)
    ensures states[i + k].current == Turn(Start(states[i].current) + k - 1, TasksAt(ops, i))
  {
    hide Step, Count, Prefix;
    var n := TasksAt(ops, i);
    var x := Start(states[i].current);
    if k == 1 {
      RunPrefix(states, ops, i);
      RunStep(states, ops, i);
    } else {
      SwitchesAdvance(states, ops, i, k - 1);
      RunPrefix(states, ops, i + k - 1);
      RunStep(states, ops, i + k - 1);
      OneMore(x + k - 2, states[i + k - 1].current, n);
    }
  }

  /** `n` consecutive switches without a creation run each of the `n` tasks exactly once. */
  lemma RoundRobin(states: seq<State>, ops: seq<Op>, i: nat, pid: nat) returns (at: nat)
    requires Run(states, ops) && i <= |ops| && 0 < TasksAt(ops, i) <= 255
    requires OnlySwitches(ops, i, i + TasksAt(ops, i)) && pid < TasksAt(ops, i)
    ensures i < at <= i + TasksAt(ops, i) && states[at].current == pid
    ensures forall j :: i < j <= i + TasksAt(ops, i) && j != at ==> states[j].current != pid
  {
    hide Step, Count;
    var n := TasksAt(ops, i);
    var x := Start(states[i].current);
    RunPrefix(states, ops, i);
    assert x <= n;
    var k := if pid >= x then pid - x else pid + n - x;
    at := i + 1 + k;
    forall j | i < j <= i + n ensures states[j].current == pid <==> j == at {
      SwitchesAdvance(states, ops, i, j - i);
      var y := x + (j - i) - 1;
      if y < n { TurnUnique(y, n, 0, y); } else { TurnUnique(y, n, 1, y - n); }
    }
  }

  // ----- no task waits long, whatever is created meanwhile -----

  /** A bound on the switches still to come before `pid` runs. */
  function Wait(current: Word32, pid: nat): int {
    if current == NO_TASK then pid + 1
    else if current < pid then pid - current
    else MAX_TASKS - 1 - current + pid
  }

  /** `pid` is chosen by no switch among the calls from `i` to `j`. */
  ghost predicate Passed(states: seq<State>, ops: seq<Op>, i: nat, j: nat, pid: nat)
    requires |states| == |ops| + 1 && i <= j <= |ops|
  {
    forall k :: i <= k < j && ops[k] == Switch ==> states[k + 1].current != pid
  }

  lemma WaitDrops(s: Word32, s': Word32, n: nat, pid: nat)
    requires pid < n < MAX_TASKS && (s == NO_TASK || s < n)
    requires s' == Turn(Start(s), n) && s' != pid
    ensures 1 <= Wait(s', pid) <= Wait(s, pid) - 1
  {
    InTurn(s, n);
    NextWait(s, if Start(s) == n then 0 else Start(s), n, pid);
  }

  lemma NextWait(s: Word32, s': Word32, n: nat, pid: nat)
    requires pid < n < MAX_TASKS && (s == NO_TASK || s < n)
    requires s' == (if Start(s) == n then 0 else Start(s)) && s' != pid
    ensures 1 <= Wait(s', pid) <= Wait(s, pid) - 1
  {
  }

  lemma InTurn(s: Word32, n: nat)
    requires 0 < n < MAX_TASKS && (s == NO_TASK || s < n)
    ensures Turn(Start(s), n) == if Start(s) == n then 0 else Start(s)
  {
    if Start(s) == n { TurnUnique(Start(s), n, 1, 0); } else { TurnUnique(Start(s), n, 0, Start(s)); }
  }

  lemma {:induction false} WaitBound(states: seq<State>, ops: seq<Op>, i: nat, j: nat, pid: nat)
    requires Run(states, ops) && i <= j <= |ops| && pid < TasksAt(ops, i) && TasksAt(ops, j) < MAX_TASKS
    requires Passed(states, ops, i, j, pid)
    ensures pid < TasksAt(ops, j)
    ensures Count(Switch, ops[i..j]) + Wait(states[j].current, pid) <= Wait(states[i].current, pid)
    ensures 1 <= Wait(states[j].current, pid) < MAX_TASKS
    decreases j
  {
    hide Step, Wait, Start, Count, TasksAt;
    RunPrefix(states, ops, j);
    if i < j {
      CountGrows(ops, j - 1, j);
      WaitBound(states, ops, i, j - 1, pid);
      RunPrefix(states, ops, j - 1);
      RunStep(states, ops, j - 1);
      CountStep(Switch, ops, i, j - 1);
      if ops[j - 1] == Switch {
        WaitDrops(states[j - 1].current, states[j].current, TasksAt(ops, j - 1), pid);
      }
    } else {
      CountNone(Switch, ops, i);
      WaitRange(states[j].current, TasksAt(ops, j), pid);
    }
  }

  lemma WaitRange(current: Word32, n: nat, pid: nat)
    requires pid < n < MAX_TASKS && (current == NO_TASK || current < n)
    ensures 1 <= Wait(current, pid) < MAX_TASKS
  {
  }

  /** Under every interleaving with at most 255 tasks, every task runs among any 255 switches after its creation. */
  lemma NoStarvation(states: seq<State>, ops: seq<Op>, i: nat, j: nat, pid: nat)
    requires Run(states, ops) && i <= j <= |ops| && pid < TasksAt(ops, i) && TasksAt(ops, j) <= 255
    requires Count(Switch, ops[i..j]) >= 255
    ensures exists k :: i <= k < j && ops[k] == Switch && states[k + 1].current == pid
  {
    hide Step, Count, Wait;
    if Passed(states, ops, i, j, pid) {
      WaitBound(states, ops, i, j, pid);
      CountGrows(ops, i, j);
      RunPrefix(states, ops, i);
      WaitRange(states[i].current, TasksAt(ops, i), pid);
    }
  }

  // ----- the full table -----

  /**
   * With all 256 slots live and slot `c` running, exactly 255 - c more switches return; the next reads past the
   * table.
   */
  lemma {:induction false} FullTableStops(s: State, c: nat, after: seq<Outcome<State>>)
    requires Prefix(s, 256) && s.current == c < 256
    requires |after| == 256 - c
    requires Step(s, Switch, after[0])
    requires forall k :: 1 <= k < |after| ==> after[k - 1].Done? ==> Step(after[k - 1].value, Switch, after[k])
    ensures forall k :: 0 <= k < |after| - 1 ==> after[k].Done? && after[k].value.current == c + 1 + k
    ensures after[|after| - 1] == Panic(Undefined)
    decreases MAX_TASKS - c
  {
    hide Prefix, Step, Start;
    SwitchFromFull(s, c, after[0]);
    if c < MAX_TASKS - 1 {
      FullTableStops(after[0].value, c + 1, after[1..]);
      forall k | 1 <= k < |after| - 1 ensures after[k].Done? && after[k].value.current == c + 1 + k {
        assert after[1..][k - 1] == after[k];
      }
    }
  }

  lemma SwitchFromFull(s: State, c: nat, r: Outcome<State>)
    requires Prefix(s, MAX_TASKS) && s.current == c < MAX_TASKS && Step(s, Switch, r)
    ensures if c == MAX_TASKS - 1 then r == Panic(Undefined)
            else r.Done? && Prefix(r.value, MAX_TASKS) && r.value.current == c + 1
  {
    hide FirstLive, SlotAt;
    SwitchFromPrefix(s, MAX_TASKS, r);
  }

  // ----- the kernel's table -----

  datatype Slot = Slot(pid: Word32, alive: bool)

  ghost function AliveOf(slots: seq<Slot>): (alive: seq<bool>)
    ensures |alive| == |slots| && forall i :: 0 <= i < |slots| ==> alive[i] == slots[i].alive
  {
    if slots == [] then [] else AliveOf(slots[..|slots| - 1]) + [slots[|slots| - 1].alive]
  }

  class Scheduler {
    const tasks: array<Slot>
    var current: Word32

    ghost predicate Valid()
      reads this, tasks
    {
      && tasks.Length == MAX_TASKS
      && forall i :: 0 <= i < MAX_TASKS && tasks[i].alive ==> tasks[i].pid == i
    }

    ghost function Model(): (s: State)
      reads this, tasks
    {
      State(AliveOf(tasks[..]), current)
    }

    /** The zeroed table, and init_tasking. */
    constructor ()
      ensures Valid() && Initial(Model()) && fresh(tasks)
    {
      tasks := new Slot[MAX_TASKS](_ => Slot(0, false));
      current := NO_TASK;
    }

    /** find_available_task */
    method FindAvailable() returns (r: Outcome<nat>)
      requires Valid()
      ensures r.Done? ==> FirstFree(Model().alive, r.value)
      ensures r.Panic? ==> r.fault == NoFreeTask && false !in Model().alive
    {
      for i := 0 to MAX_TASKS
        invariant forall j :: 0 <= j < i ==> tasks[j].alive
      {
        if !tasks[i].alive { return Done(i); }
      }
      return Panic(NoFreeTask);
    }

    /** find_next_task */
    method FindNext() returns (r: Outcome<Word32>)
      requires Valid()
      ensures r.Panic? ==> r.fault == Undefined && Start(current) >= 256
      ensures r.Done? ==> Start(current) < 256
      ensures r.Done? && r.value == NO_TASK ==> true !in Model().alive
      ensures r.Done? && r.value != NO_TASK ==>
        exists k: nat :: FirstLive(Model().alive, Start(current), k) && r.value == SlotAt(Start(current), k)
    {
      var next := (current + 1) % WORD_LIMIT;
      if next >= MAX_TASKS { return Panic(Undefined); }
      hide SlotAt, Start, AliveOf;
      ghost var start := next;
      ghost var alive := Model().alive;
      FirstSlot(start);
      for i := 0 to MAX_TASKS
        invariant next == SlotAt(start, i) && NoneLive(alive, start, i)
      {
        NextSlot(start, i);
        if tasks[next].alive {
          assert FirstLive(alive, start, i);
          return Done(next);
        }
        next := (next + 1) % MAX_TASKS;
      }
      Covered(alive, start);
      return Done(NO_TASK);
    }

    /** The table and pid part of task_create. */
    method Create() returns (r: Outcome<Word32>)
      requires Valid()
      modifies tasks
      ensures Valid() && Step(old(Model()), Op.Create, if r.Done? then Done(Model()) else Panic(r.fault))
      ensures r.Done? ==> FirstFree(old(Model()).alive, r.value)
      ensures r.Done? ==> Model() == State(old(Model()).alive[r.value := true], old(current))
      ensures r.Panic? ==> Model() == old(Model())
    {
      var pid := FindAvailable();
      if pid.Panic? { return Panic(pid.fault); }
      tasks[pid.value] := Slot(pid.value, true);
      assert Model().alive == old(Model()).alive[pid.value := true];
      return Done(pid.value);
    }

    /** The choice made by task_switch. */
    method Switch() returns (r: Outcome<Word32>)
      requires Valid()
      modifies this`current
      ensures Valid() && Step(old(Model()), Op.Switch, if r.Done? then Done(Model()) else Panic(r.fault))
      ensures current == if r.Done? then r.value else if Start(old(current)) >= MAX_TASKS then old(current) else NO_TASK
    {
      var next := FindNext();
      if next.Panic? { return next; }
      current := next.value;
      if next.value == NO_TASK { return Panic(Undefined); }
      assert Model() == old(Model()).(current := next.value);
      return next;
    }
  }

  /** An input: 256 creations and 256 switches all return, and the switch after them reads past the table. */
  method FillTable() returns (s: Scheduler, r: Outcome<Word32>)
    ensures s.Valid() && s.current == 255 && r == Panic(Undefined)
  {
    hide Step, FirstFree, Initial, Start;
    s := new Scheduler();
    InitialPrefix(s.Model(), []);
    for i := 0 to MAX_TASKS
      invariant fresh(s) && fresh(s.tasks) && s.Valid() && Prefix(s.Model(), i) && s.current == NO_TASK
    {
      ghost var was := s.Model();
      var created := s.Create();
      CreateFromPrefix(was, i, if created.Done? then Done(s.Model()) else Panic(created.fault));
    }
    for i := 0 to MAX_TASKS
      invariant fresh(s) && fresh(s.tasks) && s.Valid() && Prefix(s.Model(), MAX_TASKS)
      invariant s.current == if i == 0 then NO_TASK else i - 1
    {
      ghost var was := s.Model();
      var switched := s.Switch();
      SwitchFromPrefix(was, MAX_TASKS, if switched.Done? then Done(s.Model()) else Panic(switched.fault));
      NextOfFull(was.current, i);
    }
    ghost var was := s.Model();
    r := s.Switch();
    LastOfFull(was, if r.Done? then Done(s.Model()) else Panic(r.fault));
  }

  lemma LastOfFull(s: State, r: Outcome<State>)
    requires Prefix(s, MAX_TASKS) && s.current == MAX_TASKS - 1 && Step(s, Switch, r)
    ensures r == Panic(Undefined) && Start(s.current) >= MAX_TASKS
  {
    SwitchFromPrefix(s, MAX_TASKS, r);
  }

  lemma NextOfFull(current: Word32, i: nat)
    requires i < MAX_TASKS && current == if i == 0 then NO_TASK else i - 1
    ensures Turn(Start(current), MAX_TASKS) == i
  {
  }

  /** The 256 rounds of the search look at every slot. */
  lemma Covered(alive: seq<bool>, start: nat)
    requires |alive| == MAX_TASKS && start < MAX_TASKS
    requires NoneLive(alive, start, MAX_TASKS)
    ensures true !in alive
  {
    forall i | 0 <= i < MAX_TASKS ensures !alive[i] {
      var j := if start <= i then i - start else i + MAX_TASKS - start;
      assert SlotAt(start, j) == i;
    }
  }
}
