/**
 The round-robin task table as a value, and what holds of it in every run of
 additions and timer ticks.
 */
module TaskTable {
  import opened Words
  import Bits

  const MAX_TASKS: nat := 16
  const NO_TASK: U64 := 0xFFFF_FFFF_FFFF_FFFF

  datatype ProcessState = Ready | Running | Idle

  datatype Process = Process(id: U64, name: string, state: ProcessState)

  /** The stored tasks in order of addition, and which of them is current. */
  datatype RawTable = Table(tasks: seq<Process>, current: Option<nat>)

  type Table = t: RawTable | |t.tasks| <= MAX_TASKS && (t.current.Some? ==> t.current.value < |t.tasks|)
    witness Table([], None)

  const EMPTY: Table := Table([], None)

  function Add(t: Table, p: Process): Table {
    if |t.tasks| < MAX_TASKS then t.(tasks := t.tasks + [p]) else t
  }

  function SetState(tasks: seq<Process>, i: nat, state: ProcessState): seq<Process>
    requires i < |tasks|
  {
    tasks[i := tasks[i].(state := state)]
  }

  /** The current task steps back: to Idle if it is task 0, else to Ready. */
  function Demote(t: Table): (r: Table)
    ensures |r.tasks| == |t.tasks|
  {
    if t.current == None then t
    else
      var c := t.current.value;
      t.(tasks := SetState(t.tasks, c, if t.tasks[c].id == 0 then Idle else Ready))
  }

  function NextIndex(t: Table): (n: nat)
    requires t.tasks != []
    ensures n < |t.tasks|
  {
    if t.current == None then 0 else (t.current.value + 1) % |t.tasks|
  }

  function RunNext(t: Table): Table {
    if t.tasks == [] then t
    else
      var n := NextIndex(t);
      Table(SetState(Demote(t).tasks, n, Running), Some(n))
  }

  function CurrentId(t: Table): U64 {
    if t.current == None then NO_TASK else t.tasks[t.current.value].id
  }

  // ---- runs ----

  datatype Event = Added(p: Process) | Tick

  function Apply(t: Table, e: Event): Table {
    match e
    case Added(p) => Add(t, p)
    case Tick => RunNext(t)
  }

  function Run(t: Table, events: seq<Event>): Table
    decreases |events|
  {
    if events == [] then t else Run(Apply(t, events[0]), events[1..])
  }

  /** Both process constructors start a process Ready. */
  predicate FreshTasks(events: seq<Event>) {
    forall i :: 0 <= i < |events| && events[i].Added? ==> events[i].p.state == Ready
  }

  /** The current task, and only it, is Running; only task 0 is ever Idle. */
  predicate Inv(t: Table) {
    forall i :: 0 <= i < |t.tasks| ==>
      && (t.tasks[i].state == Running <==> t.current == Some(i))
      && (t.tasks[i].state == Idle ==> t.tasks[i].id == 0)
  }

  /** A table with fewer than 16 tasks ends with the new one, unchanged; a full one stays as it is. */
  lemma {:induction false} AddAppends(t: Table, p: Process)
    ensures Add(t, p).current == t.current
    ensures |t.tasks| == 16 ==> Add(t, p) == t
    ensures |t.tasks| < 16 ==> |Add(t, p).tasks| == |t.tasks| + 1 && Add(t, p).tasks[|t.tasks|] == p
    ensures forall i :: 0 <= i < |t.tasks| ==> Add(t, p).tasks[i] == t.tasks[i]
  {
  }

  /** The current id is that of the Running task, and the no-task value exactly when no task is current. */
  lemma {:induction false} CurrentIdIsRunning(t: Table, i: nat)
    requires Inv(t) && i < |t.tasks| && t.tasks[i].state == Running
    ensures CurrentId(t) == t.tasks[i].id
  {
  }

  lemma {:induction false} NoCurrentId(t: Table)
    requires Inv(t) && forall i :: 0 <= i < |t.tasks| ==> t.tasks[i].state != Running
    ensures CurrentId(t) == 0xFFFF_FFFF_FFFF_FFFF
  {
    assert t.current == None;
  }

  /** What is published after a run: each tick publishes the current id, additions publish nothing. */
  function PublishedId(t: Table, id: U64, events: seq<Event>): U64
    decreases |events|
  {
    if events == [] then id
    else
      var t' := Apply(t, events[0]);
      PublishedId(t', if events[0].Tick? then CurrentId(t') else id, events[1..])
  }

  lemma {:induction false} PublishedStays(t: Table, id: U64, events: seq<Event>)
    requires id == CurrentId(t)
    ensures PublishedId(t, id, events) == CurrentId(Run(t, events))
    decreases |events|
  {
    if events != [] {
      if events[0].Added? { AdditionKeepsId(t, events[0].p); }
      PublishedStays(Apply(t, events[0]), CurrentId(Apply(t, events[0])), events[1..]);
    }
  }

  lemma {:induction false} AdditionKeepsId(t: Table, p: Process)
    ensures CurrentId(Add(t, p)) == CurrentId(t)
  {
  }

  /** In every run from the empty table the published id is that of the one Running
      task, or the no-task value while there is none. */
  lemma {:induction false} PublishedIdIsRunning(events: seq<Event>, i: nat)
    requires FreshTasks(events)
    ensures
      var t := Run(EMPTY, events);
      var id := PublishedId(EMPTY, 0xFFFF_FFFF_FFFF_FFFF, events);
      && (i < |t.tasks| && t.tasks[i].state == Running ==> id == t.tasks[i].id)
      && ((forall j :: 0 <= j < |t.tasks| ==> t.tasks[j].state != Running) ==> id == 0xFFFF_FFFF_FFFF_FFFF)
  {
    RunInv(EMPTY, events);
    PublishedStays(EMPTY, 0xFFFF_FFFF_FFFF_FFFF, events);
    var t := Run(EMPTY, events);
    if i < |t.tasks| && t.tasks[i].state == Running { CurrentIdIsRunning(t, i); }
    if forall j :: 0 <= j < |t.tasks| ==> t.tasks[j].state != Running { NoCurrentId(t); }
  }

  lemma ApplyInv(t: Table, e: Event)
    requires Inv(t) && (e.Added? ==> e.p.state == Ready)
    ensures Inv(Apply(t, e))
  {
  }

  lemma {:induction false} RunInv(t: Table, events: seq<Event>)
    requires Inv(t) && FreshTasks(events)
    ensures Inv(Run(t, events))
    decreases |events|
  {
    if events != [] {
      assert events[0].Added? ==> events[0].p.state == Ready;
      ApplyInv(t, events[0]);
      RunInv(Apply(t, events[0]), events[1..]);
    }
  }

  /** In every run from the empty table, once a tick has found a task, exactly
      one task is Running, and it is the current one. */
  lemma ExactlyOneRunning(events: seq<Event>, i: nat)
    requires FreshTasks(events) && i < |events|
    requires events[i] == Tick && Run(EMPTY, events[..i]).tasks != []
    ensures
      var t := Run(EMPTY, events);
      && t.current.Some? && t.tasks[t.current.value].state == Running
      && (forall j :: 0 <= j < |t.tasks| && j != t.current.value ==> t.tasks[j].state != Running)
  {
    RunInv(EMPTY, events);
    assert events == events[..i] + events[i..];
    RunConcat(EMPTY, events[..i], events[i..]);
    CurrentStays(RunNext(Run(EMPTY, events[..i])), events[i..][1..]);
  }

  lemma {:induction false} RunConcat(t: Table, a: seq<Event>, b: seq<Event>)
    ensures Run(t, a + b) == Run(Run(t, a), b)
    decreases |a|
  {
    if a == [] {
      assert a + b == b;
    } else {
      assert (a + b)[1..] == a[1..] + b;
      RunConcat(Apply(t, a[0]), a[1..], b);
    }
  }

  lemma {:induction false} CurrentStays(t: Table, events: seq<Event>)
    requires t.current.Some?
    ensures Run(t, events).current.Some?
    decreases |events|
  {
    if events != [] { CurrentStays(Apply(t, events[0]), events[1..]); }
  }

  // ---- fairness ----

  function TickCount(events: seq<Event>): nat {
    if events == [] then 0 else (if events[0].Tick? then 1 else 0) + TickCount(events[1..])
  }

  /** Ticks that may pass before task `j` is current, however the table grows. */
  function Wait(current: Option<nat>, j: nat): int {
    if current == None then j + 1
    else if current.value < j then j - current.value
    else MAX_TASKS - current.value + j
  }

  lemma TickShortensWait(t: Table, j: nat)
    requires j < |t.tasks|
    ensures 1 <= Wait(t.current, j) <= MAX_TASKS
    ensures RunNext(t).current == Some(j) || Wait(RunNext(t).current, j) < Wait(t.current, j)
  {
    if t.current.Some? {
      var c, n := t.current.value, |t.tasks|;
      if c + 1 < n { assert (c + 1) % n == c + 1; } else { assert (c + 1) % n == 0; }
    }
  }

  /** Whatever is added in between, a stored task becomes current within its wait. */
  lemma {:induction false} WaitIsEnough(t: Table, events: seq<Event>, j: nat) returns (i: nat)
    requires j < |t.tasks| && TickCount(events) >= Wait(t.current, j)
    ensures 0 < i <= |events| && events[i - 1] == Tick
    ensures Run(t, events[..i]).current == Some(j)
    ensures TickCount(events[..i]) <= Wait(t.current, j)
    decreases |events|
  {
    TickShortensWait(t, j);
    var t1 := Apply(t, events[0]);
    if events[0].Tick? && t1.current == Some(j) {
      i := 1;
      assert events[..1] == [Tick];
    } else {
      var k := WaitIsEnough(t1, events[1..], j);
      i := k + 1;
      assert events[..i][1..] == events[1..][..k];
    }
  }

  /** Fairness: from any table, every stored task becomes current within 16 ticks. */
  lemma EveryTaskRunsWithin16Ticks(t: Table, events: seq<Event>, j: nat) returns (i: nat)
    requires j < |t.tasks| && TickCount(events) >= MAX_TASKS
    ensures 0 < i <= |events| && events[i - 1] == Tick
    ensures Run(t, events[..i]).current == Some(j)
    ensures TickCount(events[..i]) <= MAX_TASKS
  {
    TickShortensWait(t, j);
    i := WaitIsEnough(t, events, j);
  }

  /** The table after `k` ticks and nothing else. */
  function AfterTicks(t: Table, k: nat): Table {
    if k == 0 then t else RunNext(AfterTicks(t, k - 1))
  }

  function Ticks(k: nat): seq<Event> {
    if k == 0 then [] else Ticks(k - 1) + [Tick]
  }

  lemma {:induction false} TicksAreARun(t: Table, k: nat)
    ensures Run(t, Ticks(k)) == AfterTicks(t, k)
  {
    if k > 0 {
      TicksAreARun(t, k - 1);
      RunConcat(t, Ticks(k - 1), [Tick]);
      assert Run(AfterTicks(t, k - 1), [Tick]) == RunNext(AfterTicks(t, k - 1));
    }
  }

  /** The current task; a table that has not run yet moves as if it stood at its last task. */
  function Place(t: Table): nat
    requires t.tasks != []
  {
    if t.current.Some? then t.current.value else |t.tasks| - 1
  }

  lemma RunNextMoves(t: Table)
    requires t.tasks != []
    ensures |RunNext(t).tasks| == |t.tasks|
    ensures RunNext(t).current == Some((Place(t) + 1) % |t.tasks|)
  {
    Bits.ModUnique(|t.tasks|, |t.tasks|, 1, 0);
  }

  lemma StepRemainder(q: nat, r: nat, n: nat)
    requires r < n
    ensures (q * n + r + 1) % n == (r + 1) % n == if r + 1 < n then r + 1 else 0
  {
    if r + 1 < n {
      Bits.ModUnique(q * n + r + 1, n, q, r + 1);
      Bits.ModUnique(r + 1, n, 0, r + 1);
    } else {
      assert (q + 1) * n == q * n + n;
      Bits.ModUnique(q * n + n, n, q + 1, 0);
      Bits.ModUnique(n, n, 1, 0);
    }
  }

  lemma SuccMod(a: nat, n: nat)
    requires n > 0
    ensures (a % n + 1) % n == (a + 1) % n
  {
    StepRemainder(a / n, a % n, n);
    assert a == a / n * n + a % n;
  }

  /** The index `k` places after `c` in a ring of `n`. */
  function Ahead(c: nat, k: nat, n: nat): nat
    requires n > 0
  {
    (c + k) % n
  }

  lemma AheadOnce(c: nat, k: nat, n: nat)
    requires c < n && k <= n
    ensures Ahead(c, k, n) == if c + k < n then c + k else c + k - n
  {
    if c + k < n { Bits.ModUnique(c + k, n, 0, c + k); } else { Bits.ModUnique(c + k, n, 1, c + k - n); }
  }

  lemma {:induction false} TicksAdvance(t: Table, k: nat)
    requires t.tasks != []
    ensures |AfterTicks(t, k).tasks| == |t.tasks|
    ensures Place(AfterTicks(t, k)) == Ahead(Place(t), k, |t.tasks|)
    ensures k > 0 ==> AfterTicks(t, k).current.Some?
  {
    if k == 0 {
      AheadOnce(Place(t), 0, |t.tasks|);
    } else {
      TicksAdvance(t, k - 1);
      RunNextMoves(AfterTicks(t, k - 1));
      SuccMod(Place(t) + k - 1, |t.tasks|);
    }
  }

  /** With no additions, each window of as many ticks as tasks makes every task
      current exactly once, the first window of a table that has not run included. */
  lemma EachWindowRunsEachTaskOnce(t: Table, j: nat) returns (k: nat)
    requires j < |t.tasks|
    ensures 1 <= k <= |t.tasks| && Run(t, Ticks(k)).current == Some(j)
    ensures forall l: nat :: 1 <= l <= |t.tasks| && Run(t, Ticks(l)).current == Some(j) ==> l == k
  {
    var c, n := Place(t), |t.tasks|;
    k := if c < j then j - c else j - c + n;
    TicksAreARun(t, k);
    TicksAdvance(t, k);
    AheadOnce(c, k, n);
    forall l: nat | 1 <= l <= n && Run(t, Ticks(l)).current == Some(j) ensures l == k {
      TicksAreARun(t, l);
      TicksAdvance(t, l);
      AheadOnce(c, l, n);
    }
  }

  /** Ticks only move the current mark and states: ids, names and order stay. */
  predicate SameTasks(a: seq<Process>, b: seq<Process>) {
    |a| == |b| && forall i :: 0 <= i < |a| ==> a[i].id == b[i].id && a[i].name == b[i].name
  }

  /** A tick sets the task it leaves to Idle if it is task 0 and to Ready
      otherwise, the task it enters to Running, and no other task. */
  lemma TickStates(t: Table, i: nat)
    requires i < |t.tasks|
    ensures
      var r := RunNext(t);
      r.tasks[i].state ==
        if r.current == Some(i) then Running
        else if t.current != Some(i) then t.tasks[i].state
        else if t.tasks[i].id == 0 then Idle else Ready
  {
  }

  lemma TickKeepsTasks(t: Table)
    ensures SameTasks(t.tasks, RunNext(t).tasks)
  {
  }

  /** The table the kernel boots with: two tasks, the first one started. */
  const BOOTED: Table := RunNext(Add(Add(EMPTY, Process(0, "idle", Ready)), Process(1, "init", Ready)))

  /** After boot the two tasks take turns: after `k` ticks the published id is 0 for even `k` and 1 for odd. */
  lemma {:induction false} BootedTakesTurns(k: nat)
    ensures CurrentId(AfterTicks(BOOTED, k)) == k % 2
    ensures |AfterTicks(BOOTED, k).tasks| == 2
    ensures AfterTicks(BOOTED, k).tasks[0].id == 0 && AfterTicks(BOOTED, k).tasks[1].id == 1
    ensures AfterTicks(BOOTED, k).current == Some(k % 2)
  {
    if k > 0 {
      BootedTakesTurns(k - 1);
      RunNextMoves(AfterTicks(BOOTED, k - 1));
      TickKeepsTasks(AfterTicks(BOOTED, k - 1));
    }
  }
}
