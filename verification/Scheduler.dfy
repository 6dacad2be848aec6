/**
 The scheduler object: a fixed array of optional processes with a length and a
 current index, and the two counters published beside it.  Each method is
 proved against the table operations of `TaskTable`.
 */
module Scheduler {
  import opened Words
  import opened TaskTable

  lemma ApplyInvOrNot(t: Table)
    ensures TaskTable.Inv(t) ==> TaskTable.Inv(RunNext(t))
  {
    if TaskTable.Inv(t) { ApplyInv(t, Tick); }
  }

  class TaskScheduler {
    const slots: array<Option<Process>>
    var len: nat
    var current: Option<nat>
    var taskCount: nat          // published by Initialize
    var currentTaskId: U64      // published by Initialize and OnTick

    ghost predicate Valid()
      reads this, slots
    {
      && slots.Length == MAX_TASKS
      && len <= MAX_TASKS
      && (forall i :: 0 <= i < len ==> slots[i].Some?)
      && (forall i :: len <= i < MAX_TASKS ==> slots[i] == None)
      && (current.Some? ==> current.value < len)
    }

    ghost function Tasks(): (ts: seq<Process>)
      requires Valid()
      reads this, slots
      ensures |ts| == len && forall i :: 0 <= i < len ==> slots[i] == Some(ts[i])
    {
      seq(len, i requires 0 <= i < len reads this, slots requires Valid() => slots[i].value)
    }

    ghost function View(): Table
      requires Valid()
      reads this, slots
    {
      Table(Tasks(), current)
    }

    constructor ()
      ensures Valid() && View() == EMPTY && fresh(slots)
      ensures taskCount == 0 && currentTaskId == NO_TASK == CurrentId(View())
    {
      slots := new Option<Process>[MAX_TASKS](_ => None);
      len := 0;
      current := None;
      taskCount := 0;
      currentTaskId := NO_TASK;
    }

    method AddTask(p: Process)
      requires Valid()
      modifies this`len, slots
      ensures Valid() && View() == Add(old(View()), p)
    {
      if len < MAX_TASKS {
        slots[len] := Some(p);
        len := len + 1;
      }
    }

    /** Writes a state into a stored task. */
    method Mark(i: nat, state: ProcessState)
      requires Valid() && i < len
      modifies slots
      ensures Valid() && Tasks() == SetState(old(Tasks()), i, state)
    {
      if slots[i].Some? {
        slots[i] := Some(slots[i].value.(state := state));
      }
    }

    method RunNextTask()
      requires Valid()
      modifies this`current, slots
      ensures Valid() && View() == RunNext(old(View()))
    {
      if len == 0 {
        return;
      }
      if current.Some? {
        Mark(current.value, if slots[current.value].value.id == 0 then Idle else Ready);
      }
      var next := if current.Some? then (current.value + 1) % len else 0;
      current := Some(next);
      Mark(next, Running);
    }

    method CurrentTaskId() returns (id: U64)
      requires Valid()
      ensures id == CurrentId(View())
      ensures TaskTable.Inv(View()) ==>
        forall i :: 0 <= i < |View().tasks| && View().tasks[i].state == Running ==> id == View().tasks[i].id
    {
      if current.Some? && slots[current.value].Some? {
        id := slots[current.value].value.id;
      } else {
        id := NO_TASK;
      }
    }

    /** Boot: tasks 0 and 1 are added and the first task starts. */
    method Initialize()
      requires Valid()
      modifies this, slots
      ensures Valid()
      ensures View() == RunNext(Add(Add(old(View()), Process(0, "idle", Ready)), Process(1, "init", Ready)))
      ensures taskCount == |View().tasks| && currentTaskId == CurrentId(View())
      ensures old(View()) == EMPTY ==> View() == BOOTED && taskCount == 2 && currentTaskId == 0
    {
      AddTask(Process(0, "idle", Ready));
      AddTask(Process(1, "init", Ready));
      RunNextTask();
      taskCount := len;
      currentTaskId := CurrentTaskId();
    }

    /** Timer tick. */
    method OnTick()
      requires Valid()
      modifies this`current, this`currentTaskId, slots
      ensures Valid() && View() == RunNext(old(View()))
      ensures currentTaskId == CurrentId(View())
      ensures TaskTable.Inv(old(View())) ==>
        forall i :: 0 <= i < |View().tasks| && View().tasks[i].state == Running ==> currentTaskId == View().tasks[i].id
    {
      ApplyInvOrNot(View());
      RunNextTask();
      currentTaskId := CurrentTaskId();
    }
  }
}
