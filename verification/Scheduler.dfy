/** kernel/task/task.c: the cooperative round-robin scheduler, as the transitions of its tables.
    Module ContextSwitch adds the stacks and registers. */
module Scheduler {
  import opened Words

  const MAX_TASKS: nat := 8
  const INVALID: word := 0xFFFF_FFFF

  datatype TaskState = Unused | Ready | Running | Finished

  /** The scheduler's static variables. */
  datatype Sched = Sched(
    tasks: seq<TaskState>,
    current: word,
    cursor: word,
    remaining: word,
    switches: word,
    finished: word,
    initialized: bool,
    running: bool)

  /** Who runs after a scheduler call: the caller, another context, or nobody. */
  datatype Control = Return | ToTask(id: nat) | ToBootstrap | Stop

  // ----- round robin order -----

  function Start(after: word): nat {
    if after == INVALID then 0 else (after + 1) % MAX_TASKS
  }

  function Slot(start: nat, offset: nat): nat {
    (start + offset) % MAX_TASKS
  }

  function Scan(tasks: seq<TaskState>, start: nat, offset: nat): word
    requires |tasks| == MAX_TASKS && offset <= MAX_TASKS
    decreases MAX_TASKS - offset
  {
    if offset == MAX_TASKS then INVALID
    else if tasks[Slot(start, offset)] == Ready then Slot(start, offset)
    else Scan(tasks, start, offset + 1)
  }

  function NextReady(tasks: seq<TaskState>, after: word): word
    requires |tasks| == MAX_TASKS
  {
    Scan(tasks, Start(after), 0)
  }

  /** How many slots the search looks at before slot i. */
  function Offset(start: nat, i: nat): nat
    requires start < MAX_TASKS
  {
    (i + MAX_TASKS - start) % MAX_TASKS
  }

  function Distance(cursor: word, i: nat): nat {
    Offset(Start(cursor), i)
  }

  /** The offset without the remainder: one subtraction, once around if need be. */
  lemma OffsetIs(start: nat, i: nat)
    requires start < MAX_TASKS && i < MAX_TASKS
    ensures Offset(start, i) == if i >= start then i - start else i + MAX_TASKS - start
  {
  }

  lemma StartIs(after: nat)
    requires after < MAX_TASKS
    ensures Start(after) == if after + 1 == MAX_TASKS then 0 else after + 1
  {
  }

  lemma SlotOfOffset(start: nat, i: nat, k: nat)
    requires start < MAX_TASKS && i < MAX_TASKS && k < MAX_TASKS
    ensures Offset(start, i) == k <==> i == Slot(start, k)
  {
  }

  lemma {:induction false} ScanFindsNearest(tasks: seq<TaskState>, start: nat, offset: nat)
    requires |tasks| == MAX_TASKS && offset <= MAX_TASKS && start < MAX_TASKS
    ensures var id := Scan(tasks, start, offset);
            if id == INVALID then forall j: nat :: j < MAX_TASKS && tasks[j] == Ready ==> Offset(start, j) < offset
            else id < MAX_TASKS && tasks[id] == Ready && Offset(start, id) >= offset
                 && forall j: nat :: j < MAX_TASKS && tasks[j] == Ready && Offset(start, j) >= offset ==>
                     Offset(start, id) <= Offset(start, j)
    decreases MAX_TASKS - offset
  {
    if offset < MAX_TASKS {
      SlotOfOffset(start, Slot(start, offset), offset);
      if tasks[Slot(start, offset)] != Ready {
        ScanFindsNearest(tasks, start, offset + 1);
        forall j: nat | j < MAX_TASKS && tasks[j] == Ready ensures Offset(start, j) != offset {
          SlotOfOffset(start, j, offset);
        }
      }
    }
  }

  /** The search finds a READY task whenever there is one, and the nearest one after the cursor. */
  lemma NextReadyIsNearest(tasks: seq<TaskState>, after: word)
    requires |tasks| == MAX_TASKS
    ensures var id := NextReady(tasks, after);
            if id == INVALID then forall j: nat :: j < MAX_TASKS ==> tasks[j] != Ready
            else id < MAX_TASKS && tasks[id] == Ready
                 && forall j: nat :: j < MAX_TASKS && tasks[j] == Ready ==> Distance(after, id) <= Distance(after, j)
  {
    ScanFindsNearest(tasks, Start(after), 0);
  }

  /** A dispatch of another task brings the cursor strictly closer to a waiting one. */
  lemma DispatchShortensTheWait(cursor: word, id: nat, j: nat)
    requires id < MAX_TASKS && j < MAX_TASKS && id != j
    requires Distance(cursor, id) <= Distance(cursor, j)
    ensures Distance(id, j) < Distance(cursor, j)
  {
    StartIs(id);
    OffsetIs(Start(cursor), id);
    OffsetIs(Start(cursor), j);
    OffsetIs(Start(id), j);
  }

  // ----- the calls, as functions of the tables -----

  function Boot(): Sched {
    Sched(seq(MAX_TASKS, _ => Unused), INVALID, INVALID, 0, 0, 0, false, false)
  }

  function Reset(s: Sched): Sched {
    if s.running then s else Boot().(initialized := true)
  }

  /** The slot task_create takes, or INVALID. */
  function FirstUnused(tasks: seq<TaskState>, from: nat): word
    requires |tasks| == MAX_TASKS && from <= MAX_TASKS
    decreases MAX_TASKS - from
  {
    if from == MAX_TASKS then INVALID
    else if tasks[from] == Unused then from
    else FirstUnused(tasks, from + 1)
  }

  function CreatedId(s: Sched, hasEntry: bool): word
    requires |s.tasks| == MAX_TASKS
  {
    if !s.initialized || s.running || !hasEntry then INVALID else FirstUnused(s.tasks, 0)
  }

  function Create(s: Sched, hasEntry: bool): Sched
    requires |s.tasks| == MAX_TASKS
  {
    var id := CreatedId(s, hasEntry);
    if id < MAX_TASKS then s.(tasks := s.tasks[id := Ready]) else s
  }

  predicate CanActivate(s: Sched, id: word) {
    id < MAX_TASKS && |s.tasks| == MAX_TASKS && s.tasks[id] == Ready && s.remaining != 0
  }

  function Activate(s: Sched, id: word): Sched
    requires CanActivate(s, id)
  {
    s.(tasks := s.tasks[id := Running],
       current := id,
       cursor := id,
       remaining := s.remaining - 1,
       switches := Add32(s.switches, 1))
  }

  /** task_run up to the first switch. */
  function RunEnter(s: Sched, budget: word): Sched
    requires |s.tasks| == MAX_TASKS
  {
    if RunControl(s, budget).ToTask? then
      Activate(s.(remaining := budget, running := true), NextReady(s.tasks, s.cursor))
    else s
  }

  function RunControl(s: Sched, budget: word): Control
    requires |s.tasks| == MAX_TASKS
  {
    var next := NextReady(s.tasks, s.cursor);
    if !s.initialized || s.running || next == INVALID || budget == 0 then Return
    else if CanActivate(s.(remaining := budget), next) then ToTask(next)
    else Return
  }

  /** The answer of task_run once the bootstrap context is back. */
  function RunComplete(s: Sched): bool
    requires |s.tasks| == MAX_TASKS
  {
    NextReady(s.tasks, s.cursor) == INVALID
  }

  predicate InTask(s: Sched) {
    s.initialized && s.running && s.current < MAX_TASKS && |s.tasks| == MAX_TASKS && s.tasks[s.current] == Running
  }

  /** The tables after the running task has left the RUNNING state. */
  function Leave(s: Sched, state: TaskState): Sched
    requires InTask(s)
  {
    s.(tasks := s.tasks[s.current := state],
       finished := if state == Finished then Add32(s.finished, 1) else s.finished)
  }

  /** Common tail of task_yield and task_exit: the next READY task while the budget lasts,
      otherwise the bootstrap context. */
  function HandOver(s: Sched, state: TaskState): Sched
    requires InTask(s)
  {
    var left := Leave(s, state);
    var next := NextReady(left.tasks, s.current);
    if next != INVALID && left.remaining != 0 then
      if CanActivate(left, next) then Activate(left, next) else left
    else
      left.(current := INVALID, running := false)
  }

  function HandOverControl(s: Sched, state: TaskState): Control
    requires InTask(s)
  {
    var left := Leave(s, state);
    var next := NextReady(left.tasks, s.current);
    if next != INVALID && left.remaining != 0 then
      if !CanActivate(left, next) then Stop
      else if next == s.current && state == Ready then Return
      else ToTask(next)
    else
      ToBootstrap
  }

  function Yield(s: Sched): Sched {
    if InTask(s) then HandOver(s, Ready) else s
  }

  function YieldControl(s: Sched): Control {
    if InTask(s) then HandOverControl(s, Ready) else Return
  }

  function Exit(s: Sched): Sched {
    if InTask(s) then HandOver(s, Finished) else s
  }

  function ExitControl(s: Sched): Control {
    if InTask(s) then HandOverControl(s, Finished) else Stop
  }

  // ----- accounting -----

  function CountFinished(tasks: seq<TaskState>): nat {
    if tasks == [] then 0
    else CountFinished(tasks[..|tasks| - 1]) + if tasks[|tasks| - 1] == Finished then 1 else 0
  }

  lemma {:induction false} CountAfterUpdate(tasks: seq<TaskState>, i: nat, state: TaskState)
    requires i < |tasks|
    ensures CountFinished(tasks[i := state])
            == CountFinished(tasks) - (if tasks[i] == Finished then 1 else 0) + (if state == Finished then 1 else 0)
  {
    var last := |tasks| - 1;
    if i < last {
      CountAfterUpdate(tasks[..last], i, state);
      assert tasks[i := state][..last] == tasks[..last][i := state];
    } else {
      assert tasks[i := state][..last] == tasks[..last];
    }
  }

  lemma {:induction false} CountWithin(tasks: seq<TaskState>)
    ensures CountFinished(tasks) <= |tasks|
  {
    if tasks != [] {
      CountWithin(tasks[..|tasks| - 1]);
    }
  }

  /** At most one task is RUNNING, and it is the current one exactly while the scheduler runs;
      the finished counter counts the FINISHED slots. */
  predicate Inv(s: Sched) {
    && |s.tasks| == MAX_TASKS
    && (s.cursor == INVALID || s.cursor < MAX_TASKS)
    && (forall i :: 0 <= i < MAX_TASKS ==> (s.tasks[i] == Running <==> s.running && i == s.current))
    && (if s.running then s.current < MAX_TASKS && s.cursor == s.current && s.initialized else s.current == INVALID)
    && s.finished == CountFinished(s.tasks)
  }

  lemma BootIsInv()
    ensures Inv(Boot()) && Inv(Boot().(initialized := true))
  {
    NoneFinished(Boot().tasks);
  }

  lemma {:induction false} NoneFinished(tasks: seq<TaskState>)
    requires forall i :: 0 <= i < |tasks| ==> tasks[i] != Finished
    ensures CountFinished(tasks) == 0
  {
    if tasks != [] {
      NoneFinished(tasks[..|tasks| - 1]);
    }
  }

  lemma CreateKeepsInv(s: Sched, hasEntry: bool)
    requires Inv(s)
    ensures Inv(Create(s, hasEntry))
  {
    var id := CreatedId(s, hasEntry);
    if id < MAX_TASKS {
      FirstUnusedIsUnused(s.tasks, 0);
      CountAfterUpdate(s.tasks, id, Ready);
    }
  }

  lemma {:induction false} FirstUnusedIsUnused(tasks: seq<TaskState>, from: nat)
    requires |tasks| == MAX_TASKS && from <= MAX_TASKS
    ensures var id := FirstUnused(tasks, from);
            if id == INVALID then forall k :: from <= k < MAX_TASKS ==> tasks[k] != Unused
            else from <= id < MAX_TASKS && tasks[id] == Unused && forall k :: from <= k < id ==> tasks[k] != Unused
    decreases MAX_TASKS - from
  {
    if from < MAX_TASKS && tasks[from] != Unused {
      FirstUnusedIsUnused(tasks, from + 1);
    }
  }

  /** Between tasks: the scheduler runs, no task is RUNNING. */
  predicate Between(s: Sched) {
    && |s.tasks| == MAX_TASKS && s.initialized && s.running
    && (forall i :: 0 <= i < MAX_TASKS ==> s.tasks[i] != Running)
    && s.finished == CountFinished(s.tasks)
  }

  lemma ActivateRestoresInv(s: Sched, id: word)
    requires Between(s) && CanActivate(s, id)
    ensures Inv(Activate(s, id))
  {
    CountAfterUpdate(s.tasks, id, Running);
  }

  lemma LeaveIsBetween(s: Sched, state: TaskState)
    requires Inv(s) && InTask(s) && (state == Ready || state == Finished)
    ensures Between(Leave(s, state))
  {
    CountAfterUpdate(s.tasks, s.current, state);
    CountWithin(s.tasks[s.current := state]);
  }

  lemma RunKeepsInv(s: Sched, budget: word)
    requires Inv(s)
    ensures Inv(RunEnter(s, budget))
    ensures RunControl(s, budget).ToTask? <==>
            s.initialized && !s.running && budget != 0 && NextReady(s.tasks, s.cursor) != INVALID
    ensures RunControl(s, budget).ToTask? ==> RunEnter(s, budget).running && RunEnter(s, budget).remaining == budget - 1
  {
    NextReadyIsNearest(s.tasks, s.cursor);
    if RunControl(s, budget).ToTask? {
      ActivateRestoresInv(s.(remaining := budget, running := true), NextReady(s.tasks, s.cursor));
    }
  }

  /** Yielding and exiting keep the accounting, never reach task_stop, and go back to the
      bootstrap context with a READY task left only when the budget is spent. */
  lemma HandOverKeepsInv(s: Sched, state: TaskState)
    requires Inv(s) && InTask(s) && (state == Ready || state == Finished)
    ensures Inv(HandOver(s, state)) && HandOverControl(s, state) != Stop
    ensures var s' := HandOver(s, state);
            match HandOverControl(s, state)
            case Return => s'.running && s'.current == s.current && s'.remaining == s.remaining - 1
            case ToTask(id) => s'.running && s'.current == id && id != s.current && s'.remaining == s.remaining - 1
            case ToBootstrap => !s'.running && s'.remaining == s.remaining && (s.remaining == 0 || RunComplete(s'))
            case Stop => false
  {
    var left := Leave(s, state);
    LeaveIsBetween(s, state);
    NextReadyIsNearest(left.tasks, s.current);
    var next := NextReady(left.tasks, s.current);
    if next != INVALID && left.remaining != 0 {
      assert CanActivate(left, next);
      ActivateRestoresInv(left, next);
    }
  }

  // ----- the tables in place -----

  class TaskTable {
    const states: array<TaskState>
    const entries: array<word>     // entry points, 0 for NULL
    var current: word
    var cursor: word
    var remaining: word
    var switches: word
    var finished: word
    var initialized: bool
    var running: bool

    ghost predicate Valid() reads this, states, entries {
      states.Length == MAX_TASKS && entries.Length == MAX_TASKS && Inv(State())
      && forall i :: 0 <= i < MAX_TASKS && states[i] != Unused ==> entries[i] != 0
    }

    ghost function State(): Sched reads this, states {
      Sched(states[..], current, cursor, remaining, switches, finished, initialized, running)
    }

    constructor ()
      ensures Valid() && State() == Boot()
    {
      states := new TaskState[MAX_TASKS](_ => Unused);
      entries := new word[MAX_TASKS](_ => 0);
      current, cursor, remaining, switches, finished := INVALID, INVALID, 0, 0, 0;
      initialized, running := false, false;
      new;
      BootIsInv();
      assert states[..] == Boot().tasks;
    }

    method FindNextReady(after: word) returns (id: word)
      requires states.Length == MAX_TASKS
      ensures id == NextReady(states[..], after)
    {
      var start := 0;
      if after != INVALID {
        start := (after + 1) % MAX_TASKS;
      }
      var offset := 0;
      while offset < MAX_TASKS
        invariant 0 <= offset <= MAX_TASKS
        invariant NextReady(states[..], after) == Scan(states[..], start, offset)
      {
        var candidate := (start + offset) % MAX_TASKS;
        assert candidate == Slot(start, offset);
        if states[candidate] == Ready {
          return candidate;
        }
        offset := offset + 1;
      }
      return INVALID;
    }

    method ActivateTask(id: word) returns (ok: bool)
      requires states.Length == MAX_TASKS
      modifies this, states
      ensures ok <==> old(CanActivate(State(), id))
      ensures State() == if ok then Activate(old(State()), id) else old(State())
    {
      if id >= MAX_TASKS || states[id] != Ready || remaining == 0 {
        return false;
      }
      states[id] := Running;
      current, cursor := id, id;
      remaining := remaining - 1;
      switches := Add32(switches, 1);
      return true;
    }

    method SystemInit()
      requires Valid()
      modifies this, states, entries
      ensures Valid() && State() == Reset(old(State()))
      ensures old(running) ==> unchanged(this, states, entries)
      ensures !old(running) ==>
                && (forall k :: 0 <= k < MAX_TASKS ==> states[k] == Unused && entries[k] == 0)
                && initialized && !running && switches == finished == 0
    {
      if running {
        return;
      }
      var id := 0;
      while id < MAX_TASKS
        invariant 0 <= id <= MAX_TASKS
        invariant forall k :: 0 <= k < id ==> states[k] == Unused && entries[k] == 0
      {
        states[id], entries[id] := Unused, 0;
        id := id + 1;
      }
      current, cursor, remaining, switches, finished := INVALID, INVALID, 0, 0, 0;
      running, initialized := false, true;
      assert states[..] == Boot().tasks;
      BootIsInv();
    }

    method CreateTask(entry: word) returns (id: word)
      requires Valid()
      modifies states, entries
      ensures Valid() && State() == Create(old(State()), entry != 0)
      ensures id == CreatedId(old(State()), entry != 0)
      ensures id == INVALID <==> !initialized || running || entry == 0
                                 || old(forall k :: 0 <= k < MAX_TASKS ==> states[k] != Unused)
      ensures id == INVALID ==> unchanged(states, entries)
      ensures id != INVALID ==>
                && id < MAX_TASKS && old(states[id] == Unused && forall k :: 0 <= k < id ==> states[k] != Unused)
                && states[..] == old(states[..])[id := Ready] && entries[..] == old(entries[..])[id := entry]
    {
      CreateKeepsInv(State(), entry != 0);
      if !initialized || running || entry == 0 {
        return INVALID;
      }
      var candidate := 0;
      id := INVALID;
      while candidate < MAX_TASKS
        invariant 0 <= candidate <= MAX_TASKS && id == INVALID
        invariant FirstUnused(states[..], 0) == FirstUnused(states[..], candidate)
        invariant forall k :: 0 <= k < candidate ==> states[k] != Unused
      {
        if states[candidate] == Unused {
          id := candidate;
          break;
        }
        candidate := candidate + 1;
      }
      if id == INVALID {
        return;
      }
      entries[id] := entry;
      states[id] := Ready;
    }

    /** task_run: either an immediate answer or the first dispatch. */
    method Run(budget: word) returns (control: Control, answer: bool)
      requires Valid()
      modifies this, states
      ensures Valid() && State() == RunEnter(old(State()), budget) && control == RunControl(old(State()), budget)
      ensures control.ToTask? <==>
                budget != 0 && old(initialized && !running && exists i :: 0 <= i < MAX_TASKS && states[i] == Ready)
      ensures control != Return ==> control == ToTask(current)
      ensures control == Return ==>
                (answer <==> old(initialized && !running && forall i :: 0 <= i < MAX_TASKS ==> states[i] != Ready))
      ensures control == Return ==> unchanged(this, states)
    {
      ghost var s := State();
      RunKeepsInv(s, budget);
      NextReadyIsNearest(states[..], cursor);
      if !initialized || running {
        return Return, false;
      }
      var next := FindNextReady(cursor);
      if next == INVALID {
        return Return, true;
      }
      if budget == 0 {
        return Return, false;
      }
      remaining, running := budget, true;
      var ok := ActivateTask(next);
      // Activation of the task just found cannot fail.
      return ToTask(next), false;
    }

    /** The end of task_run, once the bootstrap context has been switched back to. */
    method FinishRun() returns (complete: bool)
      requires Valid()
      ensures complete == RunComplete(State())
      ensures complete <==> forall i :: 0 <= i < MAX_TASKS ==> states[i] != Ready
    {
      var next := FindNextReady(cursor);
      NextReadyIsNearest(states[..], cursor);
      complete := next == INVALID;
    }

    /** Give the CPU away after the caller has left the RUNNING state. */
    method Dispatch(state: TaskState) returns (control: Control)
      requires Valid() && InTask(State()) && (state == Ready || state == Finished)
      modifies this, states
      ensures Valid() && State() == HandOver(old(State()), state) && control == HandOverControl(old(State()), state)
    {
      ghost var s := State();
      HandOverKeepsInv(s, state);
      var previous := current;
      states[previous] := state;
      if state == Finished {
        finished := Add32(finished, 1);
      }
      var next := FindNextReady(previous);
      if next != INVALID && remaining != 0 {
        var ok := ActivateTask(next);
        if !ok {
          control := Stop;
        } else if next == previous && state == Ready {
          control := Return;
        } else {
          control := ToTask(next);
        }
      } else {
        current, running := INVALID, false;
        control := ToBootstrap;
      }
    }

    method YieldTask() returns (control: Control)
      requires Valid()
      modifies this, states
      ensures Valid() && State() == Yield(old(State())) && control == YieldControl(old(State()))
      ensures control != Stop
    {
      if !initialized || !running || current >= MAX_TASKS || states[current] != Running {
        return Return;
      }
      HandOverKeepsInv(State(), Ready);
      control := Dispatch(Ready);
    }

    method ExitTask() returns (control: Control)
      requires Valid()
      modifies this, states
      ensures Valid() && State() == Exit(old(State())) && control == ExitControl(old(State()))
      ensures control == Stop <==> !old(running)
    {
      if !initialized || !running || current >= MAX_TASKS || states[current] != Running {
        return Stop;
      }
      HandOverKeepsInv(State(), Finished);
      control := Dispatch(Finished);
    }
  }
}
