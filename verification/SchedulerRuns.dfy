/** Whole runs of the scheduler: any sequence of calls, from any context. */
module SchedulerRuns {
  import opened Words
  import opened Scheduler

  datatype Event = ResetAll | NewTask(hasEntry: bool) | RunTasks(budget: word) | YieldNow | ExitNow

  function Apply(s: Sched, e: Event): Sched
    requires |s.tasks| == MAX_TASKS
  {
    match e
    case ResetAll => Reset(s)
    case NewTask(hasEntry) => Create(s, hasEntry)
    case RunTasks(budget) => RunEnter(s, budget)
    case YieldNow => Yield(s)
    case ExitNow => Exit(s)
  }

  /** Dispatches (calls of activate_task that succeed) made by an event: none or one. */
  function Dispatches(s: Sched, e: Event): nat
    requires |s.tasks| == MAX_TASKS
  {
    match e
    case ResetAll => 0
    case NewTask(_) => 0
    case RunTasks(budget) => if RunControl(s, budget).ToTask? then 1 else 0
    case YieldNow => if InTask(s) && !HandOverControl(s, Ready).ToBootstrap? then 1 else 0
    case ExitNow => if InTask(s) && !HandOverControl(s, Finished).ToBootstrap? then 1 else 0
  }

  predicate IsTrace(states: seq<Sched>, events: seq<Event>) {
    && |states| == |events| + 1
    && states[0] == Boot()
    && (forall k :: 0 <= k < |states| ==> |states[k].tasks| == MAX_TASKS)
    && (forall k {:trigger events[k]} :: 0 <= k < |events| ==> states[k + 1] == Apply(states[k], events[k]))
  }

  function DispatchCount(states: seq<Sched>, events: seq<Event>, i: nat, j: nat): nat
    requires IsTrace(states, events) && i <= j < |states|
    decreases j - i
  {
    if i == j then 0 else DispatchCount(states, events, i, j - 1) + Dispatches(states[j - 1], events[j - 1])
  }

  lemma ApplyKeepsInv(s: Sched, e: Event)
    requires Inv(s)
    ensures Inv(Apply(s, e))
  {
    match e
    case ResetAll => BootIsInv();
    case NewTask(hasEntry) => CreateKeepsInv(s, hasEntry);
    case RunTasks(budget) => RunKeepsInv(s, budget);
    case YieldNow => if InTask(s) { HandOverKeepsInv(s, Ready); }
    case ExitNow => if InTask(s) { HandOverKeepsInv(s, Finished); }
  }

  /** The accounting invariant holds in every state of every trace. */
  lemma {:induction false} EveryStateIsInv(states: seq<Sched>, events: seq<Event>, k: nat)
    requires IsTrace(states, events) && k < |states|
    ensures Inv(states[k])
  {
    if k == 0 {
      BootIsInv();
    } else {
      EveryStateIsInv(states, events, k - 1);
      ApplyKeepsInv(states[k - 1], events[k - 1]);
    }
  }

  // ----- bounded waiting -----

  lemma HandOverShortensTheWait(s: Sched, state: TaskState, t: nat)
    requires Inv(s) && InTask(s) && (state == Ready || state == Finished)
    requires t < MAX_TASKS && s.tasks[t] == Ready && HandOver(s, state).tasks[t] == Ready
    ensures HandOverControl(s, state) == ToBootstrap ==> HandOver(s, state).cursor == s.cursor
    ensures HandOverControl(s, state) != ToBootstrap ==> Distance(HandOver(s, state).cursor, t) < Distance(s.cursor, t)
  {
    HandOverKeepsInv(s, state);
    var left := Leave(s, state);
    NextReadyIsNearest(left.tasks, s.current);
    var next := NextReady(left.tasks, s.current);
    if HandOverControl(s, state) != ToBootstrap {
      DispatchShortensTheWait(s.cursor, next, t);
    }
  }

  lemma EventShortensTheWait(s: Sched, e: Event, t: nat)
    requires Inv(s) && t < MAX_TASKS && s.tasks[t] == Ready && Apply(s, e).tasks[t] == Ready
    ensures Distance(Apply(s, e).cursor, t) + Dispatches(s, e) <= Distance(s.cursor, t)
  {
    match e
    case ResetAll =>
    case NewTask(_) =>
    case RunTasks(budget) =>
      RunKeepsInv(s, budget);
      NextReadyIsNearest(s.tasks, s.cursor);
      if RunControl(s, budget).ToTask? {
        DispatchShortensTheWait(s.cursor, NextReady(s.tasks, s.cursor), t);
      }
    case YieldNow => if InTask(s) { HandOverShortensTheWait(s, Ready, t); }
    case ExitNow => if InTask(s) { HandOverShortensTheWait(s, Finished, t); }
  }

  /** While a task waits READY, each dispatch of another task lowers its distance from the
      cursor, across task_run calls and task creation; so it waits for at most 7 of them. */
  lemma {:induction false} BoundedWaiting(states: seq<Sched>, events: seq<Event>, i: nat, j: nat, t: nat)
    requires IsTrace(states, events) && i <= j < |states| && t < MAX_TASKS
    requires forall k :: i <= k <= j ==> states[k].tasks[t] == Ready
    ensures DispatchCount(states, events, i, j) + Distance(states[j].cursor, t) <= Distance(states[i].cursor, t)
    ensures DispatchCount(states, events, i, j) <= 7
    decreases j - i
  {
    if i < j {
      BoundedWaiting(states, events, i, j - 1, t);
      EveryStateIsInv(states, events, j - 1);
      assert states[j - 1 + 1] == Apply(states[j - 1], events[j - 1]);
      EventShortensTheWait(states[j - 1], events[j - 1], t);
    }
  }

  // ----- budget -----

  lemma EventSpendsBudget(s: Sched, e: Event)
    requires Inv(s) && s.running
    ensures var s' := Apply(s, e);
            && s'.remaining + Dispatches(s, e) == s.remaining
            && (!s'.running ==> s.remaining == 0 || RunComplete(s'))
  {
    match e
    case ResetAll =>
    case NewTask(_) =>
    case RunTasks(budget) => RunKeepsInv(s, budget);
    case YieldNow => HandOverKeepsInv(s, Ready);
    case ExitNow => HandOverKeepsInv(s, Finished);
  }

  /** An accepted task_run(budget): from the call at index i, as long as tasks run, the
      dispatches made and the dispatches left add up to the budget. */
  lemma BudgetIsSpentExactly(states: seq<Sched>, events: seq<Event>, i: nat, j: nat, budget: word)
    requires IsTrace(states, events) && i < j < |states|
    requires events[i] == RunTasks(budget) && RunControl(states[i], budget).ToTask?
    requires forall k :: i < k < j ==> states[k].running
    ensures DispatchCount(states, events, i, j) + states[j].remaining == budget
    ensures !states[j].running ==> RunComplete(states[j]) || DispatchCount(states, events, i, j) == budget
  {
    FirstDispatchAt(states, events, i, budget);
    BudgetLasts(states, events, i, j, budget);
  }

  ghost predicate BudgetKept(states: seq<Sched>, events: seq<Event>, i: nat, j: nat, budget: word)
    requires IsTrace(states, events) && i <= j < |states|
  {
    && DispatchCount(states, events, i, j) + states[j].remaining == budget
    && (!states[j].running ==> RunComplete(states[j]) || DispatchCount(states, events, i, j) == budget)
  }

  lemma {:induction false} BudgetLasts(states: seq<Sched>, events: seq<Event>, i: nat, j: nat, budget: word)
    requires IsTrace(states, events) && i < j < |states| && BudgetKept(states, events, i, i + 1, budget)
    requires forall k :: i < k < j ==> states[k].running
    ensures BudgetKept(states, events, i, j, budget)
    decreases j - i
  {
    if j > i + 1 {
      BudgetLasts(states, events, i, j - 1, budget);
      BudgetStepAt(states, events, i, j - 1, budget);
    }
  }

  lemma FirstDispatchAt(states: seq<Sched>, events: seq<Event>, i: nat, budget: word)
    requires IsTrace(states, events) && i < |events|
    requires events[i] == RunTasks(budget) && RunControl(states[i], budget).ToTask?
    ensures BudgetKept(states, events, i, i + 1, budget)
  {
    EveryStateIsInv(states, events, i);
    RunSpendsOne(states[i], budget);
    assert DispatchCount(states, events, i, i) == 0;
  }

  lemma BudgetStepAt(states: seq<Sched>, events: seq<Event>, i: nat, k: nat, budget: word)
    requires IsTrace(states, events) && i <= k < |events| && states[k].running
    requires BudgetKept(states, events, i, k, budget)
    ensures BudgetKept(states, events, i, k + 1, budget)
  {
    EveryStateIsInv(states, events, k);
    EventSpendsBudget(states[k], events[k]);
  }

  lemma RunSpendsOne(s: Sched, budget: word)
    requires Inv(s) && RunControl(s, budget).ToTask?
    ensures Dispatches(s, RunTasks(budget)) == 1
    ensures Apply(s, RunTasks(budget)).running && Apply(s, RunTasks(budget)).remaining == budget - 1
  {
    RunKeepsInv(s, budget);
  }

  /** A FINISHED task stays finished until the idle scheduler is reset, so it never runs again. */
  lemma FinishedStaysFinished(s: Sched, e: Event, t: nat)
    requires Inv(s) && t < MAX_TASKS && s.tasks[t] == Finished && (e == ResetAll ==> s.running)
    ensures Apply(s, e).tasks[t] == Finished
  {
    match e
    case ResetAll =>
    case NewTask(hasEntry) => FirstUnusedIsUnused(s.tasks, 0);
    case RunTasks(budget) => RunKeepsInv(s, budget); NextReadyIsNearest(s.tasks, s.cursor);
    case YieldNow =>
      if InTask(s) { NextReadyIsNearest(Leave(s, Ready).tasks, s.current); }
    case ExitNow =>
      if InTask(s) { NextReadyIsNearest(Leave(s, Finished).tasks, s.current); }
  }
}
