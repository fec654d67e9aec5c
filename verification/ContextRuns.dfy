/** Whole runs of the scheduler on the machine: contexts work on their own stacks, call the
    scheduler, and are switched away from and back to. */
module ContextRuns {
  import opened Words
  import opened Scheduler
  import CS = ContextSwitch
  import opened ContextSwitch
  import opened Bits

  /** Work stands for any code a context runs between scheduler calls, interrupts included. */
  datatype Event =
    | Work(m: Memory, r: Regs)
    | YieldCall
    | ExitCall
    | RunCall(budget: word)
    | CreateCall(hasEntry: bool)
    | ResetCall

  /** The running context leaves the other stacks and the saved stack pointers alone. */
  ghost predicate KeepsOthers(l: Layout, who: nat, m: Memory, m': Memory)
    requires ValidLayout(l)
  {
    forall c, a: nat :: 0 <= c < CONTEXTS && c != who && (InStack(l, c, a) || a == l.slot[c]) ==>
        Read(m', a) == Read(m, a)
  }

  /** The seven words prepare_initial_stack pushes: the frame a first dispatch pops, above it
      the fake return address. */
  function InitialWords(m: Memory, top: nat, exit: word, trampoline: word, eflags: word): Memory
    requires top >= 28
  {
    m[top - 4 := exit][top - 8 := trampoline][top - 12 := eflags]
     [top - 16 := 0][top - 20 := 0][top - 24 := 0][top - 28 := 0]
  }

  function PrepareStack(l: Layout, m: Memory, id: nat, eflags: word): Memory
    requires ValidLayout(l) && id < MAX_TASKS
  {
    InitialWords(m, l.top[id], l.exit, l.trampoline, eflags)[l.slot[id] := l.top[id] - 28]
  }

  function InitialRegs(l: Layout, id: nat, eflags: word): Regs
    requires ValidLayout(l) && id < MAX_TASKS
  {
    Regs(l.top[id] - 4, 0, 0, 0, 0, eflags, l.trampoline)
  }

  function CreateOn(l: Layout, x: Machine, hasEntry: bool): Machine
    requires ValidLayout(l) && |x.s.tasks| == MAX_TASKS && |x.saved| == CONTEXTS
  {
    var id := CreatedId(x.s, hasEntry);
    if id < MAX_TASKS then Prepared(l, x, id, Create(x.s, hasEntry), InitialEflags(x.r.eflags)) else x
  }

  function Prepared(l: Layout, x: Machine, id: nat, s': Sched, eflags: word): Machine
    requires ValidLayout(l) && id < MAX_TASKS && |x.saved| == CONTEXTS
  {
    x.(s := s', m := PrepareStack(l, x.m, id, eflags), saved := x.saved[id := InitialRegs(l, id, eflags)])
  }

  /** A call that returns without a switch: interrupts off and back to what they were. */
  function Returned(x: Machine, s': Sched): Machine {
    x.(s := s', r := x.r.(eflags := RestoreInterrupts(Cli(x.r.eflags), x.r.eflags)))
  }

  ghost predicate Controlled(l: Layout, x: Machine, s': Sched, control: Control, ret: word, y: Machine)
    requires ValidLayout(l) && x.who < CONTEXTS
  {
    match control
    case Return => y == Returned(x, s')
    case ToTask(id) => id < MAX_TASKS && HasRoom(l, x) && y == SwitchTo(l, x, s', id, ret)
    case ToBootstrap => HasRoom(l, x) && y == SwitchTo(l, x, s', BOOTSTRAP, ret)
    case Stop => false
  }

  ghost predicate Step(l: Layout, x: Machine, e: Event, y: Machine)
    requires CS.Inv(l, x)
  {
    match e
    case Work(m, r) => KeepsOthers(l, x.who, x.m, m) && y == x.(m := m, r := r)
    case YieldCall => Controlled(l, x, Yield(x.s), YieldControl(x.s), l.yieldReturn, y)
    case ExitCall => x.who < MAX_TASKS && Controlled(l, x, Exit(x.s), ExitControl(x.s), l.exitReturn, y)
    case RunCall(budget) => Controlled(l, x, RunEnter(x.s, budget), RunControl(x.s, budget), l.runReturn, y)
    case CreateCall(hasEntry) => y == CreateOn(l, x, hasEntry)
    case ResetCall =>
      && y.s == Reset(x.s) && y.who == x.who && y.r == x.r && y.saved == x.saved
      && (x.s.running ==> y.m == x.m)
  }

  // ----- every step keeps the machine consistent -----

  lemma WorkKeepsInv(l: Layout, x: Machine, m: Memory, r: Regs)
    requires CS.Inv(l, x) && KeepsOthers(l, x.who, x.m, m)
    ensures CS.Inv(l, x.(m := m, r := r))
  {
    forall c | 0 <= c < CONTEXTS && Resumable(x.s, c)
      ensures Suspended(l, m, x.saved, c)
    {
      assert c != x.who;
      var sp := Read(x.m, l.slot[c]);
      assert InStack(l, c, sp) && InStack(l, c, sp + 4) && InStack(l, c, sp + 8);
      assert InStack(l, c, sp + 12) && InStack(l, c, sp + 16) && InStack(l, c, sp + 20);
    }
  }

  lemma InitialWordsFrame(m: Memory, top: nat, exit: word, trampoline: word, eflags: word)
    requires top >= 28
    ensures var m' := InitialWords(m, top, exit, trampoline, eflags);
            && Frame(m', top - 28) == Regs(top - 4, 0, 0, 0, 0, eflags, trampoline)
            && Read(m', top - 4) == exit
            && forall a: nat :: !(top - 28 <= a < top) ==> Read(m', a) == Read(m, a)
  {
  }

  /** The first dispatch of a task starts the trampoline with the i386 call alignment and
      task_exit as its return address. */
  lemma CreatePreparesFrame(l: Layout, m: Memory, id: nat, eflags: word)
    requires ValidLayout(l) && id < MAX_TASKS
    ensures var m' := PrepareStack(l, m, id, eflags);
            && Read(m', l.slot[id]) == l.top[id] - 28
            && Frame(m', l.top[id] - 28) == InitialRegs(l, id, eflags)
            && Read(m', InitialRegs(l, id, eflags).esp) == l.exit
            && forall a: nat :: !InStack(l, id, a) && a != l.slot[id] ==> Read(m', a) == Read(m, a)
    ensures InitialRegs(l, id, eflags).esp % 16 == 12
  {
    InitialWordsFrame(m, l.top[id], l.exit, l.trampoline, eflags);
    SlotCompletes(l, m, InitialWords(m, l.top[id], l.exit, l.trampoline, eflags), id);
  }

  lemma SlotCompletes(l: Layout, m: Memory, m1: Memory, id: nat)
    requires ValidLayout(l) && id < MAX_TASKS
    requires forall a: nat :: !(l.top[id] - 28 <= a < l.top[id]) ==> Read(m1, a) == Read(m, a)
    ensures var m' := m1[l.slot[id] := l.top[id] - 28];
            && Read(m', l.slot[id]) == l.top[id] - 28
            && Frame(m', l.top[id] - 28) == Frame(m1, l.top[id] - 28)
            && Read(m', l.top[id] - 4) == Read(m1, l.top[id] - 4)
            && forall a: nat :: !InStack(l, id, a) && a != l.slot[id] ==> Read(m', a) == Read(m, a)
  {
    assert !InStack(l, id, l.slot[id]);
  }

  lemma PreparedKeepsInv(l: Layout, x: Machine, id: nat, s': Sched, eflags: word)
    requires CS.Inv(l, x) && id < MAX_TASKS && Scheduler.Inv(s') && Holder(s') == x.who
    requires forall c :: 0 <= c < CONTEXTS && Resumable(s', c) && c != id ==> Resumable(x.s, c)
    ensures CS.Inv(l, Prepared(l, x, id, s', eflags))
  {
    CreatePreparesFrame(l, x.m, id, eflags);
    var y := Prepared(l, x, id, s', eflags);
    forall c | 0 <= c < CONTEXTS && Resumable(s', c)
      ensures Suspended(l, y.m, y.saved, c)
    {
      if c != id {
        FrameOutside(l, x.m, y.m, x.saved, c, id);
      }
    }
  }

  lemma CreateKeepsMachine(l: Layout, x: Machine, hasEntry: bool)
    requires CS.Inv(l, x)
    ensures CS.Inv(l, CreateOn(l, x, hasEntry))
  {
    CreateKeepsInv(x.s, hasEntry);
    var id := CreatedId(x.s, hasEntry);
    if id < MAX_TASKS {
      PreparedKeepsInv(l, x, id, Create(x.s, hasEntry), InitialEflags(x.r.eflags));
    }
  }

  /** Giving the CPU away hands it to a context that is suspended and resumable. */
  lemma HandOverMayHand(x: Machine, state: TaskState)
    requires Scheduler.Inv(x.s) && InTask(x.s) && (state == Ready || state == Finished) && x.who == Holder(x.s)
    ensures match HandOverControl(x.s, state)
            case ToTask(id) => id < MAX_TASKS && MayHandTo(x, HandOver(x.s, state), id)
            case ToBootstrap => MayHandTo(x, HandOver(x.s, state), BOOTSTRAP)
            case _ => true
  {
    HandOverKeepsInv(x.s, state);
    NextReadyIsNearest(Leave(x.s, state).tasks, x.s.current);
  }

  lemma RunMayHand(x: Machine, budget: word)
    requires Scheduler.Inv(x.s) && x.who == Holder(x.s) && RunControl(x.s, budget).ToTask?
    ensures RunControl(x.s, budget).id < MAX_TASKS && MayHandTo(x, RunEnter(x.s, budget), RunControl(x.s, budget).id)
  {
    RunKeepsInv(x.s, budget);
    NextReadyIsNearest(x.s.tasks, x.s.cursor);
  }

  /** What a step does to the contexts: the caller keeps the CPU, or it is recorded with its own
      registers and the new holder continues with the registers recorded for it. */
  ghost predicate Transferred(l: Layout, x: Machine, y: Machine, ret: word) {
    && ValidLayout(l) && |x.saved| == |y.saved| == CONTEXTS && x.who < CONTEXTS && y.who < CONTEXTS
    && HasRoom(l, x) && x.r.esp >= 12
    && y.r == x.saved[y.who]
    && y.saved == x.saved[x.who := x.r.(esp := x.r.esp - 12, eip := ret)]
    && Untouched(x.m, y.m, x.r.esp, l.slot[x.who])
  }

  lemma ControlledKeepsInv(l: Layout, x: Machine, s': Sched, control: Control, ret: word, y: Machine)
    requires CS.Inv(l, x) && Controlled(l, x, s', control, ret, y)
    requires control == Return ==>
             && Scheduler.Inv(s') && Holder(s') == x.who
             && forall c :: 0 <= c < CONTEXTS && Resumable(s', c) ==> Resumable(x.s, c)
    requires control.ToTask? ==> MayHandTo(x, s', control.id)
    requires control == ToBootstrap ==> MayHandTo(x, s', BOOTSTRAP)
    ensures CS.Inv(l, y)
    ensures control == Return ==> y == x.(s := s')
    ensures control != Return ==>
            y.who != x.who && Transferred(l, x, y, ret)
  {
    match control
    case Return => RestoreUndoesCli(x.r.eflags);
    case ToTask(id) => SwitchKeepsInv(l, x, s', id, ret);
    case ToBootstrap => SwitchKeepsInv(l, x, s', BOOTSTRAP, ret);
  }

  lemma YieldKeepsMachine(l: Layout, x: Machine, y: Machine)
    requires CS.Inv(l, x) && Step(l, x, YieldCall, y)
    ensures CS.Inv(l, y)
    ensures if y.who == x.who then y.r == x.r && y.saved == x.saved && y.m == x.m
            else Transferred(l, x, y, l.yieldReturn)
  {
    if InTask(x.s) {
      HandOverKeepsInv(x.s, Ready);
      HandOverMayHand(x, Ready);
      if HandOverControl(x.s, Ready) == Return {
        SelfDispatchKeepsOthers(x.s);
      }
    }
    ControlledKeepsInv(l, x, Yield(x.s), YieldControl(x.s), l.yieldReturn, y);
  }

  lemma SelfDispatchKeepsOthers(s: Sched)
    requires Scheduler.Inv(s) && InTask(s) && HandOverControl(s, Ready) == Return
    ensures HandOver(s, Ready).tasks == s.tasks
  {
  }

  lemma ExitKeepsMachine(l: Layout, x: Machine, y: Machine)
    requires CS.Inv(l, x) && Step(l, x, ExitCall, y)
    ensures CS.Inv(l, y) && y.who != x.who && Transferred(l, x, y, l.exitReturn)
  {
    HandOverKeepsInv(x.s, Finished);
    HandOverMayHand(x, Finished);
    ControlledKeepsInv(l, x, Exit(x.s), ExitControl(x.s), l.exitReturn, y);
  }

  lemma RunKeepsMachine(l: Layout, x: Machine, budget: word, y: Machine)
    requires CS.Inv(l, x) && Step(l, x, RunCall(budget), y)
    ensures CS.Inv(l, y)
    ensures if y.who == x.who then y.r == x.r && y.saved == x.saved && y.m == x.m
            else Transferred(l, x, y, l.runReturn)
  {
    if RunControl(x.s, budget).ToTask? {
      RunMayHand(x, budget);
    }
    ControlledKeepsInv(l, x, RunEnter(x.s, budget), RunControl(x.s, budget), l.runReturn, y);
  }

  lemma ResetKeepsMachine(l: Layout, x: Machine, y: Machine)
    requires CS.Inv(l, x) && Step(l, x, ResetCall, y)
    ensures CS.Inv(l, y)
  {
    BootIsInv();
  }

  function ReturnAddress(l: Layout, e: Event): word {
    match e
    case YieldCall => l.yieldReturn
    case ExitCall => l.exitReturn
    case RunCall(_) => l.runReturn
    case _ => 0
  }

  /** Every step keeps the machine consistent, and CPU changes hands only by an exchange of
      recorded register states. */
  lemma StepKeepsMachine(l: Layout, x: Machine, e: Event, y: Machine)
    requires CS.Inv(l, x) && Step(l, x, e, y)
    ensures CS.Inv(l, y)
    ensures y.who != x.who ==> Transferred(l, x, y, ReturnAddress(l, e))
  {
    match e
    case Work(m, r) => WorkKeepsInv(l, x, m, r);
    case YieldCall => YieldKeepsMachine(l, x, y);
    case ExitCall => ExitKeepsMachine(l, x, y);
    case RunCall(budget) => RunKeepsMachine(l, x, budget, y);
    case CreateCall(hasEntry) => CreateKeepsMachine(l, x, hasEntry);
    case ResetCall => ResetKeepsMachine(l, x, y);
  }

  // ----- runs -----

  ghost predicate StepAt(l: Layout, xs: seq<Machine>, es: seq<Event>, k: nat)
    requires k < |es| && |xs| == |es| + 1
  {
    CS.Inv(l, xs[k]) ==> Step(l, xs[k], es[k], xs[k + 1])
  }

  ghost predicate IsRun(l: Layout, xs: seq<Machine>, es: seq<Event>) {
    && ValidLayout(l)
    && |xs| == |es| + 1
    && xs[0].s == Boot() && xs[0].who == BOOTSTRAP && |xs[0].saved| == CONTEXTS
    && forall k :: 0 <= k < |es| ==> StepAt(l, xs, es, k)
  }

  lemma {:induction false} RunKeepsMachines(l: Layout, xs: seq<Machine>, es: seq<Event>, k: nat)
    requires IsRun(l, xs, es) && k < |xs|
    ensures CS.Inv(l, xs[k])
  {
    if k == 0 {
      BootIsInv();
    } else {
      RunKeepsMachines(l, xs, es, k - 1);
      assert StepAt(l, xs, es, k - 1);
      StepKeepsMachine(l, xs[k - 1], es[k - 1], xs[k]);
    }
  }

  /** A step leaves the record of a suspended context alone, and it stays resumable until it
      gets the CPU or the idle scheduler is reset; a reset while it runs is ignored. */
  lemma StepKeepsRecord(l: Layout, x: Machine, e: Event, y: Machine, c: nat)
    requires CS.Inv(l, x) && Step(l, x, e, y) && c < CONTEXTS && Resumable(x.s, c)
    requires e == ResetCall ==> x.s.running
    ensures |y.saved| == CONTEXTS && y.saved[c] == x.saved[c]
    ensures y.who != c ==> Resumable(y.s, c)
  {
    match e
    case Work(m, r) =>
    case YieldCall => YieldKeepsRecord(l, x, y, c);
    case ExitCall => ExitKeepsRecord(l, x, y, c);
    case RunCall(budget) => RunKeepsRecord(l, x, budget, y, c);
    case CreateCall(hasEntry) => FirstUnusedIsUnused(x.s.tasks, 0);
    case ResetCall =>
  }

  lemma YieldKeepsRecord(l: Layout, x: Machine, y: Machine, c: nat)
    requires CS.Inv(l, x) && Step(l, x, YieldCall, y) && c < CONTEXTS && Resumable(x.s, c)
    ensures |y.saved| == CONTEXTS && y.saved[c] == x.saved[c]
    ensures y.who != c ==> Resumable(y.s, c)
  {
    YieldKeepsMachine(l, x, y);
    YieldKeepsWaiting(x.s, c);
    assert y.s == Yield(x.s) && y.who == Holder(y.s);
  }

  lemma YieldKeepsWaiting(s: Sched, c: nat)
    requires Scheduler.Inv(s) && c < CONTEXTS && Resumable(s, c) && YieldControl(s) != Stop
    ensures Holder(Yield(s)) != c ==> Resumable(Yield(s), c)
  {
    if InTask(s) {
      HandOverKeepsInv(s, Ready);
      NextReadyIsNearest(Leave(s, Ready).tasks, s.current);
    }
  }

  lemma ExitKeepsRecord(l: Layout, x: Machine, y: Machine, c: nat)
    requires CS.Inv(l, x) && Step(l, x, ExitCall, y) && c < CONTEXTS && Resumable(x.s, c)
    ensures |y.saved| == CONTEXTS && y.saved[c] == x.saved[c]
    ensures y.who != c ==> Resumable(y.s, c)
  {
    ExitKeepsMachine(l, x, y);
  }

  lemma RunKeepsRecord(l: Layout, x: Machine, budget: word, y: Machine, c: nat)
    requires CS.Inv(l, x) && Step(l, x, RunCall(budget), y) && c < CONTEXTS && Resumable(x.s, c)
    ensures |y.saved| == CONTEXTS && y.saved[c] == x.saved[c]
    ensures y.who != c ==> Resumable(y.s, c)
  {
    RunKeepsMachine(l, x, budget, y);
  }

  /** The stack of every other context is out of reach of a switch. */
  lemma TransferKeepsStack(l: Layout, x: Machine, y: Machine, ret: word, c: nat, a: nat)
    requires Transferred(l, x, y, ret) && c < CONTEXTS && c != x.who && InStack(l, c, a)
    ensures Read(y.m, a) == Read(x.m, a)
  {
    assert l.top[c] + STACK_SIZE <= l.top[x.who] || l.top[x.who] + STACK_SIZE <= l.top[c];
    assert !InStack(l, c, l.slot[x.who]);
  }

  lemma CreateKeepsStack(l: Layout, x: Machine, hasEntry: bool, c: nat, a: nat)
    requires CS.Inv(l, x) && c < CONTEXTS && Resumable(x.s, c) && InStack(l, c, a)
    ensures Read(CreateOn(l, x, hasEntry).m, a) == Read(x.m, a)
  {
    var id := CreatedId(x.s, hasEntry);
    FirstUnusedIsUnused(x.s.tasks, 0);
    if id < MAX_TASKS {
      CreatePreparesFrame(l, x.m, id, InitialEflags(x.r.eflags));
      assert l.top[c] + STACK_SIZE <= l.top[id] || l.top[id] + STACK_SIZE <= l.top[c];
      assert !InStack(l, c, l.slot[id]);
    }
  }

  lemma StepKeepsStack(l: Layout, x: Machine, e: Event, y: Machine, c: nat, a: nat)
    requires CS.Inv(l, x) && Step(l, x, e, y) && c < CONTEXTS && Resumable(x.s, c) && InStack(l, c, a)
    requires e == ResetCall ==> x.s.running
    ensures Read(y.m, a) == Read(x.m, a)
  {
    match e
    case Work(m, r) =>
    case YieldCall =>
      YieldKeepsMachine(l, x, y);
      if y.who != x.who { TransferKeepsStack(l, x, y, l.yieldReturn, c, a); }
    case ExitCall =>
      ExitKeepsMachine(l, x, y);
      TransferKeepsStack(l, x, y, l.exitReturn, c, a);
    case RunCall(budget) =>
      RunKeepsMachine(l, x, budget, y);
      if y.who != x.who { TransferKeepsStack(l, x, y, l.runReturn, c, a); }
    case CreateCall(hasEntry) => CreateKeepsStack(l, x, hasEntry, c, a);
    case ResetCall =>
  }

  /** As long as a suspended context waits for the CPU no word of its stack changes, whatever
      the others do; nor does the step that hands it the CPU. */
  lemma {:induction false} StacksLast(l: Layout, xs: seq<Machine>, es: seq<Event>, i: nat, j: nat, c: nat, a: nat)
    requires IsRun(l, xs, es) && i <= j < |xs| && c < CONTEXTS && Resumable(xs[i].s, c) && InStack(l, c, a)
    requires forall k :: i <= k < j && es[k] == ResetCall ==> xs[k].s.running
    requires forall k :: i <= k < j ==> xs[k].who != c
    ensures Read(xs[j].m, a) == Read(xs[i].m, a)
    decreases j - i
  {
    if i < j {
      StacksLast(l, xs, es, i, j - 1, c, a);
      RecordsLast(l, xs, es, i, j - 1, c);
      RunKeepsMachines(l, xs, es, j - 1);
      assert StepAt(l, xs, es, j - 1);
      StepKeepsStack(l, xs[j - 1], es[j - 1], xs[j], c, a);
    }
  }

  lemma {:induction false} RecordsLast(l: Layout, xs: seq<Machine>, es: seq<Event>, i: nat, j: nat, c: nat)
    requires IsRun(l, xs, es) && i <= j < |xs| && c < CONTEXTS && Resumable(xs[i].s, c)
    requires forall k :: i <= k < j && es[k] == ResetCall ==> xs[k].s.running
    requires forall k :: i <= k <= j ==> xs[k].who != c
    ensures |xs[i].saved| == |xs[j].saved| == CONTEXTS && xs[j].saved[c] == xs[i].saved[c]
    ensures Resumable(xs[j].s, c)
    decreases j - i
  {
    RunKeepsMachines(l, xs, es, i);
    if i < j {
      RecordsLast(l, xs, es, i, j - 1, c);
      RunKeepsMachines(l, xs, es, j - 1);
      assert StepAt(l, xs, es, j - 1);
      StepKeepsRecord(l, xs[j - 1], es[j - 1], xs[j], c);
    }
  }

  lemma TransferAt(l: Layout, xs: seq<Machine>, es: seq<Event>, k: nat)
    requires IsRun(l, xs, es) && k < |es| && xs[k + 1].who != xs[k].who
    ensures Transferred(l, xs[k], xs[k + 1], ReturnAddress(l, es[k]))
    ensures es[k] != ExitCall ==> Resumable(xs[k + 1].s, xs[k].who)
  {
    RunKeepsMachines(l, xs, es, k);
    assert StepAt(l, xs, es, k);
    StepKeepsMachine(l, xs[k], es[k], xs[k + 1]);
    if es[k] != ExitCall {
      YieldedIsResumable(l, xs[k], es[k], xs[k + 1]);
    }
  }

  lemma YieldedIsResumable(l: Layout, x: Machine, e: Event, y: Machine)
    requires CS.Inv(l, x) && Step(l, x, e, y) && y.who != x.who && e != ExitCall
    ensures Resumable(y.s, x.who)
  {
    match e
    case YieldCall =>
      HandOverKeepsInv(x.s, Ready);
    case RunCall(budget) =>
      RunKeepsInv(x.s, budget);
    case _ =>
  }

  /** A context that gives the CPU away at step i, by yielding or by task_run, and next gets it
      back at step j continues after its scheduler call with the callee-saved registers, the
      stack and the EFLAGS it had before, whatever the other contexts did in between. */
  lemma ContextsResumeWhereTheyLeft(l: Layout, xs: seq<Machine>, es: seq<Event>, i: nat, j: nat, c: nat)
    requires IsRun(l, xs, es) && i < j < |es| && c < CONTEXTS && es[i] != ExitCall
    requires xs[i].who == c && xs[j + 1].who == c && forall k :: i < k <= j ==> xs[k].who != c
    requires forall k :: i < k <= j && es[k] == ResetCall ==> xs[k].s.running
    ensures xs[i].r.esp >= 12
    ensures xs[j + 1].r == xs[i].r.(esp := xs[i].r.esp - 12, eip := ReturnAddress(l, es[i]))
    ensures forall a: nat :: ValidLayout(l) && InStack(l, c, a) && xs[i].r.esp <= a
                             ==> Read(xs[j + 1].m, a) == Read(xs[i].m, a)
  {
    TransferAt(l, xs, es, i);
    ArrivesAsRecorded(l, xs, es, i + 1, j, c);
    forall a: nat | InStack(l, c, a) && xs[i].r.esp <= a ensures Read(xs[j + 1].m, a) == Read(xs[i].m, a) {
      StacksLast(l, xs, es, i + 1, j + 1, c, a);
      assert !InStack(l, c, l.slot[c]);
    }
  }

  /** What task_create leaves for the task in slot c. */
  lemma CreatedIsPrepared(l: Layout, x: Machine, hasEntry: bool, c: nat) returns (f: word)
    requires CS.Inv(l, x) && c < MAX_TASKS && x.s.tasks[c] == Unused
    requires Create(x.s, hasEntry).tasks[c] == Ready
    ensures var y := CreateOn(l, x, hasEntry);
            && |y.saved| == CONTEXTS && y.who == x.who
            && y.saved[c] == Regs(l.top[c] - 4, 0, 0, 0, 0, f, l.trampoline)
            && Read(y.m, l.top[c] - 4) == l.exit
    ensures forall b: nat :: Bit(f, b) <==> b == 1 || (b !in {8, 10, 14, 17} && Bit(x.r.eflags, b))
  {
    f := FlagsForNewTask(x.r.eflags);
    PreparedFrame(l, x, c, Create(x.s, hasEntry), f);
  }

  lemma FlagsForNewTask(creator: word) returns (f: word)
    ensures f == InitialEflags(creator)
    ensures forall b: nat :: Bit(f, b) <==> b == 1 || (b !in {8, 10, 14, 17} && Bit(creator, b))
  {
    f := InitialEflags(creator);
    forall b: nat ensures Bit(f, b) <==> b == 1 || (b !in {8, 10, 14, 17} && Bit(creator, b)) {
      InitialEflagsBits(creator, b);
    }
  }

  lemma PreparedFrame(l: Layout, x: Machine, c: nat, s': Sched, f: word)
    requires ValidLayout(l) && c < MAX_TASKS && |x.saved| == CONTEXTS
    ensures var y := Prepared(l, x, c, s', f);
            && y.saved[c] == Regs(l.top[c] - 4, 0, 0, 0, 0, f, l.trampoline)
            && Read(y.m, l.top[c] - 4) == l.exit
  {
    CreatePreparesFrame(l, x.m, c, f);
  }

  /** A task created at step i and first given the CPU at step j starts at the trampoline, with
      a clean stack whose only word is the address of task_exit, the callee-saved registers zero,
      and the creator's EFLAGS at the time of creation, bit 1 set and the trap, direction,
      nested-task and virtual-8086 flags cleared: in particular it may be interrupted exactly
      when its creator could. */
  lemma NewTaskStartsFresh(l: Layout, xs: seq<Machine>, es: seq<Event>, i: nat, j: nat, c: nat)
    requires IsRun(l, xs, es) && i < j < |es| && c < MAX_TASKS && es[i].CreateCall?
    requires |xs[i].s.tasks| == |xs[i + 1].s.tasks| == MAX_TASKS
    requires xs[i].s.tasks[c] == Unused && xs[i + 1].s.tasks[c] == Ready
    requires xs[j + 1].who == c && forall k :: i < k <= j ==> xs[k].who != c
    requires forall k :: i < k <= j && es[k] == ResetCall ==> xs[k].s.running
    ensures l.top[c] >= 4
    ensures xs[j + 1].r == Regs(l.top[c] - 4, 0, 0, 0, 0, xs[j + 1].r.eflags, l.trampoline)
    ensures forall b: nat :: Bit(xs[j + 1].r.eflags, b)
                             <==> b == 1 || (b !in {8, 10, 14, 17} && Bit(xs[i].r.eflags, b))
    ensures Read(xs[j + 1].m, l.top[c] - 4) == l.exit
  {
    var f := CreatedAt(l, xs, es, i, c);
    ArrivesAsRecorded(l, xs, es, i + 1, j, c);
    StacksLast(l, xs, es, i + 1, j + 1, c, l.top[c] - 4);
  }

  lemma CreatedAt(l: Layout, xs: seq<Machine>, es: seq<Event>, i: nat, c: nat) returns (f: word)
    requires IsRun(l, xs, es) && i < |es| && c < MAX_TASKS && es[i].CreateCall?
    requires |xs[i].s.tasks| == |xs[i + 1].s.tasks| == MAX_TASKS
    requires xs[i].s.tasks[c] == Unused && xs[i + 1].s.tasks[c] == Ready
    ensures l.top[c] >= 4 && InStack(l, c, l.top[c] - 4) && Resumable(xs[i + 1].s, c)
    ensures |xs[i + 1].saved| == CONTEXTS
    ensures xs[i + 1].saved[c] == Regs(l.top[c] - 4, 0, 0, 0, 0, f, l.trampoline)
    ensures forall b: nat :: Bit(f, b) <==> b == 1 || (b !in {8, 10, 14, 17} && Bit(xs[i].r.eflags, b))
    ensures Read(xs[i + 1].m, l.top[c] - 4) == l.exit
  {
    RunKeepsMachines(l, xs, es, i);
    assert StepAt(l, xs, es, i);
    f := CreatedIsPrepared(l, xs[i], es[i].hasEntry, c);
  }

  /** A context that waits from i on and gets the CPU at step j continues with the registers
      recorded at i. */
  lemma ArrivesAsRecorded(l: Layout, xs: seq<Machine>, es: seq<Event>, i: nat, j: nat, c: nat)
    requires IsRun(l, xs, es) && i <= j < |es| && c < CONTEXTS && Resumable(xs[i].s, c)
    requires xs[j + 1].who == c && forall k :: i <= k <= j ==> xs[k].who != c
    requires forall k :: i <= k <= j && es[k] == ResetCall ==> xs[k].s.running
    ensures |xs[i].saved| == CONTEXTS && xs[j + 1].r == xs[i].saved[c]
  {
    RecordsLast(l, xs, es, i, j, c);
    TransferAt(l, xs, es, j);
  }

  lemma StepKeepsFinished(l: Layout, x: Machine, e: Event, y: Machine, c: nat)
    requires CS.Inv(l, x) && Step(l, x, e, y) && c < MAX_TASKS && x.s.tasks[c] == Finished
    requires e == ResetCall ==> x.s.running
    ensures |y.s.tasks| == MAX_TASKS && y.s.tasks[c] == Finished && y.who != c
  {
    StepKeepsMachine(l, x, e, y);
    match e
    case Work(m, r) =>
    case YieldCall => if InTask(x.s) { NextReadyIsNearest(Leave(x.s, Ready).tasks, x.s.current); }
    case ExitCall => NextReadyIsNearest(Leave(x.s, Finished).tasks, x.s.current);
    case RunCall(budget) => NextReadyIsNearest(x.s.tasks, x.s.cursor);
    case CreateCall(hasEntry) => FirstUnusedIsUnused(x.s.tasks, 0);
    case ResetCall =>
  }

  /** A task that has exited never gets the CPU back, so the code after its last switch, which
      would stop the machine, is never reached. */
  lemma {:induction false} FinishedNeverReturns(l: Layout, xs: seq<Machine>, es: seq<Event>, i: nat, j: nat, c: nat)
    requires IsRun(l, xs, es) && i <= j < |xs| && c < MAX_TASKS && |xs[i].s.tasks| == MAX_TASKS
    requires xs[i].s.tasks[c] == Finished
    requires forall k :: i <= k < j && es[k] == ResetCall ==> xs[k].s.running
    ensures |xs[j].s.tasks| == MAX_TASKS && xs[j].s.tasks[c] == Finished && xs[j].who != c
    decreases j - i
  {
    RunKeepsMachines(l, xs, es, i);
    if i < j {
      FinishedNeverReturns(l, xs, es, i, j - 1, c);
      RunKeepsMachines(l, xs, es, j - 1);
      assert StepAt(l, xs, es, j - 1);
      StepKeepsFinished(l, xs[j - 1], es[j - 1], xs[j], c);
    }
  }

  /** The CPU is always with the running task, or with the bootstrap context; the checks of the
      trampoline and of task_exit pass for whichever task holds it. */
  lemma HolderIsRunning(l: Layout, xs: seq<Machine>, es: seq<Event>, k: nat)
    requires IsRun(l, xs, es) && k < |xs|
    ensures xs[k].who < MAX_TASKS ==>
            InTask(xs[k].s) && xs[k].who == xs[k].s.current && xs[k].s.tasks[xs[k].who] == Running
    ensures xs[k].who < MAX_TASKS ==> YieldControl(xs[k].s) != Stop && ExitControl(xs[k].s) != Stop
    ensures xs[k].who == BOOTSTRAP <==> !xs[k].s.running
  {
    RunKeepsMachines(l, xs, es, k);
    if xs[k].who < MAX_TASKS {
      HandOverKeepsInv(xs[k].s, Ready);
      HandOverKeepsInv(xs[k].s, Finished);
    }
  }
}
