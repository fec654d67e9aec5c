/** kernel/kernel.c, run_task_flow: a producer, a consumer and a timer observer scheduled round
    robin over one IPC endpoint. A slice is what a task does between two scheduler calls. */
module TaskFlow {
  import opened Words
  import opened Scheduler
  import Ipc

  const FLOW_TYPE: word := 0x54494E59
  const PRODUCER: nat := 0
  const CONSUMER: nat := 1
  const OBSERVER: nat := 2

  /** The counters and flags of the flow, and the slices each side has taken. */
  datatype Flow = Flow(
    sched: Sched,
    boxes: Ipc.Boxes,
    produced: nat,
    consumed: nat,
    producerFinished: bool,
    consumerFinished: bool,
    observerFinished: bool,
    failed: bool,
    producerSlices: nat,
    consumerSlices: nat,
    observerSlices: nat,
    failedSends: nat,
    failedReceives: nat)

  // ----- the three tasks -----

  /** The payload bytes after the first four, as prepare_message leaves them for seed 0. */
  function Stamp(): seq<byte> {
    seq(Ipc.PAYLOAD_MAX - 4, i requires 0 <= i < Ipc.PAYLOAD_MAX - 4 => 4 + i)
  }

  /** prepare_message with seed 0, then the four payload bytes. */
  function FlowMessage(sender: word, sequence: nat): Ipc.Message {
    Ipc.Message(sender, FLOW_TYPE, 4, [sequence % 256, 0xA5, 0x5A, 255 - sequence % 256] + Stamp())
  }

  /** What the consumer checks of a message. */
  predicate LooksRight(m: Ipc.Message, sequence: nat) {
    && m.sender == PRODUCER && m.kind == FLOW_TYPE && m.length == 4
    && m.payload[0] == sequence % 256 && m.payload[1] == 0xA5
    && m.payload[2] == 0x5A && m.payload[3] == 255 - sequence % 256
    && forall k :: 4 <= k < Ipc.PAYLOAD_MAX ==> m.payload[k] == 0
  }

  // What each task does in a slice, and whether it returns or exits instead of yielding.

  function ProducerWork(f: Flow, n: nat, e: word): Flow {
    var m, slices := FlowMessage(f.sched.current, f.produced), f.producerSlices + 1;
    if f.produced >= n then f.(producerSlices := slices, producerFinished := true)
    else if Ipc.SendOk(f.boxes, e, m) then
      f.(producerSlices := slices, boxes := Ipc.Send(f.boxes, e, m), produced := f.produced + 1)
    else
      f.(producerSlices := slices, boxes := Ipc.Send(f.boxes, e, m), failedSends := f.failedSends + 1)
  }

  predicate ProducerEnds(f: Flow, n: nat) {
    f.produced >= n
  }

  function ConsumerWork(f: Flow, n: nat, e: word): Flow {
    var slices := f.consumerSlices + 1;
    if f.consumed >= n then f.(consumerSlices := slices, consumerFinished := true)
    else if !Ipc.ReceiveOk(f.boxes, e) then f.(consumerSlices := slices, failedReceives := f.failedReceives + 1)
    else if LooksRight(Ipc.Received(f.boxes, e), f.consumed) then
      f.(consumerSlices := slices, boxes := Ipc.Receive(f.boxes, e), consumed := f.consumed + 1)
    else
      f.(consumerSlices := slices, boxes := Ipc.Receive(f.boxes, e), failed := true)
  }

  predicate ConsumerEnds(f: Flow, n: nat, e: word) {
    f.consumed >= n || (Ipc.ReceiveOk(f.boxes, e) && !LooksRight(Ipc.Received(f.boxes, e), f.consumed))
  }

  /** The observer yields until the timer has moved far enough; when that is, is not its decision. */
  function ObserverWork(f: Flow, enough: bool): Flow {
    f.(observerSlices := f.observerSlices + 1, observerFinished := f.observerFinished || enough)
  }

  function Work(f: Flow, n: nat, e: word, enough: bool): Flow {
    if f.sched.current == PRODUCER then ProducerWork(f, n, e)
    else if f.sched.current == CONSUMER then ConsumerWork(f, n, e)
    else ObserverWork(f, enough)
  }

  predicate Ends(f: Flow, n: nat, e: word, enough: bool) {
    if f.sched.current == PRODUCER then ProducerEnds(f, n)
    else if f.sched.current == CONSUMER then ConsumerEnds(f, n, e)
    else enough
  }

  /** One slice of whichever task holds the CPU, and the scheduler call it ends in; enough is the
      timer's answer if it is the observer. */
  function Slice(f: Flow, n: nat, e: word, enough: bool): Flow {
    if !f.sched.running || f.sched.current > OBSERVER then f
    else Work(f, n, e, enough).(sched := if Ends(f, n, e, enough) then Exit(f.sched) else Yield(f.sched))
  }

  function Slices(f: Flow, n: nat, e: word, enough: seq<bool>): Flow {
    if enough == [] then f else Slice(Slices(f, n, e, enough[..|enough| - 1]), n, e, enough[|enough| - 1])
  }

  /** task_system_init, three task_create calls and task_run(budget) up to the first slice. */
  function Started(s: Sched, boxes: Ipc.Boxes, budget: word): Flow
    requires !s.running
  {
    Flow(RunEnter(ThreeTasks(s), budget), boxes, 0, 0, false, false, false, false, 0, 0, 0, 0, 0)
  }

  function ThreeTasks(s: Sched): Sched
    requires !s.running
  {
    Create(Create(Create(Reset(s), true), true), true)
  }

  // ----- three tasks in turn -----

  /** Exactly the first three slots are taken. */
  predicate Trio(s: Sched) {
    && Inv(s) && (s.running ==> s.current < 3) && s.initialized
    && (forall i: nat :: i < 3 ==> s.tasks[i] != Unused)
    && (forall i: nat :: 3 <= i < MAX_TASKS ==> s.tasks[i] == Unused)
  }

  /** The next of three in cyclic order. */
  function Next(c: nat): nat {
    if c == 2 then 0 else c + 1
  }

  /** Among three tasks the next one is the first READY one in cyclic order. */
  lemma NextOfThree(tasks: seq<TaskState>, c: nat)
    requires |tasks| == MAX_TASKS && c < 3 && forall i: nat :: 3 <= i < MAX_TASKS ==> tasks[i] == Unused
    ensures NextReady(tasks, c) ==
              if tasks[Next(c)] == Ready then Next(c)
              else if tasks[Next(Next(c))] == Ready then Next(Next(c))
              else if tasks[c] == Ready then c else INVALID
  {
    NextReadyIsNearest(tasks, c);
    var id := NextReady(tasks, c);
    if id != INVALID {
      assert id < 3;
      assert c == 0 || c == 1 || c == 2;
      assert tasks[Next(c)] == Ready ==> Distance(c, id) <= Distance(c, Next(c));
      assert tasks[Next(Next(c))] == Ready ==> Distance(c, id) <= Distance(c, Next(Next(c)));
    }
  }

  predicate Done(s: Sched, i: nat) {
    i < |s.tasks| && s.tasks[i] == Finished
  }

  /** Whose turn it is after the current task. */
  function Turn(s: Sched): nat {
    if !Done(s, Next(s.current)) then Next(s.current)
    else if !Done(s, Next(Next(s.current))) then Next(Next(s.current))
    else s.current
  }

  lemma TrioLeaves(s: Sched, state: TaskState)
    requires Trio(s) && s.running && (state == Ready || state == Finished)
    ensures InTask(s)
    ensures var left := Leave(s, state);
            && |left.tasks| == MAX_TASKS && (forall i: nat :: 3 <= i < MAX_TASKS ==> left.tasks[i] == Unused)
            && left.tasks[s.current] == state
            && (forall i: nat :: i < 3 && i != s.current ==>
                left.tasks[i] == s.tasks[i] && (s.tasks[i] == Ready || s.tasks[i] == Finished))
  {
    assert s.tasks[s.current] == Running;
  }

  /** What a hand-over among three tasks does: only the leaver's end can become known, and the
      turn goes to the next unfinished one while the budget lasts. */
  lemma HandOverOfThree(s: Sched, state: TaskState)
    requires Trio(s) && s.running && (state == Ready || state == Finished)
    ensures InTask(s) && Trio(HandOver(s, state))
    ensures forall i: nat :: i < 3 ==>
            (Done(HandOver(s, state), i) <==> if i == s.current then state == Finished else Done(s, i))
    ensures HandOver(s, state).running ==> HandOver(s, state).current == Turn(s)
    ensures !HandOver(s, state).running ==> s.remaining == 0 || forall i: nat :: i < 3 ==> Done(HandOver(s, state), i)
  {
    TrioLeaves(s, state);
    HandOverKeepsInv(s, state);
    var left := Leave(s, state);
    NextOfThree(left.tasks, s.current);
    var next := NextReady(left.tasks, s.current);
    var s' := HandOver(s, state);
    if next != INVALID && left.remaining != 0 {
      assert CanActivate(left, next);
      assert s' == Activate(left, next);
    } else {
      assert s'.tasks == left.tasks;
    }
  }

  // ----- the flow -----

  /** The endpoint holds exactly the messages produced and not yet consumed, in order. */
  ghost predicate Carries(boxes: Ipc.Boxes, e: word, produced: nat, consumed: nat) {
    && Ipc.IsOpen(boxes, e) && boxes[e].rejected == 0
    && boxes[e].received == consumed && |boxes[e].accepted| == produced
    && forall i: nat :: i < produced ==> boxes[e].accepted[i] == Ipc.Delivered(FlowMessage(PRODUCER, i))
  }

  /** The flags mirror the scheduler's tables, and each side has taken one slice per message plus
      the one it finished in. */
  ghost predicate Booked(f: Flow, n: nat) {
    && (f.producerFinished <==> Done(f.sched, PRODUCER)) && (f.consumerFinished <==> Done(f.sched, CONSUMER))
    && (f.observerFinished <==> Done(f.sched, OBSERVER))
    && (f.producerFinished ==> f.produced == n) && (f.consumerFinished ==> f.consumed == n)
    && f.producerSlices == f.produced + (if f.producerFinished then 1 else 0)
    && f.consumerSlices == f.consumed + (if f.consumerFinished then 1 else 0)
    && !f.failed && f.failedSends == 0 && f.failedReceives == 0
  }

  /** Producer and consumer alternate: the consumer's turn is the only time a message waits. */
  ghost predicate InStep(f: Flow, n: nat) {
    && f.consumed <= f.produced <= f.consumed + 1 && f.produced <= n
    && (f.sched.running && f.sched.current == PRODUCER ==>
        f.produced == f.consumed && !f.producerFinished && !f.consumerFinished)
    && (f.sched.running && f.sched.current == CONSUMER ==>
          && !f.consumerFinished
          && (if f.producerFinished then f.produced == f.consumed else f.produced == f.consumed + 1))
    && (f.sched.running && f.sched.current == OBSERVER ==>
          f.produced == f.consumed && (f.producerFinished <==> f.consumerFinished) && !f.observerFinished)
  }

  ghost predicate FlowInv(f: Flow, n: nat, e: word) {
    Trio(f.sched) && Carries(f.boxes, e, f.produced, f.consumed) && Booked(f, n) && InStep(f, n)
  }

  function SliceCount(f: Flow): nat {
    f.producerSlices + f.consumerSlices + f.observerSlices
  }

  /** Every dispatch is a slice taken or the one in progress, and is paid from the budget. */
  ghost predicate Paid(f: Flow, budget: word) {
    var dispatched := SliceCount(f) + if f.sched.running then 1 else 0;
    f.sched.remaining + dispatched == budget && f.sched.switches == dispatched
  }

  lemma HandOverIsPaid(s: Sched, state: TaskState)
    requires Trio(s) && s.running && (state == Ready || state == Finished) && s.remaining + s.switches < WORD_LIMIT
    ensures InTask(s)
    ensures var s' := HandOver(s, state);
            if s'.running then s'.remaining == s.remaining - 1 && s'.switches == s.switches + 1
            else s'.remaining == s.remaining && s'.switches == s.switches
  {
    TrioLeaves(s, state);
    NextReadyIsNearest(Leave(s, state).tasks, s.current);
  }

  lemma SliceIsPaid(f: Flow, n: nat, e: word, enough: bool, budget: word)
    requires FlowInv(f, n, e) && Paid(f, budget)
    ensures Paid(Slice(f, n, e, enough), budget)
    ensures f.sched.running ==> SliceCount(Slice(f, n, e, enough)) == SliceCount(f) + 1
  {
    if f.sched.running {
      SliceHandsOver(f, n, e, enough);
      SliceCounts(f, n, e, enough);
      HandOverIsPaid(f.sched, Ready);
      HandOverIsPaid(f.sched, Finished);
    }
  }

  lemma SliceCounts(f: Flow, n: nat, e: word, enough: bool)
    requires f.sched.running && f.sched.current < 3
    ensures SliceCount(Slice(f, n, e, enough)) == SliceCount(f) + 1
  {
    WorkCounts(f, n, e, enough);
  }

  lemma WorkCounts(f: Flow, n: nat, e: word, enough: bool)
    ensures SliceCount(Work(f, n, e, enough)) == SliceCount(f) + 1
  {
  }

  lemma StartIsPaid(s: Sched, boxes: Ipc.Boxes, budget: word)
    requires !s.running
    ensures Paid(Started(s, boxes, budget), budget)
  {
    ThreeTasksIsTrio(s);
    var t := ThreeTasks(s);
    RunKeepsInv(t, budget);
    NextReadyIsNearest(t.tasks, t.cursor);
  }

  lemma {:induction false} FlowIsPaid(s: Sched, boxes: Ipc.Boxes, budget: word, n: nat, e: word, enough: seq<bool>)
    requires !s.running && Ipc.IsOpen(boxes, e) && boxes[e] == Ipc.Open([], 0, 0)
    ensures var f := Slices(Started(s, boxes, budget), n, e, enough);
            Paid(f, budget) && (f.sched.running ==> SliceCount(f) == |enough|)
  {
    if enough == [] {
      StartIsPaid(s, boxes, budget);
    } else {
      var before := enough[..|enough| - 1];
      FlowIsPaid(s, boxes, budget, n, e, before);
      FlowStaysInStep(s, boxes, budget, n, e, before);
      SliceIsPaid(Slices(Started(s, boxes, budget), n, e, before), n, e, enough[|enough| - 1], budget);
    }
  }

  /** A stopped flow has spent its budget or finished every task. */
  ghost predicate Settled(s: Sched) {
    !s.running ==> s.remaining == 0 || forall i: nat :: i < 3 ==> Done(s, i)
  }

  lemma HandOverSettles(s: Sched, state: TaskState)
    requires Trio(s) && s.running && (state == Ready || state == Finished)
    ensures InTask(s) && Settled(HandOver(s, state))
  {
    HandOverOfThree(s, state);
    HandOverKeepsInv(s, state);
  }

  lemma SliceHandsOver(f: Flow, n: nat, e: word, enough: bool)
    requires FlowInv(f, n, e) && f.sched.running
    ensures InTask(f.sched)
    ensures Slice(f, n, e, enough).sched == HandOver(f.sched, Ready)
            || Slice(f, n, e, enough).sched == HandOver(f.sched, Finished)
  {
    TrioLeaves(f.sched, Ready);
  }

  lemma StartIsSettled(s: Sched, boxes: Ipc.Boxes, budget: word)
    requires !s.running
    ensures Settled(Started(s, boxes, budget).sched)
  {
    StartIsPaid(s, boxes, budget);
    ThreeTasksIsTrio(s);
    RunKeepsInv(ThreeTasks(s), budget);
    NextReadyIsNearest(ThreeTasks(s).tasks, ThreeTasks(s).cursor);
  }

  lemma {:induction false} FlowEndsWell(s: Sched, boxes: Ipc.Boxes, budget: word, n: nat, e: word, enough: seq<bool>)
    requires !s.running && Ipc.IsOpen(boxes, e) && boxes[e] == Ipc.Open([], 0, 0)
    ensures Settled(Slices(Started(s, boxes, budget), n, e, enough).sched)
  {
    if enough == [] {
      StartIsSettled(s, boxes, budget);
    } else {
      var before := enough[..|enough| - 1];
      var f := Slices(Started(s, boxes, budget), n, e, before);
      FlowEndsWell(s, boxes, budget, n, e, before);
      FlowStaysInStep(s, boxes, budget, n, e, before);
      if f.sched.running {
        SliceHandsOver(f, n, e, enough[|enough| - 1]);
        HandOverSettles(f.sched, Ready);
        HandOverSettles(f.sched, Finished);
      }
    }
  }

  /** Once the flow has had as many slices as its budget it has stopped, and it has stopped with
      everything delivered unless the observer alone used up what 2 (n + 1) slices left over. The
      switch count is then exactly 2 (n + 1) plus the observer's slices. */
  lemma FlowCompletesWithinBudget(s: Sched, boxes: Ipc.Boxes, budget: word, n: nat, e: word, enough: seq<bool>)
    requires !s.running && Ipc.IsOpen(boxes, e) && boxes[e] == Ipc.Open([], 0, 0) && |enough| >= budget
    ensures var f := Slices(Started(s, boxes, budget), n, e, enough);
            && !f.sched.running
            && (f.observerSlices + 2 * (n + 1) < budget ==>
                  && |f.sched.tasks| == MAX_TASKS && RunComplete(f.sched)
                  && f.sched.switches == 2 * (n + 1) + f.observerSlices)
  {
    FlowIsPaid(s, boxes, budget, n, e, enough);
    FlowEndsWell(s, boxes, budget, n, e, enough);
    FlowStaysInStep(s, boxes, budget, n, e, enough);
    var f := Slices(Started(s, boxes, budget), n, e, enough);
    if f.observerSlices + 2 * (n + 1) < budget {
      StoppedIsComplete(f, n, e, budget);
    }
  }

  lemma StoppedIsComplete(f: Flow, n: nat, e: word, budget: word)
    requires FlowInv(f, n, e) && Paid(f, budget) && Settled(f.sched) && !f.sched.running
    requires f.observerSlices + 2 * (n + 1) < budget
    ensures RunComplete(f.sched) && f.sched.switches == 2 * (n + 1) + f.observerSlices
  {
    NextReadyIsNearest(f.sched.tasks, f.sched.cursor);
  }

  lemma SendCarries(boxes: Ipc.Boxes, e: word, produced: nat)
    requires Carries(boxes, e, produced, produced)
    ensures var m := FlowMessage(PRODUCER, produced);
            Ipc.SendOk(boxes, e, m) && Carries(Ipc.Send(boxes, e, m), e, produced + 1, produced)
  {
  }

  lemma DeliveredLooksRight(sequence: nat)
    ensures LooksRight(Ipc.Delivered(FlowMessage(PRODUCER, sequence)), sequence)
  {
    var m := FlowMessage(PRODUCER, sequence);
    assert m.payload[..4] == [sequence % 256, 0xA5, 0x5A, 255 - sequence % 256];
  }

  lemma ReceiveCarries(boxes: Ipc.Boxes, e: word, consumed: nat)
    requires Carries(boxes, e, consumed + 1, consumed)
    ensures Ipc.ReceiveOk(boxes, e) && LooksRight(Ipc.Received(boxes, e), consumed)
    ensures Carries(Ipc.Receive(boxes, e), e, consumed + 1, consumed + 1)
  {
    DeliveredLooksRight(consumed);
  }

  lemma ProducerKeepsStep(f: Flow, n: nat, e: word, enough: bool)
    requires FlowInv(f, n, e) && f.sched.running && f.sched.current == PRODUCER
    ensures FlowInv(Slice(f, n, e, enough), n, e)
  {
    if f.produced < n {
      SendCarries(f.boxes, e, f.produced);
      HandOverOfThree(f.sched, Ready);
    } else {
      HandOverOfThree(f.sched, Finished);
    }
  }

  lemma ConsumerKeepsStep(f: Flow, n: nat, e: word, enough: bool)
    requires FlowInv(f, n, e) && f.sched.running && f.sched.current == CONSUMER
    ensures FlowInv(Slice(f, n, e, enough), n, e)
  {
    if f.consumed < n {
      ReceiveCarries(f.boxes, e, f.consumed);
      HandOverOfThree(f.sched, Ready);
    } else {
      HandOverOfThree(f.sched, Finished);
    }
  }

  lemma ObserverKeepsStep(f: Flow, n: nat, e: word, enough: bool)
    requires FlowInv(f, n, e) && f.sched.running && f.sched.current == OBSERVER
    ensures FlowInv(Slice(f, n, e, enough), n, e)
  {
    HandOverOfThree(f.sched, if enough then Finished else Ready);
  }

  lemma SliceKeepsStep(f: Flow, n: nat, e: word, enough: bool)
    requires FlowInv(f, n, e)
    ensures FlowInv(Slice(f, n, e, enough), n, e)
  {
    if f.sched.running {
      if f.sched.current == PRODUCER {
        ProducerKeepsStep(f, n, e, enough);
      } else if f.sched.current == CONSUMER {
        ConsumerKeepsStep(f, n, e, enough);
      } else {
        ObserverKeepsStep(f, n, e, enough);
      }
    }
  }

  lemma ThreeTasksIsTrio(s: Sched)
    requires !s.running
    ensures Trio(ThreeTasks(s)) && !ThreeTasks(s).running && ThreeTasks(s).cursor == INVALID
    ensures CreatedId(Reset(s), true) == PRODUCER && CreatedId(Create(Reset(s), true), true) == CONSUMER
    ensures CreatedId(Create(Create(Reset(s), true), true), true) == OBSERVER
    ensures forall i: nat :: i < 3 ==> ThreeTasks(s).tasks[i] == Ready
  {
    BootIsInv();
    var a := Reset(s);
    CreateKeepsInv(a, true);
    FirstUnusedIsUnused(a.tasks, 0);
    var b := Create(a, true);
    CreateKeepsInv(b, true);
    FirstUnusedIsUnused(b.tasks, 0);
    var c := Create(b, true);
    CreateKeepsInv(c, true);
    FirstUnusedIsUnused(c.tasks, 0);
  }

  lemma StartIsInStep(s: Sched, boxes: Ipc.Boxes, budget: word, n: nat, e: word)
    requires !s.running && Ipc.IsOpen(boxes, e) && boxes[e] == Ipc.Open([], 0, 0)
    ensures FlowInv(Started(s, boxes, budget), n, e)
  {
    ThreeTasksIsTrio(s);
    var t := ThreeTasks(s);
    RunKeepsInv(t, budget);
    NextReadyIsNearest(t.tasks, t.cursor);
    assert Distance(INVALID, 0) == 0;
  }

  /** In every state of every flow, whatever the number of messages, the budget and the timer do:
      at most one message waits, no receive fails, no send is rejected and nothing looks wrong. */
  lemma {:induction false} FlowStaysInStep(s: Sched, boxes: Ipc.Boxes, budget: word, n: nat, e: word, enough: seq<bool>)
    requires !s.running && Ipc.IsOpen(boxes, e) && boxes[e] == Ipc.Open([], 0, 0)
    ensures var f := Slices(Started(s, boxes, budget), n, e, enough);
            && FlowInv(f, n, e)
            && 0 <= Ipc.Pending(f.boxes, e) <= 1 && Ipc.Rejected(f.boxes, e) == 0
            && f.failedReceives == 0 && f.failedSends == 0 && !f.failed
  {
    if enough == [] {
      StartIsInStep(s, boxes, budget, n, e);
    } else {
      var before := enough[..|enough| - 1];
      FlowStaysInStep(s, boxes, budget, n, e, before);
      SliceKeepsStep(Slices(Started(s, boxes, budget), n, e, before), n, e, enough[|enough| - 1]);
    }
  }

  /** A flow that ran to completion: task_run has come back and no task is READY. Everything was
      delivered, and producer and consumer took exactly n + 1 slices each. */
  lemma CompletedFlow(s: Sched, boxes: Ipc.Boxes, budget: word, n: nat, e: word, enough: seq<bool>)
    requires !s.running && Ipc.IsOpen(boxes, e) && boxes[e] == Ipc.Open([], 0, 0)
    requires var f := Slices(Started(s, boxes, budget), n, e, enough);
             !f.sched.running && |f.sched.tasks| == MAX_TASKS && RunComplete(f.sched)
    ensures var f := Slices(Started(s, boxes, budget), n, e, enough);
            && f.producerFinished && f.consumerFinished && f.observerFinished && !f.failed
            && f.produced == n && f.consumed == n && Ipc.Pending(f.boxes, e) == 0 && Ipc.Rejected(f.boxes, e) == 0
            && f.producerSlices == n + 1 && f.consumerSlices == n + 1
            && f.sched.finished == 3 && f.sched.current == INVALID
  {
    FlowStaysInStep(s, boxes, budget, n, e, enough);
    var f := Slices(Started(s, boxes, budget), n, e, enough);
    NextReadyIsNearest(f.sched.tasks, f.sched.cursor);
    assert forall i: nat :: i < 3 ==>
        f.sched.tasks[i] != Ready && f.sched.tasks[i] != Running && f.sched.tasks[i] != Unused;
    assert forall i: nat :: i < 3 ==> Done(f.sched, i);
    CountThree(f.sched.tasks);
  }

  lemma CountThree(tasks: seq<TaskState>)
    requires |tasks| == MAX_TASKS && (forall i: nat :: i < 3 ==> tasks[i] == Finished)
    requires forall i: nat :: 3 <= i < MAX_TASKS ==> tasks[i] == Unused
    ensures CountFinished(tasks) == 3
  {
    CountSplit(tasks, 3);
    assert tasks[..3] == [Finished, Finished, Finished];
    assert [Finished, Finished, Finished][..2] == [Finished, Finished];
    assert [Finished, Finished][..1] == [Finished];
    assert CountFinished([Finished]) == 1;
    assert CountFinished([Finished, Finished]) == 2;
  }

  lemma {:induction false} CountSplit(tasks: seq<TaskState>, k: nat)
    requires k <= |tasks| && forall i: nat :: k <= i < |tasks| ==> tasks[i] != Finished
    ensures CountFinished(tasks) == CountFinished(tasks[..k])
    decreases |tasks|
  {
    if k < |tasks| {
      CountSplit(tasks[..|tasks| - 1], k);
      assert tasks[..|tasks| - 1][..k] == tasks[..k];
    } else {
      assert tasks[..k] == tasks;
    }
  }
}
