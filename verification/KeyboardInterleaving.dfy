/** The keyboard queue with its loads and stores as separate steps. The producer (IRQ1) and the
    consumer (the kernel main loop) may interleave between any two of them. */
module KeyboardInterleaving {
  import opened Words
  import opened Keyboard

  /** Where queue_push is: the locals it has loaded. The ghost count seen is how many characters
      had been taken out when read_sequence was loaded. */
  datatype Producer =
    | PushIdle
    | PushStarted(c: char)
    | PushHasWrite(c: char, write: word)
    | PushHasBoth(c: char, write: word, read: word, seen: nat)
    | PushStored(c: char, write: word)

  /** Where keyboard_pop_char is; seen is how many characters had been published when
      write_sequence was loaded. */
  datatype Consumer =
    | PopIdle
    | PopStarted
    | PopHasRead(read: word)
    | PopHasBoth(read: word, write: word, seen: nat)
    | PopHasChar(read: word, c: char)

  datatype State = State(
    queue: seq<char>, write: word, read: word, dropped: word,
    producer: Producer, consumer: Consumer,
    accepted: seq<char>,     // characters published so far
    popped: seq<char>)       // characters handed out so far

  datatype Action = Press(c: char) | ProducerStep | CallPop | ConsumerStep

  /** One load or store of queue_push. */
  function StepProducer(s: State): State
    requires |s.queue| == CAPACITY
  {
    match s.producer
    case PushIdle => s
    case PushStarted(c) => s.(producer := PushHasWrite(c, s.write))
    case PushHasWrite(c, write) => s.(producer := PushHasBoth(c, write, s.read, |s.popped|))
    case PushHasBoth(c, write, read, _) =>
      if Sub32(write, read) >= CAPACITY then s.(producer := PushIdle, dropped := Add32(s.dropped, 1))
      else s.(producer := PushStored(c, write), queue := s.queue[write % CAPACITY := c])
    case PushStored(c, write) => s.(producer := PushIdle, write := Add32(write, 1), accepted := s.accepted + [c])
  }

  /** One load or store of keyboard_pop_char. */
  function StepConsumer(s: State): State
    requires |s.queue| == CAPACITY
  {
    match s.consumer
    case PopIdle => s
    case PopStarted => s.(consumer := PopHasRead(s.read))
    case PopHasRead(read) => s.(consumer := PopHasBoth(read, s.write, |s.accepted|))
    case PopHasBoth(read, write, _) =>
      if read == write then s.(consumer := PopIdle)
      else s.(consumer := PopHasChar(read, s.queue[read % CAPACITY]))
    case PopHasChar(read, c) => s.(consumer := PopIdle, read := Add32(read, 1), popped := s.popped + [c])
  }

  function Step(s: State, a: Action): State
    requires |s.queue| == CAPACITY
  {
    match a
    case Press(c) => if s.producer == PushIdle then s.(producer := PushStarted(c)) else s
    case ProducerStep => StepProducer(s)
    case CallPop => if s.consumer == PopIdle then s.(consumer := PopStarted) else s
    case ConsumerStep => StepConsumer(s)
  }

  predicate Initial(s: State) {
    && |s.queue| == CAPACITY && s.write == 0 && s.read == 0
    && s.producer == PushIdle && s.consumer == PopIdle && s.accepted == [] && s.popped == []
  }

  // ----- the invariant -----

  predicate QueueHolds(s: State) {
    && |s.queue| == CAPACITY
    && |s.popped| <= |s.accepted| <= |s.popped| + CAPACITY
    && s.write == |s.accepted| % WORD_LIMIT
    && s.read == |s.popped| % WORD_LIMIT
    && s.popped == s.accepted[..|s.popped|]
    && forall i :: |s.popped| <= i < |s.accepted| ==> s.queue[i % CAPACITY] == s.accepted[i]
  }

  predicate ProducerHolds(s: State) {
    match s.producer
    case PushIdle => true
    case PushStarted(_) => true
    case PushHasWrite(_, write) => write == s.write
    case PushHasBoth(_, write, read, seen) =>
      write == s.write && read == seen % WORD_LIMIT && seen <= |s.popped| && |s.accepted| <= seen + CAPACITY
    case PushStored(c, write) =>
      && write == s.write && |s.accepted| < |s.popped| + CAPACITY && |s.queue| == CAPACITY
      && s.queue[|s.accepted| % CAPACITY] == c
  }

  predicate ConsumerHolds(s: State) {
    match s.consumer
    case PopIdle => true
    case PopStarted => true
    case PopHasRead(read) => read == s.read
    case PopHasBoth(read, write, seen) =>
      read == s.read && write == seen % WORD_LIMIT && |s.popped| <= seen <= |s.accepted|
    case PopHasChar(read, c) =>
      read == s.read && |s.popped| < |s.accepted| && c == s.accepted[|s.popped|]
  }

  predicate Inv(s: State) {
    QueueHolds(s) && ProducerHolds(s) && ConsumerHolds(s)
  }

  lemma StoreKeepsUnread(s: State, c: char)
    requires QueueHolds(s) && |s.accepted| < |s.popped| + CAPACITY
    ensures QueueHolds(s.(queue := s.queue[|s.accepted| % CAPACITY := c]))
  {
    forall i | |s.popped| <= i < |s.accepted| ensures i % CAPACITY != |s.accepted| % CAPACITY {
      SlotsDiffer(i, |s.accepted|);
    }
  }

  lemma ProducerKeepsInv(s: State)
    requires Inv(s)
    ensures Inv(StepProducer(s))
  {
    match s.producer
    case PushIdle =>
    case PushStarted(_) =>
    case PushHasWrite(_, _) =>
    case PushHasBoth(c, write, read, seen) =>
      WrappedDifference(|s.accepted|, seen);
      WrappedSlot(|s.accepted|);
      if |s.accepted| < seen + CAPACITY {
        StoreKeepsUnread(s, c);
      }
    case PushStored(c, write) =>
      WrappedSuccessor(|s.accepted|);
  }

  lemma ConsumerKeepsInv(s: State)
    requires Inv(s)
    ensures Inv(StepConsumer(s))
  {
    match s.consumer
    case PopIdle =>
    case PopStarted =>
    case PopHasRead(_) =>
    case PopHasBoth(read, write, seen) =>
      EmptyIffEqual(seen, |s.popped|);
      WrappedSlot(|s.popped|);
    case PopHasChar(read, c) =>
      WrappedSuccessor(|s.popped|);
      assert s.accepted[..|s.popped| + 1] == s.popped + [c];
  }

  lemma StepKeepsInv(s: State, a: Action)
    requires Inv(s)
    ensures Inv(Step(s, a))
  {
    match a
    case Press(c) =>
    case ProducerStep => ProducerKeepsInv(s);
    case CallPop =>
    case ConsumerStep => ConsumerKeepsInv(s);
  }

  // ----- every interleaving -----

  function Run(s: State, actions: seq<Action>): State
    requires Inv(s)
    decreases |actions|
  {
    if actions == [] then s
    else
      StepKeepsInv(s, actions[0]);
      Run(Step(s, actions[0]), actions[1..])
  }

  /** Under every interleaving, through any number of wrap-arounds, the characters handed out are
      a prefix of those accepted: none lost, repeated, reordered or overwritten while unread. */
  lemma {:induction false} PoppedIsPrefixOfAccepted(s: State, actions: seq<Action>)
    requires Inv(s)
    ensures var t := Run(s, actions);
            && Inv(t)
            && t.popped <= t.accepted
            && |t.accepted| <= |t.popped| + CAPACITY
            && s.accepted <= t.accepted && s.popped <= t.popped
    decreases |actions|
  {
    if actions != [] {
      StepKeepsInv(s, actions[0]);
      PoppedIsPrefixOfAccepted(Step(s, actions[0]), actions[1..]);
    }
  }

  lemma InitialIsInv(s: State)
    requires Initial(s)
    ensures Inv(s)
  {
  }

  /** From keyboard_init on, in particular. */
  lemma PoppedIsPrefixFromTheStart(s: State, actions: seq<Action>)
    requires Initial(s)
    ensures Inv(s) && Run(s, actions).popped <= Run(s, actions).accepted
  {
    InitialIsInv(s);
    PoppedIsPrefixOfAccepted(s, actions);
  }

  // ----- refinement of an atomic bounded queue -----

  function Pending(s: State): seq<char>
    requires |s.popped| <= |s.accepted|
  {
    s.accepted[|s.popped|..]
  }

  /** Each step is one atomic queue operation or none: a publication appends to a queue that is
      not full, a commit of a pop takes the head. */
  lemma StepRefinesQueue(s: State, a: Action)
    requires Inv(s)
    ensures Inv(Step(s, a))
    ensures var s' := Step(s, a);
            if a == ProducerStep && s.producer.PushStored? then
              |Pending(s)| < CAPACITY && Pending(s') == Pending(s) + [s.producer.c]
            else if a == ConsumerStep && s.consumer.PopHasChar? then
              Pending(s) == [s.consumer.c] + Pending(s')
            else Pending(s') == Pending(s)
  {
    StepKeepsInv(s, a);
  }

  /** A character is dropped only when 64 were unread at the moment read_sequence was loaded, and
      a pop reports an empty queue only when none was waiting when write_sequence was loaded. */
  lemma RefusalsAreJustified(s: State)
    requires Inv(s)
    ensures s.producer.PushHasBoth? && StepProducer(s).producer == PushIdle ==>
            |s.accepted| - s.producer.seen == CAPACITY
    ensures s.producer.PushHasWrite? ==> StepProducer(s).producer.seen == |s.popped|
    ensures s.consumer.PopHasBoth? && StepConsumer(s).consumer == PopIdle ==> s.consumer.seen == |s.popped|
    ensures s.consumer.PopHasRead? ==> StepConsumer(s).consumer.seen == |s.accepted|
  {
    match s.producer {
      case PushHasBoth(c, write, read, seen) => WrappedDifference(|s.accepted|, seen);
      case _ =>
    }
    match s.consumer {
      case PopHasBoth(read, write, seen) => EmptyIffEqual(seen, |s.popped|);
      case _ =>
    }
  }

  /** An interrupt runs queue_push to completion: five producer steps in a row are the atomic
      push, whatever point the consumer was interrupted at. */
  lemma InterruptIsAtomicPush(s: State, c: char)
    requires Inv(s) && s.producer == PushIdle
    ensures var s5 := Run(s, [Press(c), ProducerStep, ProducerStep, ProducerStep, ProducerStep]);
            && s5.producer == PushIdle && s5.consumer == s.consumer && s5.popped == s.popped
            && s5.accepted == (if |Pending(s)| < CAPACITY then s.accepted + [c] else s.accepted)
            && s5.dropped == (if |Pending(s)| < CAPACITY then s.dropped else Add32(s.dropped, 1))
  {
    var s1 := Step(s, Press(c));
    var s2 := StepProducer(s1);
    var s3 := StepProducer(s2);
    var s4 := StepProducer(s3);
    WrappedDifference(|s.accepted|, |s.popped|);
    StepKeepsInv(s, Press(c));
    ProducerKeepsInv(s1);
    ProducerKeepsInv(s2);
    ProducerKeepsInv(s3);
    ProducerKeepsInv(s4);
    RunFive(s, Press(c), ProducerStep, ProducerStep, ProducerStep, ProducerStep);
  }

  lemma RunFive(s: State, a: Action, b: Action, c: Action, d: Action, e: Action)
    requires Inv(s)
    ensures var s1 := Step(s, a);
            Inv(s1) && Inv(Step(s1, b)) && Inv(Step(Step(s1, b), c)) && Inv(Step(Step(Step(s1, b), c), d))
    ensures Run(s, [a, b, c, d, e]) == Step(Step(Step(Step(Step(s, a), b), c), d), e)
  {
    StepKeepsInv(s, a);
    var s1 := Step(s, a);
    StepKeepsInv(s1, b);
    var s2 := Step(s1, b);
    StepKeepsInv(s2, c);
    var s3 := Step(s2, c);
    StepKeepsInv(s3, d);
    var s4 := Step(s3, d);
    StepKeepsInv(s4, e);
    assert [a, b, c, d, e][1..] == [b, c, d, e];
    assert [b, c, d, e][1..] == [c, d, e];
    assert [c, d, e][1..] == [d, e];
    assert [d, e][1..] == [e];
    assert [e][1..] == [];
    assert Run(s4, [e]) == Run(Step(s4, e), []);
    assert Run(s3, [d, e]) == Run(s4, [e]);
    assert Run(s2, [c, d, e]) == Run(s3, [d, e]);
    assert Run(s1, [b, c, d, e]) == Run(s2, [c, d, e]);
  }
}
