/** kernel/kernel.c, the loop kernel_main ends in: characters popped from the keyboard queue go to the
    shell, while IRQ1 may push at any load or store. */
module MainLoop {
  import opened Words
  import opened Keyboard
  import opened KeyboardInterleaving
  import opened Shell
  import opened ShellRuns
  import opened RamFs
  import opened LineEditor

  /** Where the loop is: at hlt, inside keyboard_pop_char, or handing a character to the shell. */
  datatype Loop = Halted | Popping | Handling(c: char)

  /** The queue, the loop, the shell; pressed are the characters decoded so far, and fates says of
      each whose push is over whether it was accepted. */
  datatype System = System(
    keys: KeyboardInterleaving.State,
    loop: Loop,
    shell: Shell.State,
    pressed: seq<char>,
    fates: seq<bool>)

  datatype Event = KeyDecoded(c: char) | InterruptStep | LoopStep

  function Decoded(x: System, c: char): System
    requires |x.keys.queue| == CAPACITY
  {
    if x.keys.producer != PushIdle then x
    else x.(keys := KeyboardInterleaving.Step(x.keys, Press(c)), pressed := x.pressed + [c])
  }

  /** One load or store of queue_push; the last one decides the character's fate. */
  function Interrupted(x: System): System
    requires |x.keys.queue| == CAPACITY
  {
    var keys := StepProducer(x.keys);
    var over := x.keys.producer != PushIdle && keys.producer == PushIdle;
    x.(keys := keys, fates := if over then x.fates + [x.keys.producer.PushStored?] else x.fates)
  }

  ghost function Looped(x: System): System
    requires |x.keys.queue| == CAPACITY
  {
    match x.loop
    case Halted => x.(keys := KeyboardInterleaving.Step(x.keys, CallPop), loop := Popping)
    case Popping =>
      var keys := StepConsumer(x.keys);
      x.(keys := keys,
         loop := if x.keys.consumer.PopHasChar? then Handling(x.keys.consumer.c)
                 else if keys.consumer == PopIdle then Halted else Popping)
    case Handling(c) =>
      x.(shell := OnChar(x.shell, c), keys := KeyboardInterleaving.Step(x.keys, CallPop), loop := Popping)
  }

  ghost function Next(x: System, e: Event): System
    requires |x.keys.queue| == CAPACITY
  {
    match e
    case KeyDecoded(c) => Decoded(x, c)
    case InterruptStep => Interrupted(x)
    case LoopStep => Looped(x)
  }

  // ----- the invariant -----

  /** The characters the shell has been given: all that were popped but the one in hand. */
  function Handled(x: System): seq<char> {
    if x.loop.Handling? && x.keys.popped != [] then x.keys.popped[..|x.keys.popped| - 1] else x.keys.popped
  }

  ghost predicate LoopHolds(x: System) {
    && (x.keys.consumer == PopIdle <==> x.loop != Popping)
    && (x.loop.Handling? ==> x.keys.popped != [] && x.keys.popped[|x.keys.popped| - 1] == x.loop.c)
    && x.shell == OnChars(FRESH, Handled(x))
  }

  /** The pressed characters whose fate was to be accepted. */
  function Kept(pressed: seq<char>, fates: seq<bool>): seq<char>
    requires |fates| <= |pressed|
  {
    if fates == [] then [] else
      var n := |fates| - 1;
      Kept(pressed, fates[..n]) + if fates[n] then [pressed[n]] else []
  }

  function Lost(fates: seq<bool>): nat {
    if fates == [] then 0 else Lost(fates[..|fates| - 1]) + if fates[|fates| - 1] then 0 else 1
  }

  /** The character of a push in progress. */
  function InFlight(p: Producer): seq<char> {
    if p == PushIdle then [] else [p.c]
  }

  ghost predicate KeysHold(x: System) {
    && |x.fates| + |InFlight(x.keys.producer)| == |x.pressed|
    && x.pressed[|x.fates|..] == InFlight(x.keys.producer)
    && x.keys.accepted == Kept(x.pressed, x.fates) && x.keys.dropped == Lost(x.fates) % WORD_LIMIT
  }

  ghost predicate SystemInv(x: System) {
    KeyboardInterleaving.Inv(x.keys) && LoopHolds(x) && KeysHold(x)
  }

  lemma {:induction false} KeptIgnoresTheRest(pressed: seq<char>, more: seq<char>, fates: seq<bool>)
    requires |fates| <= |pressed|
    ensures Kept(pressed + more, fates) == Kept(pressed, fates)
  {
    if fates != [] {
      KeptIgnoresTheRest(pressed, more, fates[..|fates| - 1]);
    }
  }

  lemma DecodedKeepsInv(x: System, c: char)
    requires SystemInv(x)
    ensures SystemInv(Decoded(x, c))
  {
    StepKeepsInv(x.keys, Press(c));
    KeptIgnoresTheRest(x.pressed, [c], x.fates);
  }

  lemma InterruptedKeepsInv(x: System)
    requires SystemInv(x)
    ensures SystemInv(Interrupted(x))
  {
    ProducerKeepsInv(x.keys);
    InterruptedKeepsLoop(x);
    InterruptedKeepsKeys(x);
  }

  lemma InterruptedKeepsLoop(x: System)
    requires |x.keys.queue| == CAPACITY && LoopHolds(x)
    ensures LoopHolds(Interrupted(x))
  {
    ProducerLeavesTheConsumer(x.keys);
  }

  lemma ProducerLeavesTheConsumer(s: KeyboardInterleaving.State)
    requires |s.queue| == CAPACITY
    ensures StepProducer(s).consumer == s.consumer && StepProducer(s).popped == s.popped
  {
  }

  lemma InterruptedKeepsKeys(x: System)
    requires KeyboardInterleaving.Inv(x.keys) && KeysHold(x)
    ensures KeysHold(Interrupted(x))
  {
    var p := x.keys.producer;
    if p.PushStored? {
      FateDecided(x.pressed, x.fates, p.c, true);
    } else if p.PushHasBoth? {
      FateDecided(x.pressed, x.fates, p.c, false);
    }
  }

  /** The end of a push: its character is the last one pressed. */
  lemma FateDecided(pressed: seq<char>, fates: seq<bool>, c: char, fate: bool)
    requires |fates| <= |pressed| && pressed[|fates|..] == [c]
    ensures |fates + [fate]| == |pressed| && pressed[|fates + [fate]|..] == []
    ensures Kept(pressed, fates + [fate]) == Kept(pressed, fates) + if fate then [c] else []
    ensures Lost(fates + [fate]) == Lost(fates) + if fate then 0 else 1
    ensures Lost(fates + [false]) % WORD_LIMIT == Add32(Lost(fates) % WORD_LIMIT, 1)
  {
    assert (fates + [fate])[..|fates|] == fates && (fates + [false])[..|fates|] == fates;
    assert pressed[|fates|] == pressed[|fates|..][0];
    WrappedSuccessor(Lost(fates));
  }

  lemma LoopedKeepsInv(x: System)
    requires SystemInv(x)
    ensures SystemInv(Looped(x))
  {
    match x.loop
    case Halted => StepKeepsInv(x.keys, CallPop);
    case Popping => ConsumerKeepsInv(x.keys);
    case Handling(c) => StepKeepsInv(x.keys, CallPop);
  }

  lemma NextKeepsInv(x: System, e: Event)
    requires SystemInv(x)
    ensures SystemInv(Next(x, e))
  {
    match e
    case KeyDecoded(c) => DecodedKeepsInv(x, c);
    case InterruptStep => InterruptedKeepsInv(x);
    case LoopStep => LoopedKeepsInv(x);
  }

  // ----- every run -----

  ghost predicate IsRun(xs: seq<System>, es: seq<Event>) {
    && |xs| == |es| + 1 && Start(xs[0])
    && forall k {:trigger es[k]} :: 0 <= k < |es| ==> SystemInv(xs[k]) ==> xs[k + 1] == Next(xs[k], es[k])
  }

  /** keyboard_init, shell_runtime_init and shell_runtime_start are over. */
  ghost predicate Start(x: System) {
    && Initial(x.keys) && x.keys.dropped == 0 && x.loop == Halted && x.shell == FRESH
    && x.pressed == [] && x.fates == []
  }

  lemma {:induction false} RunKeepsInv(xs: seq<System>, es: seq<Event>, k: nat)
    requires IsRun(xs, es) && k < |xs|
    ensures SystemInv(xs[k])
  {
    if k == 0 {
      InitialIsInv(xs[0].keys);
    } else {
      RunKeepsInv(xs, es, k - 1);
      NextKeepsInv(xs[k - 1], es[k - 1]);
      assert xs[k - 1 + 1] == Next(xs[k - 1], es[k - 1]);
    }
  }

  /** For every interleaving of IRQ1 with the loop: the shell is the interpreter run over the
      characters handed to it, these are a prefix of the accepted ones, and the accepted ones are
      the keys pressed without the counted drops, in order. */
  lemma ShellFollowsTheKeys(xs: seq<System>, es: seq<Event>, k: nat)
    requires IsRun(xs, es) && k < |xs|
    ensures var x := xs[k];
            && x.shell == OnChars(FRESH, Handled(x)) && Handled(x) <= x.keys.popped <= x.keys.accepted
            && |x.fates| <= |x.pressed| && x.keys.accepted == Kept(x.pressed, x.fates)
            && x.keys.dropped == Lost(x.fates) % WORD_LIMIT
            && LineOk(x.shell.text) && FilesOk(x.shell.files)
  {
    RunKeepsInv(xs, es, k);
    StreamKeepsOk(Handled(xs[k]));
  }

  lemma {:induction false} NothingLost(pressed: seq<char>, fates: seq<bool>)
    requires |fates| <= |pressed| && Lost(fates) == 0
    ensures Kept(pressed, fates) == pressed[..|fates|]
  {
    if fates != [] {
      var n := |fates| - 1;
      NothingLost(pressed, fates[..n]);
      assert pressed[..n + 1] == pressed[..n] + [pressed[n]];
    }
  }

  /** Once the queue is drained and no push is in progress, a run without drops has typed exactly
      the keys pressed into the shell. */
  lemma DrainedWithoutDrops(xs: seq<System>, es: seq<Event>, k: nat)
    requires IsRun(xs, es) && k < |xs|
    requires xs[k].loop == Halted && xs[k].keys.producer == PushIdle && Lost(xs[k].fates) == 0
    requires |xs[k].keys.popped| == |xs[k].keys.accepted|
    ensures xs[k].shell == OnChars(FRESH, xs[k].pressed)
  {
    RunKeepsInv(xs, es, k);
    var x := xs[k];
    NothingLost(x.pressed, x.fates);
    assert x.pressed == x.pressed[..|x.fates|];
  }
}
