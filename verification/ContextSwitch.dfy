/** boot/context_switch.S and the stack handling of kernel/task/task.c: what is in the stacks and
    registers when the scheduler moves the CPU from one context to another. */
module ContextSwitch {
  import opened Words
  import opened Bits
  import opened Scheduler

  /** Memory as 32-bit words at 4-byte aligned addresses. */
  type Memory = map<nat, word>

  function Read(m: Memory, a: nat): word {
    if a in m then m[a] else 0
  }

  function Store(m: Memory, a: nat, v: word): Memory {
    m[a := v]
  }

  datatype Regs = Regs(esp: nat, ebp: word, ebx: word, esi: word, edi: word, eflags: word, eip: word)

  // ----- the assembly routine -----

  datatype Register = Eax | Ebp | Ebx | Esi | Edi | Esp

  /** The instructions the routine and its call site use; displacements are from ESP. */
  datatype Instr =
    | Load(disp: nat, dst: Register)   // movl disp(%esp), dst
    | StoreEsp                         // movl %esp, (%eax)
    | Push(src: Register)
    | PushValue(value: word)
    | Pop(dst: Register)
    | PopFlags
    | Ret

  datatype Cpu = Cpu(m: Memory, eax: word, r: Regs)

  function Get(c: Cpu, x: Register): nat {
    match x
    case Eax => c.eax
    case Ebp => c.r.ebp
    case Ebx => c.r.ebx
    case Esi => c.r.esi
    case Edi => c.r.edi
    case Esp => c.r.esp
  }

  function Set(c: Cpu, x: Register, v: word): Cpu {
    match x
    case Eax => c.(eax := v)
    case Ebp => c.(r := c.r.(ebp := v))
    case Ebx => c.(r := c.r.(ebx := v))
    case Esi => c.(r := c.r.(esi := v))
    case Edi => c.(r := c.r.(edi := v))
    case Esp => c.(r := c.r.(esp := v))
  }

  function PushWord(c: Cpu, v: nat): Cpu {
    var esp := if c.r.esp >= 4 then c.r.esp - 4 else c.r.esp + WORD_LIMIT - 4;
    c.(m := Store(c.m, esp, v % WORD_LIMIT), r := c.r.(esp := esp))
  }

  function Step(i: Instr, c: Cpu): Cpu {
    var top := Read(c.m, c.r.esp);
    var popped := c.(r := c.r.(esp := c.r.esp + 4));
    match i
    case Load(disp, dst) => Set(c, dst, Read(c.m, c.r.esp + disp))
    case StoreEsp => c.(m := Store(c.m, c.eax, c.r.esp % WORD_LIMIT))
    case Push(src) => PushWord(c, Get(c, src))
    case PushValue(v) => PushWord(c, v)
    case Pop(dst) => Set(popped, dst, top)
    case PopFlags => popped.(r := popped.r.(eflags := top))
    case Ret => popped.(r := popped.r.(eip := top))
  }

  function Exec(p: seq<Instr>, c: Cpu): Cpu
    decreases |p|
  {
    if p == [] then c else Exec(p[1..], Step(p[0], c))
  }

  /** task_context_switch(old_sp, new_sp, old_eflags), in its three parts. */
  const SAVE: seq<Instr> := [Load(12, Eax), Push(Eax), Push(Ebp), Push(Ebx), Push(Esi), Push(Edi)]
  const SWAP: seq<Instr> := [Load(24, Eax), StoreEsp, Load(28, Esp)]
  const RESTORE: seq<Instr> := [Pop(Edi), Pop(Esi), Pop(Ebx), Pop(Ebp), PopFlags, Ret]

  /** The call site: arguments right to left, then the return address. */
  function CallSite(slot: word, newSp: word, flags: word, ret: word): seq<Instr> {
    [PushValue(flags), PushValue(newSp), PushValue(slot), PushValue(ret)]
  }

  function SwitchCode(slot: word, newSp: word, flags: word, ret: word): seq<Instr> {
    CallSite(slot, newSp, flags, ret) + SAVE + SWAP + RESTORE
  }

  lemma {:induction false} ExecAppend(p: seq<Instr>, q: seq<Instr>, c: Cpu)
    ensures Exec(p + q, c) == Exec(q, Exec(p, c))
  {
    if p == [] {
      assert p + q == q;
    } else {
      assert (p + q)[1..] == p[1..] + q;
      ExecAppend(p[1..], q, Step(p[0], c));
    }
  }

  lemma ExecFour(p: seq<Instr>, q: seq<Instr>, u: seq<Instr>, v: seq<Instr>, c: Cpu)
    ensures Exec(p + q + u + v, c) == Exec(v, Exec(u, Exec(q, Exec(p, c))))
  {
    ExecAppend(p + q + u, v, c);
    ExecAppend(p + q, u, c);
    ExecAppend(p, q, c);
  }

  /** The register state popped from a frame: EDI, ESI, EBX, EBP, EFLAGS, return address. */
  function Frame(m: Memory, sp: nat): Regs {
    Regs(sp + 24, Read(m, sp + 12), Read(m, sp + 8), Read(m, sp + 4), Read(m, sp), Read(m, sp + 16), Read(m, sp + 20))
  }

  lemma ExecTwo(i: Instr, j: Instr, c: Cpu)
    ensures Exec([i, j], c) == Step(j, Step(i, c))
  {
    assert [i, j][1..] == [j];
    assert [j][1..] == [];
    assert Exec([j], Step(i, c)) == Exec([], Step(j, Step(i, c)));
  }

  lemma ExecThree(i: Instr, j: Instr, k: Instr, c: Cpu)
    ensures Exec([i, j, k], c) == Step(k, Step(j, Step(i, c)))
  {
    assert [i, j, k][1..] == [j, k];
    ExecTwo(j, k, Step(i, c));
  }

  lemma RestoreHead(c: Cpu)
    ensures var d := Step(Pop(Ebx), Step(Pop(Esi), Step(Pop(Edi), c)));
            && d.m == c.m
            && d.r == c.r.(esp := c.r.esp + 12, edi := Read(c.m, c.r.esp), esi := Read(c.m, c.r.esp + 4),
                ebx := Read(c.m, c.r.esp + 8))
  {
  }

  lemma RestoreTail(c: Cpu)
    ensures var d := Step(Ret, Step(PopFlags, Step(Pop(Ebp), c)));
            && d.m == c.m
            && d.r == c.r.(esp := c.r.esp + 12, ebp := Read(c.m, c.r.esp), eflags := Read(c.m, c.r.esp + 4),
                eip := Read(c.m, c.r.esp + 8))
  {
  }

  lemma RestorePopsFrame(c: Cpu)
    ensures Exec(RESTORE, c).r == Frame(c.m, c.r.esp) && Exec(RESTORE, c).m == c.m
  {
    var head, tail := [Pop(Edi), Pop(Esi), Pop(Ebx)], [Pop(Ebp), PopFlags, Ret];
    assert RESTORE == head + tail;
    ExecAppend(head, tail, c);
    ExecThree(Pop(Edi), Pop(Esi), Pop(Ebx), c);
    ExecThree(Pop(Ebp), PopFlags, Ret, Exec(head, c));
    RestoreHead(c);
    RestoreTail(Exec(head, c));
  }

  /** The five words below the old ESP and the return address form a frame. */
  ghost predicate FramePushed(c: Cpu, d: Cpu) {
    && c.r.esp >= 20
    && d.r == c.r.(esp := c.r.esp - 20)
    && Frame(d.m, c.r.esp - 20)
       == Regs(c.r.esp + 4, c.r.ebp, c.r.ebx, c.r.esi, c.r.edi, Read(c.m, c.r.esp + 12), Read(c.m, c.r.esp))
    && forall a: nat :: !(c.r.esp - 20 <= a < c.r.esp) ==> Read(d.m, a) == Read(c.m, a)
  }

  ghost predicate FlagsPushed(c: Cpu, d: Cpu) {
    && c.r.esp >= 8
    && d.r == c.r.(esp := c.r.esp - 8)
    && Read(d.m, c.r.esp - 4) == Read(c.m, c.r.esp + 12) && Read(d.m, c.r.esp - 8) == c.r.ebp
    && forall a: nat :: !(c.r.esp - 8 <= a < c.r.esp) ==> Read(d.m, a) == Read(c.m, a)
  }

  ghost predicate RegistersPushed(c: Cpu, d: Cpu) {
    && c.r.esp >= 12
    && d.r == c.r.(esp := c.r.esp - 12)
    && Read(d.m, c.r.esp - 4) == c.r.ebx && Read(d.m, c.r.esp - 8) == c.r.esi && Read(d.m, c.r.esp - 12) == c.r.edi
    && forall a: nat :: !(c.r.esp - 12 <= a < c.r.esp) ==> Read(d.m, a) == Read(c.m, a)
  }

  lemma FlagsSteps(c: Cpu)
    requires 8 <= c.r.esp < WORD_LIMIT
    ensures FlagsPushed(c, Step(Push(Ebp), Step(Push(Eax), Step(Load(12, Eax), c))))
  {
  }

  lemma RegistersSteps(c: Cpu)
    requires 12 <= c.r.esp < WORD_LIMIT
    ensures RegistersPushed(c, Step(Push(Edi), Step(Push(Esi), Step(Push(Ebx), c))))
  {
  }

  lemma PushesMakeFrame(c: Cpu, d: Cpu, e: Cpu)
    requires c.r.esp >= 20 && FlagsPushed(c, d) && RegistersPushed(d, e)
    ensures FramePushed(c, e)
  {
  }

  lemma SavePushesFrame(c: Cpu)
    requires 20 <= c.r.esp < WORD_LIMIT
    ensures FramePushed(c, Exec(SAVE, c))
  {
    var head, tail := [Load(12, Eax), Push(Eax), Push(Ebp)], [Push(Ebx), Push(Esi), Push(Edi)];
    assert SAVE == head + tail;
    ExecAppend(head, tail, c);
    ExecThree(Load(12, Eax), Push(Eax), Push(Ebp), c);
    FlagsSteps(c);
    ExecThree(Push(Ebx), Push(Esi), Push(Edi), Exec(head, c));
    RegistersSteps(Exec(head, c));
    PushesMakeFrame(c, Exec(head, c), Exec(tail, Exec(head, c)));
  }

  ghost predicate ArgumentsPushed(c: Cpu, d: Cpu, slot: word, newSp: word, flags: word, ret: word) {
    && c.r.esp >= 16
    && d.r == c.r.(esp := c.r.esp - 16)
    && Read(d.m, c.r.esp - 16) == ret && Read(d.m, c.r.esp - 12) == slot
    && Read(d.m, c.r.esp - 8) == newSp && Read(d.m, c.r.esp - 4) == flags
    && forall a: nat :: !(c.r.esp - 16 <= a < c.r.esp) ==> Read(d.m, a) == Read(c.m, a)
  }

  lemma CallSiteSteps(c: Cpu, slot: word, newSp: word, flags: word, ret: word)
    requires 16 <= c.r.esp < WORD_LIMIT
    ensures var d := Step(PushValue(ret), Step(PushValue(slot), Step(PushValue(newSp), Step(PushValue(flags), c))));
            ArgumentsPushed(c, d, slot, newSp, flags, ret)
  {
  }

  lemma CallSitePushes(c: Cpu, slot: word, newSp: word, flags: word, ret: word)
    requires 16 <= c.r.esp < WORD_LIMIT
    ensures ArgumentsPushed(c, Exec(CallSite(slot, newSp, flags, ret), c), slot, newSp, flags, ret)
  {
    var head, tail := [PushValue(flags), PushValue(newSp)], [PushValue(slot), PushValue(ret)];
    assert CallSite(slot, newSp, flags, ret) == head + tail;
    ExecAppend(head, tail, c);
    ExecTwo(PushValue(flags), PushValue(newSp), c);
    ExecTwo(PushValue(slot), PushValue(ret), Exec(head, c));
    CallSiteSteps(c, slot, newSp, flags, ret);
  }

  ghost predicate StacksSwapped(c: Cpu, d: Cpu) {
    var slot, newSp := Read(c.m, c.r.esp + 24), Read(c.m, c.r.esp + 28);
    && d.r == c.r.(esp := newSp) && Read(d.m, slot) == c.r.esp
    && forall a: nat :: a != slot ==> Read(d.m, a) == Read(c.m, a)
  }

  lemma SwapSteps(c: Cpu)
    requires c.r.esp < WORD_LIMIT && Read(c.m, c.r.esp + 24) != c.r.esp + 28
    ensures StacksSwapped(c, Step(Load(28, Esp), Step(StoreEsp, Step(Load(24, Eax), c))))
  {
  }

  lemma SwapMovesStacks(c: Cpu)
    requires c.r.esp < WORD_LIMIT && Read(c.m, c.r.esp + 24) != c.r.esp + 28
    ensures StacksSwapped(c, Exec(SWAP, c))
  {
    ExecThree(Load(24, Eax), StoreEsp, Load(28, Esp), c);
    SwapSteps(c);
  }

  lemma SameFrame(m: Memory, m': Memory, sp: nat)
    requires forall a: nat :: sp <= a < sp + 24 ==> Read(m', a) == Read(m, a)
    ensures Frame(m', sp) == Frame(m, sp)
  {
  }

  /** Where the caller continues: after the call, with its own callee-saved registers. */
  function Continuation(r: Regs, flags: word, ret: word): Regs
    requires r.esp >= 12
  {
    r.(esp := r.esp - 12, eflags := flags, eip := ret)
  }

  /** What a switch does: the frame of the target becomes the register state, the caller's
      continuation becomes the frame its slot points to, and nothing else in memory changes. */
  ghost predicate Exchanged(m: Memory, r: Regs, slot: word, newSp: word, flags: word, ret: word, m': Memory, r': Regs)
    requires r.esp >= 36
  {
    && r' == Frame(m, newSp)
    && Read(m', slot) == r.esp - 36
    && Frame(m', r.esp - 36) == Continuation(r, flags, ret)
    && forall a: nat :: !(r.esp - 36 <= a < r.esp) && a != slot ==> Read(m', a) == Read(m, a)
  }

  /** The four phases of a switch, put together. */
  lemma PhasesExchangeFrames(c0: Cpu, c1: Cpu, c2: Cpu, c3: Cpu, c4: Cpu, slot: word, newSp: word, flags: word,
                             ret: word)
    requires 36 <= c0.r.esp < WORD_LIMIT
    requires !(c0.r.esp - 36 <= slot < c0.r.esp) && !(newSp <= slot < newSp + 24)
    requires newSp + 24 <= c0.r.esp - 36 || c0.r.esp <= newSp
    requires ArgumentsPushed(c0, c1, slot, newSp, flags, ret) && FramePushed(c1, c2) && StacksSwapped(c2, c3)
    requires c4.m == c3.m && c4.r == Frame(c3.m, c3.r.esp)
    ensures Exchanged(c0.m, c0.r, slot, newSp, flags, ret, c4.m, c4.r)
  {
    var esp := c0.r.esp;
    assert Read(c2.m, esp - 36 + 24) == slot && Read(c2.m, esp - 36 + 28) == newSp;
    assert Read(c1.m, esp - 16 + 12) == flags;
    SameFrame(c2.m, c3.m, esp - 36);
    SameFrame(c0.m, c3.m, newSp);
  }

  lemma SlotArgument(c0: Cpu, c1: Cpu, c2: Cpu, slot: word, newSp: word, flags: word, ret: word)
    requires c0.r.esp >= 36 && !(c0.r.esp - 36 <= slot < c0.r.esp)
    requires ArgumentsPushed(c0, c1, slot, newSp, flags, ret) && FramePushed(c1, c2)
    ensures Read(c2.m, c2.r.esp + 24) == slot && slot != c2.r.esp + 28
  {
    assert Read(c2.m, c0.r.esp - 12) == Read(c1.m, c0.r.esp - 12);
  }

  /** The code of the switch, executed, exchanges the two frames. */
  lemma SwitchExchangesFrames(m: Memory, r: Regs, slot: word, newSp: word, flags: word, ret: word)
    requires 36 <= r.esp < WORD_LIMIT
    requires !(r.esp - 36 <= slot < r.esp) && !(newSp <= slot < newSp + 24)
    requires newSp + 24 <= r.esp - 36 || r.esp <= newSp
    ensures var c := Exec(SwitchCode(slot, newSp, flags, ret), Cpu(m, 0, r));
            Exchanged(m, r, slot, newSp, flags, ret, c.m, c.r)
  {
    var c0 := Cpu(m, 0, r);
    var call := CallSite(slot, newSp, flags, ret);
    CallSitePushes(c0, slot, newSp, flags, ret);
    var c1 := Exec(call, c0);
    SavePushesFrame(c1);
    var c2 := Exec(SAVE, c1);
    SlotArgument(c0, c1, c2, slot, newSp, flags, ret);
    SwapMovesStacks(c2);
    var c3 := Exec(SWAP, c2);
    RestorePopsFrame(c3);
    var c4 := Exec(RESTORE, c3);
    PhasesExchangeFrames(c0, c1, c2, c3, c4, slot, newSp, flags, ret);
    ExecFour(call, SAVE, SWAP, RESTORE, c0);
  }

  // ----- flags -----

  const INTERRUPT_FLAG: nat := 9

  function Cli(flags: word): word {
    WordWidthKept(flags, INTERRUPT_FLAG);
    ClearBit(flags, INTERRUPT_FLAG)
  }

  function Sti(flags: word): word {
    WordWidthKept(flags, INTERRUPT_FLAG);
    SetBit(flags, INTERRUPT_FLAG)
  }

  /** interrupt_state_restore(saved) with the given current flags. */
  function RestoreInterrupts(flags: word, saved: word): word {
    if Bit(saved, INTERRUPT_FLAG) then Sti(flags) else Cli(flags)
  }

  /** A scheduler call that does not switch leaves EFLAGS as it found them. */
  lemma RestoreUndoesCli(flags: word)
    ensures RestoreInterrupts(Cli(flags), flags) == flags
  {
    ClearThenRestore(flags, INTERRUPT_FLAG);
  }

  function ClearFlag(flags: word, k: nat): word
    requires k < 32
  {
    WordWidthKept(flags, k);
    ClearBit(flags, k)
  }

  /** initial_task_eflags: bit 1 set; trap, direction, nested task and virtual-8086 cleared. */
  function InitialEflags(creator: word): word {
    WordWidthKept(creator, 1);
    ClearFlag(ClearFlag(ClearFlag(ClearFlag(SetBit(creator, 1), 8), 10), 14), 17)
  }

  /** A new task inherits every other flag, the interrupt flag among them. */
  lemma CliClearsInterrupts(flags: word, j: nat)
    ensures Bit(Cli(flags), j) <==> j != 9 && Bit(flags, j)
  {
    BitOfClearBit(flags, INTERRUPT_FLAG, j);
  }

  lemma InitialEflagsBits(creator: word, j: nat)
    ensures Bit(InitialEflags(creator), j) <==>
            j == 1 || (j != 8 && j != 10 && j != 14 && j != 17 && Bit(creator, j))
  {
    WordWidthKept(creator, 1);
    var f1 := SetBit(creator, 1);
    var f2 := ClearFlag(f1, 8);
    var f3 := ClearFlag(f2, 10);
    BitOfSetBit(creator, 1, j);
    BitOfClearBit(f1, 8, j);
    BitOfClearBit(f2, 10, j);
    BitOfClearBit(f3, 14, j);
    BitOfClearBit(ClearFlag(f3, 14), 17, j);
  }

  // ----- the machine -----

  const BOOTSTRAP: nat := 8      // contexts 0..7 are tasks
  const CONTEXTS: nat := 9
  const STACK_SIZE: nat := 16384

  /** Link-time addresses: stack tops, the variables holding saved stack pointers, code. */
  datatype Layout = Layout(
    top: seq<nat>, slot: seq<word>, trampoline: word, exit: word, runReturn: word, yieldReturn: word, exitReturn: word)

  predicate InStack(l: Layout, c: nat, a: nat)
    requires c < |l.top|
  {
    a < l.top[c] <= a + STACK_SIZE
  }

  predicate ValidLayout(l: Layout) {
    && |l.top| == |l.slot| == CONTEXTS
    && (forall c :: 0 <= c < CONTEXTS ==> STACK_SIZE <= l.top[c] < WORD_LIMIT && l.top[c] % 16 == 0)
    && (forall c, d :: 0 <= c < CONTEXTS && 0 <= d < CONTEXTS && c != d ==>
          l.slot[c] != l.slot[d] && (l.top[c] + STACK_SIZE <= l.top[d] || l.top[d] + STACK_SIZE <= l.top[c]))
    && (forall c, d :: 0 <= c < CONTEXTS && 0 <= d < CONTEXTS ==> !InStack(l, c, l.slot[d]))
  }

  /** The whole machine; saved records, for each context, the registers it was suspended with. */
  datatype Machine = Machine(s: Sched, m: Memory, r: Regs, who: nat, saved: seq<Regs>)

  function Holder(s: Sched): nat {
    if s.running then s.current else BOOTSTRAP
  }

  /** Contexts the scheduler may still hand the CPU to. */
  predicate Resumable(s: Sched, c: nat) {
    if c == BOOTSTRAP then s.running else c < |s.tasks| && s.tasks[c] == Ready
  }

  /** The slot of context c points at the frame it was suspended with, inside its own stack. */
  ghost predicate Suspended(l: Layout, m: Memory, saved: seq<Regs>, c: nat)
    requires ValidLayout(l) && c < CONTEXTS == |saved|
  {
    var sp := Read(m, l.slot[c]);
    l.top[c] <= sp + STACK_SIZE && sp + 24 <= l.top[c] && Frame(m, sp) == saved[c]
  }

  ghost predicate Inv(l: Layout, x: Machine) {
    && ValidLayout(l)
    && Scheduler.Inv(x.s)
    && |x.saved| == CONTEXTS
    && x.who == Holder(x.s)
    && forall c :: 0 <= c < CONTEXTS && Resumable(x.s, c) ==> Suspended(l, x.m, x.saved, c)
  }

  /** The running context has room on its own stack for one scheduler call. */
  predicate HasRoom(l: Layout, x: Machine)
    requires ValidLayout(l) && x.who < CONTEXTS
  {
    l.top[x.who] + 36 <= x.r.esp + STACK_SIZE && x.r.esp <= l.top[x.who]
  }

  /** Hand the CPU to target: interrupts off, then task_context_switch. */
  function SwitchTo(l: Layout, x: Machine, s': Sched, target: nat, ret: word): Machine
    requires ValidLayout(l) && x.who < CONTEXTS && target < CONTEXTS && HasRoom(l, x)
  {
    var cpu := Exec(SwitchCode(l.slot[x.who], Read(x.m, l.slot[target]), x.r.eflags, ret),
        Cpu(x.m, 0, x.r.(eflags := Cli(x.r.eflags))));
    Machine(s', cpu.m, cpu.r, target,
            if x.who < |x.saved| then x.saved[x.who := Continuation(x.r, x.r.eflags, ret)] else x.saved)
  }

  lemma SwitchIsExchange(l: Layout, x: Machine, s': Sched, target: nat, ret: word)
    requires Inv(l, x) && HasRoom(l, x) && target < CONTEXTS && target != x.who && Suspended(l, x.m, x.saved, target)
    ensures var y := SwitchTo(l, x, s', target, ret);
            Exchanged(x.m, x.r.(eflags := Cli(x.r.eflags)), l.slot[x.who], Read(x.m, l.slot[target]), x.r.eflags, ret,
                y.m, y.r)
  {
    assert !InStack(l, x.who, l.slot[x.who]) && !InStack(l, target, l.slot[x.who]);
    assert l.top[target] + STACK_SIZE <= l.top[x.who] || l.top[x.who] + STACK_SIZE <= l.top[target];
    SwitchExchangesFrames(x.m, x.r.(eflags := Cli(x.r.eflags)), l.slot[x.who], Read(x.m, l.slot[target]), x.r.eflags,
        ret);
  }

  lemma SwitchResult(l: Layout, x: Machine, s': Sched, target: nat, ret: word) returns (y: Machine)
    requires Inv(l, x) && HasRoom(l, x) && MayHandTo(x, s', target)
    ensures y == SwitchTo(l, x, s', target, ret) && y.s == s' && y.who == target
    ensures y.saved == x.saved[x.who := Continuation(x.r, x.r.eflags, ret)]
    ensures Exchanged(x.m, x.r.(eflags := Cli(x.r.eflags)), l.slot[x.who], Read(x.m, l.slot[target]), x.r.eflags, ret,
            y.m, y.r)
  {
    SwitchIsExchange(l, x, s', target, ret);
    y := SwitchTo(l, x, s', target, ret);
  }

  /** The caller is left suspended with its own registers; only its stack and slot changed. */
  lemma ExchangeSuspends(l: Layout, x: Machine, sp: word, ret: word, m': Memory, r': Regs, saved: seq<Regs>)
    requires ValidLayout(l) && x.who < CONTEXTS == |saved| && HasRoom(l, x)
    requires Exchanged(x.m, x.r.(eflags := Cli(x.r.eflags)), l.slot[x.who], sp, x.r.eflags, ret, m', r')
    requires saved[x.who] == Continuation(x.r, x.r.eflags, ret)
    ensures r' == Frame(x.m, sp) && Suspended(l, m', saved, x.who)
    ensures forall a: nat :: !InStack(l, x.who, a) && a != l.slot[x.who] ==> Read(m', a) == Read(x.m, a)
  {
  }

  lemma FrameOutside(l: Layout, m: Memory, m': Memory, saved: seq<Regs>, c: nat, d: nat)
    requires ValidLayout(l) && c < CONTEXTS == |saved| && d < CONTEXTS && c != d && Suspended(l, m, saved, c)
    requires forall a: nat :: !InStack(l, d, a) && a != l.slot[d] ==> Read(m', a) == Read(m, a)
    ensures Suspended(l, m', saved, c)
  {
    var sp := Read(m, l.slot[c]);
    assert !InStack(l, d, l.slot[c]) && l.slot[c] != l.slot[d];
    assert !InStack(l, c, l.slot[d]);
    assert l.top[c] + STACK_SIZE <= l.top[d] || l.top[d] + STACK_SIZE <= l.top[c];
    assert Read(m', sp) == Read(m, sp) && Read(m', sp + 4) == Read(m, sp + 4) && Read(m', sp + 8) == Read(m, sp + 8);
    assert Read(m', sp + 12) == Read(m, sp + 12) && Read(m', sp + 16) == Read(m, sp + 16)
        && Read(m', sp + 20) == Read(m, sp + 20);
  }

  /** s' may follow s when the CPU goes to target: it is the holder, and every context that can
      be resumed later could be resumed before, except the one that gave the CPU away. */
  ghost predicate MayHandTo(x: Machine, s': Sched, target: nat) {
    && target == Holder(s') < CONTEXTS && target != x.who && Resumable(x.s, target) && Scheduler.Inv(s')
    && forall c :: 0 <= c < CONTEXTS && Resumable(s', c) && c != x.who ==> Resumable(x.s, c)
  }

  lemma ExchangeKeepsInv(l: Layout, x: Machine, y: Machine, ret: word)
    requires Inv(l, x) && HasRoom(l, x) && MayHandTo(x, y.s, y.who)
    requires y.saved == x.saved[x.who := Continuation(x.r, x.r.eflags, ret)]
    requires Exchanged(x.m, x.r.(eflags := Cli(x.r.eflags)), l.slot[x.who], Read(x.m, l.slot[y.who]), x.r.eflags, ret,
            y.m, y.r)
    ensures Inv(l, y) && y.r == x.saved[y.who]
  {
    ExchangeSuspends(l, x, Read(x.m, l.slot[y.who]), ret, y.m, y.r, y.saved);
    forall c | 0 <= c < CONTEXTS && Resumable(y.s, c)
      ensures Suspended(l, y.m, y.saved, c)
    {
      if c != x.who {
        FrameOutside(l, x.m, y.m, x.saved, c, x.who);
      }
    }
  }

  /** Only the nine words below esp and the variable slot may differ. */
  ghost predicate Untouched(m: Memory, m': Memory, esp: nat, slot: word) {
    forall a: nat :: !(esp - 36 <= a < esp) && a != slot ==> Read(m', a) == Read(m, a)
  }

  /** A switch to a suspended context keeps the machine consistent; the target continues with
      exactly the registers it was suspended with, and the caller is recorded with its own. */
  lemma SwitchKeepsInv(l: Layout, x: Machine, s': Sched, target: nat, ret: word)
    requires Inv(l, x) && HasRoom(l, x) && MayHandTo(x, s', target)
    ensures Inv(l, SwitchTo(l, x, s', target, ret))
    ensures SwitchTo(l, x, s', target, ret).r == x.saved[target]
    ensures SwitchTo(l, x, s', target, ret).saved == x.saved[x.who := x.r.(esp := x.r.esp - 12, eip := ret)]
    ensures Untouched(x.m, SwitchTo(l, x, s', target, ret).m, x.r.esp, l.slot[x.who])
  {
    var y := SwitchResult(l, x, s', target, ret);
    ExchangeKeepsInv(l, x, y, ret);
  }
}
