/**
 Whole schedules of context switches and task creations over any number of tasks with disjoint
 contexts and stacks.  Between two of these the running task may change its registers, its own
 stack, CR3, and any memory that is neither a context nor the stack of another task.
 */
module ContextSchedule {
  import opened ContextSwitch

  /** Where a task's saved context and its stack [low, high) lie. */
  datatype Layout = Layout(context: Word, low: Word, high: Word)

  predicate Word8(a: Word) { a % 8 == 0 }

  predicate InContext(l: Layout, a: int) { l.context <= a < l.context + CONTEXT_SIZE }

  predicate InStack(l: Layout, a: int) { l.low <= a < l.high }

  predicate Owns(l: Layout, a: int) { InContext(l, a) || InStack(l, a) }

  predicate LayoutOk(l: Layout) {
    && Word8(l.context) && Word8(l.low) && Word8(l.high)
    && l.context + CONTEXT_SIZE <= TWO64 && l.low + 8 <= l.high
    && Apart(l.context, l.context + CONTEXT_SIZE, l.low, l.high)
  }

  predicate Apart(low1: int, high1: int, low2: int, high2: int) { high1 <= low2 || high2 <= low1 }

  predicate Separate(l: Layout, k: Layout) {
    && Apart(l.context, l.context + CONTEXT_SIZE, k.context, k.context + CONTEXT_SIZE)
    && Apart(l.context, l.context + CONTEXT_SIZE, k.low, k.high)
    && Apart(l.low, l.high, k.context, k.context + CONTEXT_SIZE)
    && Apart(l.low, l.high, k.low, k.high)
  }

  /** Contexts and stacks of all tasks are pairwise disjoint. */
  ghost predicate Disjoint(tasks: map<nat, Layout>) {
    && (forall i <- tasks :: LayoutOk(tasks[i]))
    && (forall i <- tasks, j <- tasks :: i != j ==> Separate(tasks[i], tasks[j]))
  }

  /** What a parked task is entitled to: its registers, and the stack as it left it. */
  datatype Parked = Parked(state: Context, image: Memory, starting: bool)

  datatype World = World(cpu: Cpu, current: nat, parked: map<nat, Parked>)

  /** What a new task is to begin with: `frame` is the parent's system call frame, and a `userStack`
      other than 0 replaces its stack pointer. */
  datatype Birth =
    | KernelTask(entry: Word)
    | ForkedTask(trampoline: Word, fsBase: Word, frame: seq<Word>, userStack: Word)

  const FRAME_WORDS: nat := 16
  const SYSCALL_FRAME: nat := 8 * FRAME_WORDS
  const FRAME_RAX: nat := 0
  const FRAME_R11: nat := 8
  const FRAME_RSP: nat := 9

  /** The word with bit 9, the interrupt flag, set. */
  function WithInterrupts(flags: Word): Word {
    if flags / 0x200 % 2 == 1 then flags else flags + 0x200
  }

  /** The child's frame: fork answers 0 to it, with interrupts enabled. */
  function ChildFrame(frame: seq<Word>, userStack: Word): (r: seq<Word>)
    requires |frame| == FRAME_WORDS
    ensures |r| == FRAME_WORDS
  {
    frame[FRAME_RAX := 0][FRAME_R11 := WithInterrupts(frame[FRAME_R11])]
         [FRAME_RSP := if userStack != 0 then userStack else frame[FRAME_RSP]]
  }

  /** Memory holds these words from `at` on. */
  ghost predicate WordsAt(mem: Memory, at: int, words: seq<Word>) {
    && 0 <= at && at + 8 * |words| <= TWO64
    && forall k :: 0 <= k < |words| ==> Read(mem, at + 8 * k) == words[k]
  }

  /** There is room for the new task's frame, and it has been copied to the top of its stack. */
  ghost predicate FrameCopied(l: Layout, b: Birth, mem: Memory) {
    b.ForkedTask? ==>
      && |b.frame| == FRAME_WORDS && l.low + SYSCALL_FRAME < l.high
      && WordsAt(mem, l.high - SYSCALL_FRAME, ChildFrame(b.frame, b.userStack))
  }

  /** A kernel task starts at the top of its stack; a forked one below the copied system call frame. */
  function NewContext(l: Layout, b: Birth): Context {
    match b
    case KernelTask(entry) => Context(l.high, 0, 0, 0, 0, 0, 0, entry, 0x200)
    case ForkedTask(trampoline, fsBase, _, _) =>
      Context(if l.high >= SYSCALL_FRAME then l.high - SYSCALL_FRAME else 0, 0, fsBase, 0, 0, 0, 0, trampoline, 0x2)
  }

  /**
   The running task reaches a call of the routine in state `call`, asking for task `target`; or it
   creates a task, which leaves memory as `mem`.
   */
  datatype Move = Switch(call: Cpu, target: nat) | Create(task: nat, birth: Birth, mem: Memory)

  predicate Exists(w: World, i: nat) { i == w.current || i in w.parked }

  /** No context of an existing task was touched, and no stack of another one. */
  ghost predicate Untouched(tasks: map<nat, Layout>, w: World, mem: Memory) {
    forall i <- tasks, a: Word ::
      Exists(w, i) && (InContext(tasks[i], a) || (i != w.current && InStack(tasks[i], a))) ==>
      Read(mem, a) == Read(w.cpu.mem, a)
  }

  /** `tasks` has room for the new task, and its context and stack are filled in. */
  ghost predicate Creatable(tasks: map<nat, Layout>, w: World, s: Move) {
    && s.Create? && s.task in tasks && !Exists(w, s.task)
    && Untouched(tasks, w, s.mem)
    && FrameCopied(tasks[s.task], s.birth, s.mem)
    && LoadContext(s.mem, tasks[s.task].context) == NewContext(tasks[s.task], s.birth)
  }

  /** The running task touched nothing it must not, and calls with its own pointers. */
  ghost predicate Allowed(tasks: map<nat, Layout>, w: World, s: Move) {
    && s.Switch? && w.current in tasks && s.target in tasks && Exists(w, s.target)
    && s.call.rdi == tasks[w.current].context && s.call.rsi == tasks[s.target].context
    && Word8(s.call.regs.rsp) && InStack(tasks[w.current], s.call.regs.rsp)
    && Untouched(tasks, w, s.call.mem)
  }

  ghost function Next(tasks: map<nat, Layout>, w: World, s: Move): World {
    if Allowed(tasks, w, s) then
      World(Switched(s.call), s.target, w.parked[w.current := Parked(ReturnState(s.call), s.call.mem, false)])
    else if Creatable(tasks, w, s) then
      World(w.cpu.(mem := s.mem), w.current,
            w.parked[s.task := Parked(NewContext(tasks[s.task], s.birth), s.mem, true)])
    else w
  }

  ghost function Run(tasks: map<nat, Layout>, w: World, schedule: seq<Move>): World {
    if schedule == [] then w
    else Next(tasks, Run(tasks, w, schedule[..|schedule| - 1]), schedule[|schedule| - 1])
  }

  /** Memory still holds all a parked task needs. */
  ghost predicate Intact(l: Layout, p: Parked, mem: Memory) {
    && LoadContext(mem, l.context) == p.state
    && Word8(p.state.rsp) && l.low < p.state.rsp <= l.high
    && (forall a: Word :: InStack(l, a) ==> Read(mem, a) == Read(p.image, a))
    && (!p.starting ==> Read(p.image, Minus8(p.state.rsp)) == p.state.rip)
  }

  ghost predicate Inv(tasks: map<nat, Layout>, w: World) {
    && w.current in tasks
    && (forall i <- w.parked :: i != w.current ==> i in tasks && Intact(tasks[i], w.parked[i], w.cpu.mem))
  }

  /** Task `l` continues exactly where `p` says: program counter, stack pointer, callee-saved
      registers and flags, over the same stack; only a fresh task's unused slot below its
      stack pointer may differ. */
  ghost predicate ContinuesAs(l: Layout, p: Parked, c: Cpu) {
    && c.regs == p.state
    && (forall a: Word :: InStack(l, a) && !(p.starting && a == Minus8(p.state.rsp)) ==>
          Read(c.mem, a) == Read(p.image, a))
  }

  // ---- One switch ----

  /** Every allowed call meets the demands of the routine, so `Processor.SwitchContext` computes `Switched`. */
  lemma AllowedIsValid(tasks: map<nat, Layout>, w: World, s: Move)
    requires Disjoint(tasks) && Allowed(tasks, w, s)
    ensures ValidCall(s.call)
  {
  }

  /** Where each register lies in a saved context. */
  lemma ContextLayout(mem: Memory, p: Word)
    requires p + 72 <= TWO64
    ensures var k := LoadContext(mem, p);
            && k.rsp == Read(mem, p) && k.rbp == Read(mem, p + 8) && k.rbx == Read(mem, p + 16)
            && k.r12 == Read(mem, p + 24) && k.r13 == Read(mem, p + 32) && k.r14 == Read(mem, p + 40)
            && k.r15 == Read(mem, p + 48) && k.rip == Read(mem, p + 56) && k.rflags == Read(mem, p + 64)
  {
  }

  lemma StoredContext(mem: Memory, p: Word, k: Context)
    requires p + CONTEXT_SIZE <= TWO64
    ensures LoadContext(StoreContext(mem, p, k), p) == k
    ensures forall a: Word :: !(p <= a < p + CONTEXT_SIZE) ==> Read(StoreContext(mem, p, k), a) == Read(mem, a)
  {
  }

  /** Loading the new task rewrites its flags with their own value and fills the slot below its stack pointer. */
  lemma SwitchedMemory(c: Cpu, a: Word)
    requires c.rsi + CONTEXT_SIZE <= TWO64
    ensures var saved := StoreContext(c.mem, c.rdi, ReturnState(c));
            var next := LoadContext(saved, c.rsi);
            Read(Switched(c).mem, a) == if a == Minus8(next.rsp) then next.rip else Read(saved, a)
  {
  }

  /** The save half parks the caller. */
  lemma CallerParked(l: Layout, c: Cpu)
    requires LayoutOk(l) && c.rdi == l.context && Word8(c.regs.rsp) && InStack(l, c.regs.rsp)
    ensures Intact(l, Parked(ReturnState(c), c.mem, false), StoreContext(c.mem, c.rdi, ReturnState(c)))
  {
    var saved := StoreContext(c.mem, c.rdi, ReturnState(c));
    StoredContext(c.mem, c.rdi, ReturnState(c));
    assert Minus8(ReturnState(c).rsp) == c.regs.rsp;
    forall a: Word | InStack(l, a)
      ensures Read(saved, a) == Read(c.mem, a)
    {
      assert !InContext(l, a);
    }
  }

  /** What one switch does, in terms of the memory `saved` between its two halves. */
  ghost predicate Effect(tasks: map<nat, Layout>, w: World, s: Move, saved: Memory, n: World) {
    && s.Switch? && w.current in tasks && s.target in tasks && n.current == s.target
    && n.parked == w.parked[w.current := Parked(ReturnState(s.call), s.call.mem, false)]
    && Intact(tasks[w.current], n.parked[w.current], saved)
    && (forall a: Word :: !InContext(tasks[w.current], a) ==> Read(saved, a) == Read(s.call.mem, a))
    && n.cpu.regs == LoadContext(saved, tasks[s.target].context)
    && (forall a: Word :: Read(n.cpu.mem, a) ==
          if a == Minus8(n.cpu.regs.rsp) then n.cpu.regs.rip else Read(saved, a))
  }

  /** The two halves of the routine, with memory `saved` in between. */
  lemma Halves(l: Layout, c: Cpu) returns (saved: Memory)
    requires LayoutOk(l) && c.rdi == l.context && Word8(c.regs.rsp) && InStack(l, c.regs.rsp)
    requires c.rsi + CONTEXT_SIZE <= TWO64
    ensures Intact(l, Parked(ReturnState(c), c.mem, false), saved)
    ensures forall a: Word :: !InContext(l, a) ==> Read(saved, a) == Read(c.mem, a)
    ensures Switched(c).regs == LoadContext(saved, c.rsi) && Switched(c).pending == 0
    ensures forall a: Word :: Read(Switched(c).mem, a) ==
              if a == Minus8(Switched(c).regs.rsp) then Switched(c).regs.rip else Read(saved, a)
  {
    saved := StoreContext(c.mem, c.rdi, ReturnState(c));
    CallerParked(l, c);
    StoredContext(c.mem, c.rdi, ReturnState(c));
    forall a: Word
      ensures Read(Switched(c).mem, a) ==
              if a == Minus8(Switched(c).regs.rsp) then Switched(c).regs.rip else Read(saved, a)
    {
      SwitchedMemory(c, a);
    }
  }

  lemma SwitchHasEffect(tasks: map<nat, Layout>, w: World, s: Move) returns (saved: Memory)
    requires Disjoint(tasks) && Allowed(tasks, w, s)
    ensures Effect(tasks, w, s, saved, Next(tasks, w, s)) && Next(tasks, w, s).cpu.pending == 0
  {
    saved := Halves(tasks[w.current], s.call);
  }

  /** The save half writes only the caller's context. */
  lemma SurvivesSave(l: Layout, caller: Layout, p: Parked, mem: Memory, called: Memory, saved: Memory)
    requires LayoutOk(l) && Separate(l, caller) && Intact(l, p, mem)
    requires forall a: Word :: Owns(l, a) ==> Read(called, a) == Read(mem, a)
    requires forall a: Word :: !InContext(caller, a) ==> Read(saved, a) == Read(called, a)
    ensures Intact(l, p, saved)
  {
  }

  /** The restore half writes only a slot of the target's stack. */
  lemma SurvivesRestore(l: Layout, target: Layout, p: Parked, saved: Memory, mem: Memory, slot: Word, v: Word)
    requires LayoutOk(l) && Separate(l, target) && Intact(l, p, saved) && InStack(target, slot)
    requires forall a: Word :: Read(mem, a) == if a == slot then v else Read(saved, a)
    ensures Intact(l, p, mem)
  {
  }

  /** The image of every task between the two halves of a switch. */
  lemma SavedIntact(tasks: map<nat, Layout>, w: World, s: Move, saved: Memory, n: World, i: nat)
    requires Disjoint(tasks) && Inv(tasks, w) && Allowed(tasks, w, s) && Exists(w, i)
    requires Effect(tasks, w, s, saved, n)
    ensures i in tasks && i in n.parked && Intact(tasks[i], n.parked[i], saved)
  {
    if i != w.current {
      assert Separate(tasks[i], tasks[w.current]);
      SurvivesSave(tasks[i], tasks[w.current], w.parked[i], w.cpu.mem, s.call.mem, saved);
    }
  }

  lemma TargetContinues(l: Layout, p: Parked, saved: Memory, c: Cpu)
    requires LayoutOk(l) && Intact(l, p, saved) && c.regs == LoadContext(saved, l.context)
    requires forall a: Word :: Read(c.mem, a) == if a == Minus8(c.regs.rsp) then c.regs.rip else Read(saved, a)
    ensures ContinuesAs(l, p, c) && InStack(l, Minus8(c.regs.rsp))
  {
  }

  lemma EffectStep(tasks: map<nat, Layout>, w: World, s: Move, saved: Memory, n: World)
    requires Disjoint(tasks) && Inv(tasks, w) && Allowed(tasks, w, s)
    requires Effect(tasks, w, s, saved, n)
    ensures Inv(tasks, n)
    ensures s.target in n.parked && ContinuesAs(tasks[s.target], n.parked[s.target], n.cpu)
  {
    SavedIntact(tasks, w, s, saved, n, s.target);
    TargetContinues(tasks[s.target], n.parked[s.target], saved, n.cpu);
    forall i | i in n.parked && i != s.target
      ensures i in tasks && Intact(tasks[i], n.parked[i], n.cpu.mem)
    {
      SavedIntact(tasks, w, s, saved, n, i);
      assert Separate(tasks[i], tasks[s.target]);
      SurvivesRestore(tasks[i], tasks[s.target], n.parked[i], saved, n.cpu.mem, Minus8(n.cpu.regs.rsp), n.cpu.regs.rip);
    }
  }

  /** One switch: the target continues as it was parked, and everything parked stays intact. */
  lemma SwitchStep(tasks: map<nat, Layout>, w: World, s: Move)
    requires Disjoint(tasks) && Inv(tasks, w) && Allowed(tasks, w, s)
    ensures var n := Next(tasks, w, s);
            && Inv(tasks, n)
            && s.target in n.parked && ContinuesAs(tasks[s.target], n.parked[s.target], n.cpu)
            && n.cpu.pending == 0
  {
    var saved := SwitchHasEffect(tasks, w, s);
    EffectStep(tasks, w, s, saved, Next(tasks, w, s));
  }

  /** The world before the first switch: one task runs, and no other exists yet. */
  lemma BootInv(tasks: map<nat, Layout>, cpu: Cpu, current: nat)
    requires current in tasks
    ensures Inv(tasks, World(cpu, current, map[]))
  {
  }

  /** A task is entitled to what its creator put into its context and onto its stack. */
  lemma NewIsIntact(l: Layout, b: Birth, mem: Memory)
    requires LayoutOk(l) && LoadContext(mem, l.context) == NewContext(l, b)
    requires FrameCopied(l, b, mem)
    ensures Intact(l, Parked(NewContext(l, b), mem, true), mem)
  {
  }

  lemma CreateStep(tasks: map<nat, Layout>, w: World, s: Move)
    requires Disjoint(tasks) && Inv(tasks, w) && Creatable(tasks, w, s)
    ensures Inv(tasks, Next(tasks, w, s))
  {
    var n := Next(tasks, w, s);
    NewIsIntact(tasks[s.task], s.birth, s.mem);
    forall i | i in n.parked && i != n.current
      ensures i in tasks && Intact(tasks[i], n.parked[i], n.cpu.mem)
    {
      if i != s.task {
        KeptIntact(tasks[i], w.parked[i], w.cpu.mem, s.mem);
      }
    }
  }

  lemma KeptIntact(l: Layout, p: Parked, mem: Memory, mem': Memory)
    requires LayoutOk(l) && Intact(l, p, mem)
    requires forall a: Word :: Owns(l, a) ==> Read(mem', a) == Read(mem, a)
    ensures Intact(l, p, mem')
  {
  }

  lemma {:induction false} RunInv(tasks: map<nat, Layout>, w: World, schedule: seq<Move>)
    requires Disjoint(tasks) && Inv(tasks, w)
    ensures Inv(tasks, Run(tasks, w, schedule))
  {
    if schedule != [] {
      RunInv(tasks, w, schedule[..|schedule| - 1]);
      var before := Run(tasks, w, schedule[..|schedule| - 1]);
      if Allowed(tasks, before, schedule[|schedule| - 1]) {
        SwitchStep(tasks, before, schedule[|schedule| - 1]);
      } else if Creatable(tasks, before, schedule[|schedule| - 1]) {
        CreateStep(tasks, before, schedule[|schedule| - 1]);
      }
    }
  }

  // ---- Theorems ----

  /** Label `q` of the schedule is a switch to task `k`. */
  ghost predicate SwitchesTo(tasks: map<nat, Layout>, w: World, schedule: seq<Move>, q: nat, k: nat)
    requires q < |schedule|
  {
    Allowed(tasks, Run(tasks, w, schedule[..q]), schedule[q]) && schedule[q].target == k
  }

  lemma RunExtends(tasks: map<nat, Layout>, w: World, schedule: seq<Move>, q: nat)
    requires q < |schedule|
    ensures Run(tasks, w, schedule[..q + 1]) == Next(tasks, Run(tasks, w, schedule[..q]), schedule[q])
  {
    assert schedule[..q + 1][..q] == schedule[..q];
  }

  /** While nobody switches to a parked task, its entitlement does not change. */
  lemma {:induction false} StaysParked(tasks: map<nat, Layout>, w: World, schedule: seq<Move>, i: nat, j: nat, k: nat)
    requires i <= j <= |schedule|
    requires Run(tasks, w, schedule[..i]).current != k && k in Run(tasks, w, schedule[..i]).parked
    requires forall q :: i <= q < j ==> !SwitchesTo(tasks, w, schedule, q, k)
    ensures var a, b := Run(tasks, w, schedule[..i]), Run(tasks, w, schedule[..j]);
            b.current != k && k in b.parked && b.parked[k] == a.parked[k]
    decreases j - i
  {
    if i < j {
      StaysParked(tasks, w, schedule, i, j - 1, k);
      RunExtends(tasks, w, schedule, j - 1);
      assert !SwitchesTo(tasks, w, schedule, j - 1, k);
    }
  }

  /** Task `l` is back in the state after a plain return from the call it made in `call`. */
  ghost predicate Returned(l: Layout, call: Cpu, c: Cpu) {
    && c.regs.rip == Read(call.mem, call.regs.rsp)
    && c.regs.rsp == call.regs.rsp + 8
    && c.regs == call.regs.(rip := c.regs.rip, rsp := c.regs.rsp)
    && (forall a: Word :: InStack(l, a) ==> Read(c.mem, a) == Read(call.mem, a))
  }

  lemma ContinuesReturned(l: Layout, call: Cpu, c: Cpu)
    requires ContinuesAs(l, Parked(ReturnState(call), call.mem, false), c)
    requires LayoutOk(l) && Word8(call.regs.rsp) && InStack(l, call.regs.rsp)
    ensures Returned(l, call, c)
  {
  }

  /**
   Exact resumption.  Whatever the tasks do in between, the task that called the routine at
   step `i` continues, at the next switch back to it, at its return address with the stack
   pointer it would have after a plain return, the same callee-saved registers and flags, and
   every word of its stack unchanged, the return-address slot included.
   */
  lemma ResumesExactly(tasks: map<nat, Layout>, w: World, schedule: seq<Move>, i: nat, j: nat)
    requires Disjoint(tasks) && Inv(tasks, w) && i < j < |schedule|
    requires var k := Run(tasks, w, schedule[..i]).current;
             && Allowed(tasks, Run(tasks, w, schedule[..i]), schedule[i]) && schedule[i].target != k
             && SwitchesTo(tasks, w, schedule, j, k)
             && forall q :: i < q < j ==> !SwitchesTo(tasks, w, schedule, q, k)
    ensures var k, call := Run(tasks, w, schedule[..i]).current, schedule[i].call;
            var c := Run(tasks, w, schedule[..j + 1]).cpu;
            Run(tasks, w, schedule[..j + 1]).current == k && Returned(tasks[k], call, c)
  {
    var k := Run(tasks, w, schedule[..i]).current;
    RunExtends(tasks, w, schedule, i);
    StaysParked(tasks, w, schedule, i + 1, j, k);
    RunInv(tasks, w, schedule[..j]);
    RunExtends(tasks, w, schedule, j);
    SwitchStep(tasks, Run(tasks, w, schedule[..j]), schedule[j]);
    ContinuesReturned(tasks[k], schedule[i].call, Run(tasks, w, schedule[..j + 1]).cpu);
  }

  /**
   Exact start.  A task created at step `i` starts, at the first switch to it, at its entry point
   with exactly the stack pointer, registers and flags it was given; every word of its stack
   is as its creator left it, but for the unused slot below the stack pointer; a forked task finds
   the child's copy of the system call frame at its stack pointer.
   */
  lemma StartsExactly(tasks: map<nat, Layout>, w: World, schedule: seq<Move>, i: nat, j: nat)
    requires Disjoint(tasks) && Inv(tasks, w) && i < j < |schedule|
    requires Creatable(tasks, Run(tasks, w, schedule[..i]), schedule[i])
    requires SwitchesTo(tasks, w, schedule, j, schedule[i].task)
    requires forall q :: i < q < j ==> !SwitchesTo(tasks, w, schedule, q, schedule[i].task)
    ensures Run(tasks, w, schedule[..j + 1]).current == schedule[i].task
    ensures Started(tasks[schedule[i].task], schedule[i], Run(tasks, w, schedule[..j + 1]).cpu)
  {
    var k := schedule[i].task;
    RunExtends(tasks, w, schedule, i);
    StaysParked(tasks, w, schedule, i + 1, j, k);
    RunInv(tasks, w, schedule[..j]);
    RunExtends(tasks, w, schedule, j);
    SwitchStep(tasks, Run(tasks, w, schedule[..j]), schedule[j]);
    NewStarts(tasks[k], schedule[i], Run(tasks, w, schedule[..j + 1]).cpu);
  }

  lemma NewStarts(l: Layout, s: Move, c: Cpu)
    requires s.Create? && LayoutOk(l) && FrameCopied(l, s.birth, s.mem)
    requires ContinuesAs(l, Parked(NewContext(l, s.birth), s.mem, true), c)
    ensures Started(l, s, c)
  {
    if s.birth.ForkedTask? {
      ChildFrameSeen(l, s.birth, s.mem);
      assert forall k :: 0 <= k < 16 ==> InStack(l, l.high - 128 + 8 * k);
    }
  }

  /** The registers, the stack and, for a forked task, the sixteen words of its system call frame. */
  ghost predicate Started(l: Layout, s: Move, c: Cpu)
    requires s.Create?
  {
    && (forall a: Word :: InStack(l, a) && a != Minus8(c.regs.rsp) ==> Read(c.mem, a) == Read(s.mem, a))
    && match s.birth
       case KernelTask(entry) => c.regs == Context(l.high, 0, 0, 0, 0, 0, 0, entry, 0x200)
       case ForkedTask(trampoline, fsBase, frame, userStack) =>
         && c.regs.rsp == l.high - 128 && |frame| == 16
         && c.regs == Context(c.regs.rsp, 0, fsBase, 0, 0, 0, 0, trampoline, 0x2)
         && ChildSees(c.mem, c.regs.rsp, frame, userStack)
  }

  /** Fork answers 0 in word 0 (rax), interrupts are enabled in word 8 (r11), word 9 (rsp) is the
      user stack given, if any, and every other word is the parent's. */
  ghost predicate ChildSees(mem: Memory, at: Word, frame: seq<Word>, userStack: Word)
    requires |frame| == 16
  {
    && at + 128 <= TWO64
    && Read(mem, at) == 0
    && SetsBit9(frame[8], Read(mem, at + 64))
    && Read(mem, at + 72) == (if userStack != 0 then userStack else frame[9])
    && forall k :: 0 < k < 16 && k != 8 && k != 9 ==> Read(mem, at + 8 * k) == frame[k]
  }

  /** Bit 9 of `b` is set, and `b` is `a` in the bits below and above. */
  predicate SetsBit9(a: Word, b: Word) {
    b / 512 % 2 == 1 && b % 512 == a % 512 && b / 1024 == a / 1024
  }

  lemma InterruptsAreBit9(flags: Word)
    ensures SetsBit9(flags, WithInterrupts(flags))
  {
  }

  lemma ChildFrameSeen(l: Layout, b: Birth, mem: Memory)
    requires b.ForkedTask? && FrameCopied(l, b, mem)
    ensures ChildSees(mem, l.high - 128, b.frame, b.userStack)
  {
    var words, at := ChildFrame(b.frame, b.userStack), l.high - 128;
    InterruptsAreBit9(b.frame[8]);
    assert Read(mem, at + 8 * 0) == words[0] && Read(mem, at + 8 * 8) == words[8] && Read(mem, at + 8 * 9) == words[9];
    forall k | 0 < k < 16 && k != 8 && k != 9
      ensures Read(mem, at + 8 * k) == b.frame[k]
    {
      assert words[k] == b.frame[k];
    }
  }

  /** The root in use after a switch: the pending one, or else the one its caller had loaded. */
  lemma RootStep(tasks: map<nat, Layout>, w: World, s: Move)
    ensures var n := Next(tasks, w, s).cpu;
            if Allowed(tasks, w, s) then
              n.pending == 0 && n.cr3 == if s.call.pending != 0 then s.call.pending else s.call.cr3
            else n.pending == w.cpu.pending && n.cr3 == w.cpu.cr3
  {
  }

  /** The running task has neither set a pending root nor, as exec does, loaded one itself. */
  predicate LeavesRoot(w: World, s: Move) {
    s.Switch? ==> s.call.pending == 0 && s.call.cr3 == w.cpu.cr3
  }

  lemma RootKept(tasks: map<nat, Layout>, w: World, s: Move)
    requires LeavesRoot(w, s) && w.cpu.pending == 0
    ensures Next(tasks, w, s).cpu.cr3 == w.cpu.cr3 && Next(tasks, w, s).cpu.pending == 0
  {
    RootStep(tasks, w, s);
  }

  /**
   A pending CR3 is loaded by the switch it was set for and by no other: it is the root in use
   right after that switch, nothing is pending then, and it stays the root in use as long as no
   running task sets another one or loads one itself.
   */
  lemma {:induction false} PendingRootUsedOnce(tasks: map<nat, Layout>, w: World, schedule: seq<Move>, i: nat, j: nat)
    requires i < j <= |schedule|
    requires Allowed(tasks, Run(tasks, w, schedule[..i]), schedule[i]) && schedule[i].call.pending != 0
    requires forall q :: i < q < j ==> LeavesRoot(Run(tasks, w, schedule[..q]), schedule[q])
    ensures Run(tasks, w, schedule[..j]).cpu.cr3 == schedule[i].call.pending
    ensures Run(tasks, w, schedule[..j]).cpu.pending == 0
    decreases j - i
  {
    RunExtends(tasks, w, schedule, j - 1);
    if i + 1 < j {
      PendingRootUsedOnce(tasks, w, schedule, i, j - 1);
      RootKept(tasks, Run(tasks, w, schedule[..j - 1]), schedule[j - 1]);
    } else {
      RootStep(tasks, Run(tasks, w, schedule[..i]), schedule[i]);
    }
  }

  // ---- A run ----

  /** Two tasks in separate pages. */
  function TwoTasks(): map<nat, Layout> {
    map[0 := Layout(0x1000, 0x2000, 0x3000), 1 := Layout(0x4000, 0x5000, 0x6000)]
  }

  lemma TwoTasksDisjoint()
    ensures Disjoint(TwoTasks())
  {
    forall i, j | i in TwoTasks() && j in TwoTasks() && i != j
      ensures Separate(TwoTasks()[i], TwoTasks()[j])
    {
      assert i == 0 || i == 1;
    }
  }

  /** Memory with the context of a new kernel task 1 filled in. */
  function WithTaskOne(mem: Memory, entry: Word): Memory {
    StoreContext(mem, 0x4000, NewContext(TwoTasks()[1], KernelTask(entry)))
  }

  /** Task 0 creates task 1. */
  lemma CreateOne(c: Cpu, entry: Word)
    ensures var w, s := World(c, 0, map[]), Create(1, KernelTask(entry), WithTaskOne(c.mem, entry));
            Creatable(TwoTasks(), w, s) && Next(TwoTasks(), w, s).current == 0
            && Next(TwoTasks(), w, s).parked.Keys == {1} && Next(TwoTasks(), w, s).cpu.mem == s.mem
  {
    StoredContext(c.mem, 0x4000, NewContext(TwoTasks()[1], KernelTask(entry)));
  }

  /** A call of the routine from the middle of a stack, changing nothing else. */
  function CallFrom(c: Cpu, l: Layout, next: Layout): Cpu {
    c.(regs := c.regs.(rsp := l.low), rdi := l.context, rsi := next.context)
  }

  lemma CallAllowed(w: World, target: nat)
    requires w.current in TwoTasks() && target in TwoTasks() && Exists(w, target)
    ensures Allowed(TwoTasks(), w, Switch(CallFrom(w.cpu, TwoTasks()[w.current], TwoTasks()[target]), target))
  {
  }

  lemma RunOne(tasks: map<nat, Layout>, w: World, schedule: seq<Move>, q: nat, before: World, after: World)
    requires q < |schedule| && Run(tasks, w, schedule[..q]) == before && after == Next(tasks, before, schedule[q])
    ensures Run(tasks, w, schedule[..q + 1]) == after
  {
    RunExtends(tasks, w, schedule, q);
  }

  lemma ThreeRuns(tasks: map<nat, Layout>, w: World, schedule: seq<Move>, w1: World, w2: World, w3: World)
    requires |schedule| == 3 && w1 == Next(tasks, w, schedule[0])
    requires w2 == Next(tasks, w1, schedule[1]) && w3 == Next(tasks, w2, schedule[2])
    ensures Run(tasks, w, schedule[..0]) == w && Run(tasks, w, schedule[..1]) == w1
    ensures Run(tasks, w, schedule[..2]) == w2 && Run(tasks, w, schedule[..3]) == w3
  {
    assert schedule[..0] == [];
    RunOne(tasks, w, schedule, 0, w, w1);
    RunOne(tasks, w, schedule, 1, w1, w2);
    RunOne(tasks, w, schedule, 2, w2, w3);
  }

  /** Three moves: a creation, a switch to the new task, and a switch back. */
  lemma ThreeMoves(tasks: map<nat, Layout>, w: World, schedule: seq<Move>, w1: World, w2: World, k: nat)
    requires Disjoint(tasks) && Inv(tasks, w) && |schedule| == 3
    requires Run(tasks, w, schedule[..0]) == w && Run(tasks, w, schedule[..1]) == w1
    requires Run(tasks, w, schedule[..2]) == w2
    requires Creatable(tasks, w, schedule[0]) && k == schedule[0].task != w1.current
    requires Allowed(tasks, w1, schedule[1]) && schedule[1].target == k
    requires Allowed(tasks, w2, schedule[2]) && schedule[2].target == w1.current
    ensures w2.current == k && Started(tasks[k], schedule[0], w2.cpu)
    ensures Run(tasks, w, schedule[..3]).current == w1.current
    ensures Returned(tasks[w1.current], schedule[1].call, Run(tasks, w, schedule[..3]).cpu)
  {
    StartsExactly(tasks, w, schedule, 0, 1);
    ResumesExactly(tasks, w, schedule, 1, 2);
  }

  /**
   Nothing above is said of an empty set of runs: task 0 creates task 1 and switches to it, task 1
   starts at its entry point and switches back, and task 0 continues behind its call.
   */
  lemma ThereAndBack(c: Cpu, entry: Word) returns (schedule: seq<Move>)
    ensures Disjoint(TwoTasks()) && Inv(TwoTasks(), World(c, 0, map[])) && |schedule| == 3 && schedule[1].Switch?
    ensures var w := World(c, 0, map[]);
            var started, back := Run(TwoTasks(), w, schedule[..2]), Run(TwoTasks(), w, schedule[..3]);
            && started.current == 1 && started.cpu.regs.rip == entry && started.cpu.regs.rsp == 0x6000
            && back.current == 0 && back.cpu.regs.rip == Read(schedule[1].call.mem, 0x2000)
            && back.cpu.regs.rsp == 0x2008
  {
    var w := World(c, 0, map[]);
    TwoTasksDisjoint();
    BootInv(TwoTasks(), c, 0);
    var s0 := Create(1, KernelTask(entry), WithTaskOne(c.mem, entry));
    CreateOne(c, entry);
    var w1 := Next(TwoTasks(), w, s0);
    var s1 := Switch(CallFrom(w1.cpu, TwoTasks()[0], TwoTasks()[1]), 1);
    CallAllowed(w1, 1);
    var w2 := Next(TwoTasks(), w1, s1);
    AfterSwitch(w1, s1, w2);
    var s2 := Switch(CallFrom(w2.cpu, TwoTasks()[1], TwoTasks()[0]), 0);
    CallAllowed(w2, 0);
    schedule := [s0, s1, s2];
    ThreeRuns(TwoTasks(), w, schedule, w1, w2, Next(TwoTasks(), w2, s2));
    ThreeMoves(TwoTasks(), w, schedule, w1, w2, 1);
  }

  lemma AfterSwitch(w: World, s: Move, n: World)
    requires Allowed(TwoTasks(), w, s) && n == Next(TwoTasks(), w, s)
    ensures n.current == s.target && w.current in n.parked
  {
  }
}
