/**
 The scheduler lock and run queue of the browser SMP runtime, in shared memory.

 Every `Atomics` access is one step of one thread; a sleeping thread may be woken at
 any time, by a notify, a stale notify or its timeout.  Int32 wrap-around of the indices
 is written out.  `offered` and `taken` record, in lock order, the pids of the enqueue
 calls and the pids that dequeue calls answer; `published` counts the stores of the tail.
 */
module SmpRuntime {
  import opened Wrappers

  const SLOTS: nat := 256

  type Int32 = x: int | -0x8000_0000 <= x < 0x8000_0000

  function ToInt32(x: int): Int32 { (x + 0x8000_0000) % 0x1_0000_0000 - 0x8000_0000 }

  /** JavaScript's remainder: the sign of the dividend. */
  function JsMod(x: int, n: nat): int
    requires n > 0
  {
    if x >= 0 then x % n else -((-x) % n)
  }

  /** Truncated division's remainder: congruent, smaller than the divisor, and on the dividend's side of zero. */
  lemma JsModIs(x: int, n: int) returns (q: int)
    requires n > 0
    ensures x == n * q + JsMod(x, n)
    ensures if x >= 0 then 0 <= JsMod(x, n) < n else -n < JsMod(x, n) <= 0
  {
    q := if x >= 0 then x / n else -((-x) / n);
  }

  datatype Request = Enqueue(pid: Int32) | Dequeue

  datatype Pc =
    | Outside
    | TryLock(req: Request)
    | Wait(req: Request)
    | Sleeping(req: Request)
    | LoadTail(pid: Int32)
    | StoreSlot(pid: Int32, tail: Int32)
    | StoreTail(pid: Int32, tail: Int32)
    | LoadHead
    | LoadTailToo(head: Int32)
    | LoadSlot(head: Int32)
    | StoreHead(head: Int32, pid: Int32)
    | Unlock(answer: Option<Int32>)       // Some(pid or -1) for a dequeue
    | Notify(answer: Option<Int32>)

  datatype Shared = Shared(lock: Int32, head: Int32, tail: Int32, ring: seq<Int32>)

  datatype System = System(
    mem: Shared, threads: map<nat, Pc>, offered: seq<Int32>, taken: seq<Int32>, published: nat) {
    function Pc(t: nat): Pc { if t in threads then threads[t] else Outside }
    function At(t: nat, pc: Pc): System { this.(threads := threads[t := pc]) }
  }

  datatype Label = Call(thread: nat, req: Request) | Step(thread: nat)

  /** Ring index of a counter value: the byte-offset arithmetic reduces to `tail % 256`. */
  function Slot(counter: int): int { JsMod(counter, SLOTS) }

  /** An index outside the array view would touch other shared words; the theorems never reach one. */
  function ReadRing(ring: seq<Int32>, i: int): Int32 { if 0 <= i < |ring| then ring[i] else 0 }

  function WriteRing(ring: seq<Int32>, i: int, v: Int32): seq<Int32> { if 0 <= i < |ring| then ring[i := v] else ring }

  function StepOf(s: System, t: nat): System {
    var m := s.mem;
    match s.Pc(t)
    case Outside => s
    case TryLock(req) =>
      if m.lock == 0 then
        match req
        case Enqueue(pid) => s.(mem := m.(lock := 1), offered := s.offered + [pid]).At(t, LoadTail(pid))
        case Dequeue => s.(mem := m.(lock := 1)).At(t, LoadHead)
      else s.At(t, Wait(req))
    case Wait(req) => if m.lock == 1 then s.At(t, Sleeping(req)) else s.At(t, TryLock(req))
    case Sleeping(req) => s.At(t, TryLock(req))
    case LoadTail(pid) => s.At(t, StoreSlot(pid, m.tail))
    case StoreSlot(pid, tail) => s.(mem := m.(ring := WriteRing(m.ring, Slot(tail), pid))).At(t, StoreTail(pid, tail))
    case StoreTail(pid, tail) =>
      s.(mem := m.(tail := ToInt32(tail + 1)), published := s.published + 1).At(t, Unlock(None))
    case LoadHead => s.At(t, LoadTailToo(m.head))
    case LoadTailToo(head) => if head >= m.tail then s.At(t, Unlock(Some(-1))) else s.At(t, LoadSlot(head))
    case LoadSlot(head) =>
      s.At(t, StoreHead(head, ReadRing(m.ring, Slot(head))))
    case StoreHead(head, pid) =>
      s.(mem := m.(head := ToInt32(head + 1)), taken := s.taken + [pid]).At(t, Unlock(Some(pid)))
    case Unlock(answer) => s.(mem := m.(lock := 0)).At(t, Notify(answer))
    case Notify(_) => s.At(t, Outside)
  }

  function Next(s: System, l: Label): System {
    match l
    case Call(t, req) => if s.Pc(t).Outside? then s.At(t, TryLock(req)) else s
    case Step(t) => StepOf(s, t)
  }

  function Run(s: System, schedule: seq<Label>): System {
    if schedule == [] then s
    else Next(Run(s, schedule[..|schedule| - 1]), schedule[|schedule| - 1])
  }

  /** A waiter sleeps only if the word still says locked; otherwise, and when woken, it tries again. */
  lemma WaitStep(s: System, t: nat)
    requires s.Pc(t).Wait? || s.Pc(t).Sleeping?
    ensures var n := StepOf(s, t);
            && n == s.(threads := n.threads)
            && (n.Pc(t).Sleeping? <==> s.Pc(t).Wait? && s.mem.lock == 1)
            && (n.Pc(t) == Sleeping(s.Pc(t).req) || n.Pc(t) == TryLock(s.Pc(t).req))
  {
  }

  predicate Initial(s: System) {
    && s.mem.lock == 0 && s.mem.head == 0 && s.mem.tail == 0 && |s.mem.ring| == SLOTS
    && s.threads == map[] && s.offered == [] && s.taken == [] && s.published == 0
  }

  /** Between a successful try-lock and the store of the unlock. */
  predicate Inside(pc: Pc) {
    !(pc.Outside? || pc.TryLock? || pc.Wait? || pc.Sleeping? || pc.Notify?)
  }

  // ---- Mutual exclusion ----

  ghost predicate LockInv(s: System) {
    && (s.mem.lock == 0 || s.mem.lock == 1)
    && (s.mem.lock == 1 <==> exists t: nat :: Inside(s.Pc(t)))
    && (forall t: nat, u: nat :: Inside(s.Pc(t)) && Inside(s.Pc(u)) ==> t == u)
  }

  lemma LockStep(s: System, l: Label)
    requires LockInv(s)
    ensures LockInv(Next(s, l))
  {
    var n, t := Next(s, l), l.thread;
    assert forall u: nat :: u != t ==> n.Pc(u) == s.Pc(u);
    if Inside(n.Pc(t)) {
      assert n.mem.lock == 1;
    }
    if Inside(s.Pc(t)) && !Inside(n.Pc(t)) {
      assert forall u: nat :: !Inside(n.Pc(u));
    }
  }

  /**
   In every interleaving the lock word is 0 or 1, it is 1 exactly while some thread is
   between its successful try-lock and the unlock's store, and never more than one is.
   */
  lemma {:induction false} MutualExclusion(s: System, schedule: seq<Label>)
    requires Initial(s)
    ensures LockInv(Run(s, schedule))
  {
    if schedule != [] {
      MutualExclusion(s, schedule[..|schedule| - 1]);
      LockStep(Run(s, schedule[..|schedule| - 1]), schedule[|schedule| - 1]);
    }
  }

  // ---- The queue ----

  predicate Storing(pc: Pc) { pc.LoadTail? || pc.StoreSlot? || pc.StoreTail? }

  /** Index of the newest enqueue that used the ring slot of `head`. */
  function Newest(head: nat, tail: nat): nat
    requires head < tail
  {
    head + SLOTS * ((tail - 1 - head) / SLOTS)
  }

  lemma NewestShares(head: nat, tail: nat)
    requires head < tail
    ensures head <= Newest(head, tail) < tail && tail - Newest(head, tail) <= SLOTS
    ensures Newest(head, tail) % SLOTS == head % SLOTS
    ensures Newest(head, tail) == head <==> tail - head <= SLOTS
  {
    var q := (tail - 1 - head) / SLOTS;
    assert tail - 1 - head == SLOTS * q + (tail - 1 - head) % SLOTS;
    assert (head + SLOTS * q) % SLOTS == head % SLOTS;
  }

  /** Slots hold the newest offered pids; while a store is about to be published, one older slot is lost. */
  predicate RingHolds(s: System, published: nat, oldest: int) {
    && published <= |s.offered|
    && |s.mem.ring| == SLOTS
    && forall i :: 0 <= i < published && oldest <= i ==> s.mem.ring[i % SLOTS] == s.offered[i]
  }

  /** What the thread inside the lock knows. */
  predicate HolderInv(s: System, pc: Pc) {
    var tail := s.mem.tail;
    && 0 <= s.mem.head <= tail
    && tail == s.published == |s.offered| - (if Storing(pc) then 1 else 0)
    && RingHolds(s, tail, if pc.StoreTail? then tail - SLOTS + 1 else tail - SLOTS)
    && (Storing(pc) ==> s.offered[tail] == pc.pid)
    && (pc.StoreSlot? ==> pc.tail == tail)
    && (pc.StoreTail? ==> pc.tail == tail && s.mem.ring[tail % SLOTS] == pc.pid)
    && (pc.LoadTailToo? || pc.LoadSlot? || pc.StoreHead? ==> pc.head == s.mem.head)
    && (pc.LoadSlot? || pc.StoreHead? ==> pc.head < tail)
    && (pc.StoreHead? ==> pc.pid == s.offered[Newest(pc.head, tail)])
  }

  ghost predicate QueueInv(s: System) {
    && LockInv(s)
    && s.mem.head == |s.taken|
    && (s.mem.lock == 0 ==> HolderInv(s, Outside))
    && (forall t: nat :: Inside(s.Pc(t)) ==> HolderInv(s, s.Pc(t)))
  }

  /** No counter has wrapped: fewer than 2^31 stores of the tail so far. */
  predicate NoWrap(s: System) { s.published < 0x8000_0000 }

  /** Writing slot `tail` spares the 255 newest pids. */
  lemma WriteSlot(s: System, n: System, tail: nat, pid: Int32)
    requires tail <= |s.offered| && RingHolds(s, tail, tail - SLOTS)
    requires n.offered == s.offered && n.mem.ring == s.mem.ring[tail % SLOTS := pid]
    ensures RingHolds(n, tail, tail - SLOTS + 1) && n.mem.ring[tail % SLOTS] == pid
  {
    forall i | 0 <= i < tail && tail - SLOTS + 1 <= i
      ensures i % SLOTS != tail % SLOTS
    {
      DistinctSlots(i, tail);
    }
  }

  lemma DistinctSlots(i: nat, j: nat)
    requires i < j < i + SLOTS
    ensures i % SLOTS != j % SLOTS
  {
  }

  lemma HolderStoreSlot(s: System, t: nat)
    requires QueueInv(s) && s.Pc(t).StoreSlot?
    ensures HolderInv(StepOf(s, t), StepOf(s, t).Pc(t))
  {
    var n, tail := StepOf(s, t), s.mem.tail;
    assert HolderInv(s, s.Pc(t));
    WriteSlot(s, n, tail, s.Pc(t).pid);
  }

  lemma HolderStoreTail(s: System, t: nat)
    requires QueueInv(s) && s.Pc(t).StoreTail? && NoWrap(StepOf(s, t))
    ensures HolderInv(StepOf(s, t), StepOf(s, t).Pc(t))
  {
    assert HolderInv(s, s.Pc(t));
    assert StepOf(s, t).mem.tail == s.mem.tail + 1;
  }

  lemma {:induction false} HolderDequeue(s: System, t: nat)
    requires QueueInv(s)
    requires var pc := s.Pc(t); pc.LoadHead? || pc.LoadTailToo? || pc.LoadSlot? || pc.StoreHead?
    ensures HolderInv(StepOf(s, t), StepOf(s, t).Pc(t)) && StepOf(s, t).mem.head == |StepOf(s, t).taken|
  {
    var pc := s.Pc(t);
    assert HolderInv(s, pc);
    if pc.LoadSlot? { NewestShares(pc.head, s.mem.tail); }
  }

  lemma HolderStep(s: System, t: nat)
    requires QueueInv(s) && Inside(s.Pc(t)) && NoWrap(StepOf(s, t))
    ensures HolderInv(StepOf(s, t), StepOf(s, t).Pc(t)) && StepOf(s, t).mem.head == |StepOf(s, t).taken|
  {
    match s.Pc(t)
    case StoreSlot(_, _) => HolderStoreSlot(s, t);
    case StoreTail(_, _) => HolderStoreTail(s, t);
    case LoadTail(_) => assert HolderInv(s, s.Pc(t));
    case Unlock(_) => assert HolderInv(s, s.Pc(t));
    case _ => HolderDequeue(s, t);
  }

  /** Taking the lock starts from the free queue. */
  lemma EnterStep(s: System, t: nat)
    requires QueueInv(s) && !Inside(s.Pc(t)) && Inside(StepOf(s, t).Pc(t))
    ensures HolderInv(StepOf(s, t), StepOf(s, t).Pc(t)) && StepOf(s, t).mem.head == |StepOf(s, t).taken|
  {
  }

  /** Steps outside the lock do not touch the queue. */
  lemma QuietStep(s: System, n: System)
    requires QueueInv(s) && LockInv(n)
    requires n.mem == s.mem && n.offered == s.offered && n.taken == s.taken && n.published == s.published
    requires forall u: nat :: Inside(n.Pc(u)) ==> n.Pc(u) == s.Pc(u)
    ensures QueueInv(n)
  {
  }

  /** With nobody else inside, the holder's knowledge is the whole invariant. */
  lemma OnlyHolder(n: System, t: nat)
    requires LockInv(n) && HolderInv(n, n.Pc(t)) && n.mem.head == |n.taken|
    requires forall u: nat :: Inside(n.Pc(u)) ==> u == t
    ensures QueueInv(n)
  {
    if n.mem.lock == 0 {
      assert !Inside(n.Pc(t));
    }
  }

  lemma QueueStep(s: System, l: Label)
    requires QueueInv(s) && NoWrap(Next(s, l))
    ensures QueueInv(Next(s, l))
  {
    LockStep(s, l);
    var n, t := Next(s, l), l.thread;
    assert forall u: nat :: u != t ==> n.Pc(u) == s.Pc(u);
    if l.Step? && Inside(s.Pc(t)) {
      HolderStep(s, t);
      OnlyHolder(n, t);
    } else if l.Step? && Inside(n.Pc(t)) {
      EnterStep(s, t);
      OnlyHolder(n, t);
    } else {
      QuietStep(s, n);
    }
  }

  lemma {:induction false} QueueRun(s: System, schedule: seq<Label>)
    requires Initial(s) && NoWrap(Run(s, schedule))
    ensures QueueInv(Run(s, schedule))
  {
    if schedule != [] {
      QueueRun(s, schedule[..|schedule| - 1]);
      QueueStep(Run(s, schedule[..|schedule| - 1]), schedule[|schedule| - 1]);
    } else {
      assert forall t: nat :: s.Pc(t).Outside?;
    }
  }

  // ---- Theorems ----

  /**
   What a dequeue reads, exactly: the newest pid offered through that slot.  It is the pid
   whose turn it is if and only if at most 256 published pids are pending.
   */
  lemma DequeueReads(s: System, schedule: seq<Label>, t: nat)
    requires Initial(s) && NoWrap(Run(s, schedule)) && Run(s, schedule).Pc(t).LoadSlot?
    ensures var n := Run(s, schedule);
            var turn := |n.taken|;
            && turn < |n.offered|
            && StepOf(n, t).Pc(t) == StoreHead(n.mem.head, n.offered[Newest(turn, |n.offered|)])
            && (Newest(turn, |n.offered|) == turn <==> |n.offered| - turn <= SLOTS)
  {
    QueueRun(s, schedule);
    var n := Run(s, schedule);
    assert HolderInv(n, n.Pc(t));
    NewestShares(|n.taken|, |n.offered|);
    HolderStep(n, t);
  }

  predicate Backlogged(s: System) { |s.offered| - |s.taken| > SLOTS }

  /** The pids between head and tail. */
  function Pending(m: Shared): seq<Int32>
    requires 0 <= m.head <= m.tail && |m.ring| == SLOTS
  {
    seq(m.tail - m.head, i requires 0 <= i < m.tail - m.head => m.ring[(m.head + i) % SLOTS])
  }

  /**
   Nothing lost, duplicated or reordered: in every interleaving that never has more than 256
   pids pending, the pids answered so far are the first ones offered, in lock order, and
   whenever the lock is free the ring holds exactly the rest.
   */
  lemma {:induction false} FirstInFirstOut(s: System, schedule: seq<Label>)
    requires Initial(s) && NoWrap(Run(s, schedule))
    requires forall n :: 0 <= n <= |schedule| ==> !Backlogged(Run(s, schedule[..n]))
    ensures Run(s, schedule).taken <= Run(s, schedule).offered
    ensures Run(s, schedule).mem.lock == 0 ==>
              && 0 <= Run(s, schedule).mem.head <= Run(s, schedule).mem.tail
              && |Run(s, schedule).mem.ring| == SLOTS
              && Run(s, schedule).taken + Pending(Run(s, schedule).mem) == Run(s, schedule).offered
  {
    TakenIsPrefix(s, schedule);
    QueueRun(s, schedule);
    assert schedule[..|schedule|] == schedule;
    if Run(s, schedule).mem.lock == 0 {
      RingIsRest(Run(s, schedule));
    }
  }

  lemma RingIsRest(n: System)
    requires HolderInv(n, Outside) && n.mem.head == |n.taken| && n.taken <= n.offered && !Backlogged(n)
    ensures n.taken + Pending(n.mem) == n.offered
  {
  }

  lemma TakenStep(s: System, l: Label)
    requires QueueInv(s) && !Backlogged(s) && s.taken <= s.offered
    ensures Next(s, l).taken <= Next(s, l).offered
  {
    var pc := s.Pc(l.thread);
    if l.Step? && pc.StoreHead? {
      assert HolderInv(s, pc);
      NewestShares(pc.head, s.mem.tail);
    }
  }

  lemma {:induction false} TakenIsPrefix(s: System, schedule: seq<Label>)
    requires Initial(s) && NoWrap(Run(s, schedule))
    requires forall n :: 0 <= n <= |schedule| ==> !Backlogged(Run(s, schedule[..n]))
    ensures Run(s, schedule).taken <= Run(s, schedule).offered
  {
    if schedule != [] {
      var before, l := schedule[..|schedule| - 1], schedule[|schedule| - 1];
      assert forall n :: 0 <= n <= |before| ==> before[..n] == schedule[..n];
      TakenIsPrefix(s, before);
      QueueRun(s, before);
      TakenStep(Run(s, before), l);
    }
  }

  /**
   The two accesses that fix a dequeue's answer.  It is -1 if and only if every offered pid has
   been taken when head and tail are compared, or the pid read is itself -1.
   */
  lemma EmptyAnswer(s: System, schedule: seq<Label>, t: nat)
    requires Initial(s) && NoWrap(Run(s, schedule))
    requires Run(s, schedule).Pc(t).LoadTailToo? || Run(s, schedule).Pc(t).StoreHead?
    ensures var n := Run(s, schedule);
            StepOf(n, t).Pc(t) == Unlock(Some(-1)) <==>
              if n.Pc(t).LoadTailToo? then |n.offered| == |n.taken|
              else |n.taken| < |n.offered| && n.offered[Newest(|n.taken|, |n.offered|)] == -1
  {
    QueueRun(s, schedule);
    Answering(Run(s, schedule), t);
  }

  lemma Answering(n: System, t: nat)
    requires QueueInv(n) && (n.Pc(t).LoadTailToo? || n.Pc(t).StoreHead?)
    ensures StepOf(n, t).Pc(t) == Unlock(Some(-1)) <==>
              if n.Pc(t).LoadTailToo? then |n.offered| == |n.taken|
              else |n.taken| < |n.offered| && n.offered[Newest(|n.taken|, |n.offered|)] == -1
  {
    assert HolderInv(n, n.Pc(t));
  }

  /**
   Why wrap-around is excluded: the store that publishes a pid keeps the queue visibly nonempty
   exactly while the counter is below 2^31 - 1; the next one makes it look empty.
   */
  lemma WrapHidesPids(s: System, schedule: seq<Label>, t: nat)
    requires Initial(s) && NoWrap(Run(s, schedule)) && Run(s, schedule).Pc(t).StoreTail?
    ensures var n := Run(s, schedule);
            var after := StepOf(n, t);
            && (after.mem.head < after.mem.tail <==> n.published < 0x7FFF_FFFF)
            && |after.offered| > |after.taken|
  {
    QueueRun(s, schedule);
    Publishing(Run(s, schedule), t);
  }

  lemma Publishing(s: System, t: nat)
    requires QueueInv(s) && s.Pc(t).StoreTail?
    ensures var after := StepOf(s, t);
            && (after.mem.head < after.mem.tail <==> s.published < 0x7FFF_FFFF)
            && |after.offered| > |after.taken|
  {
    assert HolderInv(s, s.Pc(t));
    assert ToInt32(s.mem.tail + 1) == if s.mem.tail < 0x7FFF_FFFF then s.mem.tail + 1 else -0x8000_0000;
  }
}
