/**
 The enqueue and dequeue routines of the browser SMP runtime as code on shared memory, and the
 runs of one undisturbed thread.  The code is proved to do what those steps do in `SmpRuntime`,
 where the theorems about every interleaving are; two such runs show where their conditions fail.
 */
module RunQueue {
  import opened Wrappers
  import opened SmpRuntime

  /** `n` steps of thread `t` in a row. */
  function Steps(s: System, t: nat, n: nat): System
    decreases n
  {
    if n == 0 then s else Steps(StepOf(s, t), t, n - 1)
  }

  function Enqueued(m: Shared, pid: Int32): Shared {
    m.(ring := WriteRing(m.ring, Slot(m.tail), pid), tail := ToInt32(m.tail + 1))
  }

  function Dequeued(m: Shared): Shared { if m.head >= m.tail then m else m.(head := ToInt32(m.head + 1)) }

  function Front(m: Shared): Int32 { if m.head >= m.tail then -1 else ReadRing(m.ring, Slot(m.head)) }

  lemma OneStep(s: System, t: nat, n: nat)
    requires n > 0
    ensures Steps(s, t, n) == Steps(StepOf(s, t), t, n - 1)
  {
  }

  /** What a whole undisturbed call leaves behind. */
  predicate Completed(s: System, n: System, t: nat, mem: Shared, offered: seq<Int32>, taken: seq<Int32>) {
    n.Pc(t) == Outside && n.mem == mem && n.offered == s.offered + offered && n.taken == s.taken + taken
  }

  lemma SoloEnqueue(s: System, t: nat, pid: Int32)
    requires s.Pc(t) == TryLock(Enqueue(pid)) && s.mem.lock == 0
    ensures Completed(s, Steps(s, t, 6), t, Enqueued(s.mem, pid), [pid], [])
    ensures Steps(s, t, 6).published == s.published + 1
  {
    var s1 := StepOf(s, t);
    var s2 := StepOf(s1, t);
    var s3 := StepOf(s2, t);
    var s4 := StepOf(s3, t);
    assert s4.Pc(t) == Unlock(None) && s4.mem == Enqueued(s.mem, pid).(lock := 1);
    assert s4.offered == s.offered + [pid] && s4.taken == s.taken && s4.published == s.published + 1;
    OneStep(s, t, 6);
    OneStep(s1, t, 5);
    OneStep(s2, t, 4);
    OneStep(s3, t, 3);
    SoloUnlock(s4, t, None);
  }

  lemma SoloUnlock(s: System, t: nat, answer: Option<Int32>)
    requires s.Pc(t) == Unlock(answer)
    ensures Steps(s, t, 1).Pc(t) == Notify(answer)
    ensures Completed(s, Steps(s, t, 2), t, s.mem.(lock := 0), [], []) && Steps(s, t, 2).published == s.published
  {
    OneStep(s, t, 1);
    OneStep(s, t, 2);
    OneStep(StepOf(s, t), t, 1);
  }

  /** Five steps to find the queue empty, seven to take a pid. */
  function DequeueSteps(m: Shared): nat { if m.head >= m.tail then 5 else 7 }

  function TakenBy(m: Shared): seq<Int32> { if m.head >= m.tail then [] else [Front(m)] }

  /** The last step but one leaves the answer. */
  lemma SoloDequeue(s: System, t: nat)
    requires s.Pc(t) == TryLock(Dequeue) && s.mem.lock == 0
    ensures var n := DequeueSteps(s.mem);
            && Steps(s, t, n - 1).Pc(t) == Notify(Some(Front(s.mem)))
            && Completed(s, Steps(s, t, n), t, Dequeued(s.mem), [], TakenBy(s.mem))
            && Steps(s, t, n).published == s.published
  {
    var n := DequeueSteps(s.mem);
    var s1 := StepOf(s, t);
    var s2 := StepOf(s1, t);
    var s3 := StepOf(s2, t);
    OneStep(s, t, n);
    OneStep(s1, t, n - 1);
    OneStep(s2, t, n - 2);
    OneStep(s, t, n - 1);
    OneStep(s1, t, n - 2);
    OneStep(s2, t, n - 3);
    assert s3.mem == s.mem.(lock := 1) && s3.offered == s.offered && s3.taken == s.taken && s3.published == s.published;
    if n == 5 {
      SoloUnlock(s3, t, Some(-1));
    } else {
      SoloTake(s3, t, s.mem);
    }
  }

  lemma SoloTake(s: System, t: nat, m: Shared)
    requires s.Pc(t) == LoadSlot(m.head) && s.mem == m.(lock := 1) && m.lock == 0 && m.head < m.tail
    ensures Steps(s, t, 3).Pc(t) == Notify(Some(Front(m)))
    ensures Completed(s, Steps(s, t, 4), t, Dequeued(m), [], [Front(m)]) && Steps(s, t, 4).published == s.published
  {
    var s1 := StepOf(s, t);
    var s2 := StepOf(s1, t);
    OneStep(s, t, 3);
    OneStep(s1, t, 2);
    OneStep(s, t, 4);
    OneStep(s1, t, 3);
    assert s2.Pc(t) == Unlock(Some(Front(m)));
    SoloUnlock(s2, t, Some(Front(m)));
  }

  // ---- The code ----

  /** The first of several looks at memory that finds the lock free. */
  function FirstFree(moments: seq<Shared>): (k: nat)
    ensures k <= |moments|
    ensures k < |moments| ==> moments[k].lock == 0
    ensures forall i :: 0 <= i < k ==> moments[i].lock != 0
  {
    if moments == [] || moments[0].lock == 0 then 0 else 1 + FirstFree(moments[1..])
  }

  class Runtime {
    var lock: Int32
    var head: Int32
    var tail: Int32
    const ring: array<Int32>

    function Memory(): Shared
      reads this, ring
    {
      Shared(lock, head, tail, ring[..])
    }

    constructor ()
      ensures fresh(ring) && ring.Length == SLOTS
      ensures lock == head == tail == 0 && forall i :: 0 <= i < SLOTS ==> ring[i] == 0
    {
      lock, head, tail := 0, 0, 0;
      ring := new Int32[SLOTS](_ => 0);
    }

    /** Other threads run until memory is `m`. */
    method OthersRun(m: Shared)
      requires |m.ring| == ring.Length
      modifies this, ring
      ensures Memory() == m
    {
      lock, head, tail := m.lock, m.head, m.tail;
      forall i | 0 <= i < ring.Length {
        ring[i] := m.ring[i];
      }
    }

    /** One compare-exchange. */
    method TryLockWord() returns (success: bool)
      modifies this`lock
      ensures success <==> old(lock) == 0
      ensures lock == if success then 1 else old(lock)
    {
      success := lock == 0;
      if success {
        lock := 1;
      }
    }

    /**
     Lock by trying again and again; `moments[i]` is what memory is at try number `i`.
     From the successful try on nobody else changes memory, by `SmpRuntime.MutualExclusion`.
     */
    method Lock(moments: seq<Shared>) returns (success: bool)
      requires forall m <- moments :: |m.ring| == ring.Length
      modifies this, ring
      ensures success <==> FirstFree(moments) < |moments|
      ensures success ==> Memory() == moments[FirstFree(moments)].(lock := 1)
    {
      success := false;
      var i := 0;
      while i < |moments| && !success
        invariant 0 <= i <= |moments|
        invariant forall k :: 0 <= k < i && !(success && k == i - 1) ==> moments[k].lock != 0
        invariant success ==> i > 0 && moments[i - 1].lock == 0 && Memory() == moments[i - 1].(lock := 1)
      {
        OthersRun(moments[i]);
        success := TryLockWord();
        i := i + 1;
      }
      FirstFreeIs(moments, if success then i - 1 else i);
    }

    method EnqueueProcess(pid: Int32, moments: seq<Shared>) returns (done: bool)
      requires forall m <- moments :: |m.ring| == ring.Length
      modifies this, ring
      ensures done <==> FirstFree(moments) < |moments|
      ensures done ==> Memory() == Enqueued(moments[FirstFree(moments)], pid)
    {
      done := Lock(moments);
      if done {
        var t: int := tail;
        var i := Slot(t);
        if 0 <= i < ring.Length {
          ring[i] := pid;
        }
        tail := ToInt32(t + 1);
        lock := 0;
      }
    }

    method DequeueProcess(moments: seq<Shared>) returns (answer: Option<Int32>)
      requires forall m <- moments :: |m.ring| == ring.Length
      modifies this, ring
      ensures answer.Some? <==> FirstFree(moments) < |moments|
      ensures answer.Some? ==>
                && Memory() == Dequeued(moments[FirstFree(moments)])
                && answer.value == Front(moments[FirstFree(moments)])
    {
      var done := Lock(moments);
      if !done {
        return None;
      }
      var h: int, t: int := head, tail;
      if h >= t {
        lock := 0;
        return Some(-1);
      }
      var i := Slot(h);
      answer := Some(if 0 <= i < ring.Length then ring[i] else 0);
      head := ToInt32(h + 1);
      lock := 0;
    }
  }

  lemma FirstFreeIs(moments: seq<Shared>, k: nat)
    requires k <= |moments| && forall i :: 0 <= i < k ==> moments[i].lock != 0
    requires k == |moments| || moments[k].lock == 0
    ensures FirstFree(moments) == k
  {
  }

  // ---- Runs of one thread ----

  predicate Resting(s: System) { s.mem.lock == 0 && s.Pc(0) == Outside }

  lemma RunSnoc(s: System, schedule: seq<Label>, l: Label)
    ensures Run(s, schedule + [l]) == Next(Run(s, schedule), l)
  {
    assert (schedule + [l])[..|schedule + [l]| - 1] == schedule;
  }

  lemma {:induction false} StepsAreRun(s: System, schedule: seq<Label>, t: nat, n: nat) returns (longer: seq<Label>)
    ensures Run(s, longer) == Steps(Run(s, schedule), t, n)
    decreases n
  {
    longer := schedule;
    if n > 0 {
      RunSnoc(s, schedule, Step(t));
      longer := StepsAreRun(s, schedule + [Step(t)], t, n - 1);
    }
  }

  lemma EnqueueNext(s: System, schedule: seq<Label>, pid: Int32) returns (longer: seq<Label>)
    requires Resting(Run(s, schedule))
    ensures var e, n := Run(s, schedule), Run(s, longer);
            Completed(e, n, 0, Enqueued(e.mem, pid), [pid], []) && n.published == e.published + 1
  {
    RunSnoc(s, schedule, Call(0, Enqueue(pid)));
    longer := StepsAreRun(s, schedule + [Call(0, Enqueue(pid))], 0, 6);
    SoloEnqueue(Run(s, schedule + [Call(0, Enqueue(pid))]), 0, pid);
  }

  lemma DequeueNext(s: System, schedule: seq<Label>) returns (longer: seq<Label>)
    requires Resting(Run(s, schedule))
    ensures var e, n := Run(s, schedule), Run(s, longer);
            Completed(e, n, 0, Dequeued(e.mem), [], TakenBy(e.mem)) && n.published == e.published
  {
    RunSnoc(s, schedule, Call(0, Dequeue));
    longer := StepsAreRun(s, schedule + [Call(0, Dequeue)], 0, DequeueSteps(Run(s, schedule).mem));
    SoloDequeue(Run(s, schedule + [Call(0, Dequeue)]), 0);
  }

  /** Nothing taken, and the pids 0 to `n - 1` offered. */
  predicate Filled(e: System, n: nat) {
    && Resting(e) && e.mem.head == 0 && e.mem.tail == n == e.published
    && e.taken == [] && |e.offered| == n && forall i :: 0 <= i < n ==> e.offered[i] == i
  }

  lemma {:induction false} ManyEnqueues(s: System, n: nat) returns (schedule: seq<Label>)
    requires Initial(s) && n < 0x8000_0000
    ensures Filled(Run(s, schedule), n)
  {
    schedule := [];
    if n > 0 {
      var before := ManyEnqueues(s, n - 1);
      schedule := EnqueueNext(s, before, n - 1);
    }
  }

  /**
   The ring is never tested for being full.  One thread enqueues 0 to 256 and dequeues once: the
   answer is 256, the newest pid, while 0 was first.
   */
  lemma FullRingReorders(s: System) returns (schedule: seq<Label>)
    requires Initial(s)
    ensures var n := Run(s, schedule);
            n.taken == [256] && |n.offered| == SLOTS + 1 && n.offered[0] == 0 && !(n.taken <= n.offered)
  {
    var before := ManyEnqueues(s, SLOTS + 1);
    var e := Run(s, before);
    QueueRun(s, before);
    assert HolderInv(e, Outside);
    assert e.mem.ring[256 % SLOTS] == e.offered[256];
    schedule := DequeueNext(s, before);
  }

  /** As many pids taken as offered, and the counters at `n`. */
  predicate Level(e: System, n: nat) {
    Resting(e) && e.mem.head == e.mem.tail == n == e.published && |e.offered| == |e.taken| == n
  }

  lemma {:induction false} ManyPairs(s: System, n: nat) returns (schedule: seq<Label>)
    requires Initial(s) && n < 0x8000_0000
    ensures Level(Run(s, schedule), n)
  {
    schedule := [];
    if n > 0 {
      var before := ManyPairs(s, n - 1);
      schedule := EnqueueNext(s, before, 0);
      schedule := DequeueNext(s, schedule);
    }
  }

  /**
   The counter is never reset.  After 2^31 - 1 pids went in and out, one by one, the next one
   is offered, not taken, and a dequeue answers -1.
   */
  lemma WrapAnswersEmpty(s: System, pid: Int32) returns (schedule: seq<Label>)
    requires Initial(s)
    ensures var n := Run(s, schedule);
            && Resting(n) && |n.offered| == |n.taken| + 1 == 0x8000_0000 && n.offered[|n.taken|] == pid
            && Front(n.mem) == -1 && Dequeued(n.mem) == n.mem
  {
    var before := ManyPairs(s, 0x7FFF_FFFF);
    schedule := EnqueueNext(s, before, pid);
    assert ToInt32(0x8000_0000) == -0x8000_0000;
  }
}
