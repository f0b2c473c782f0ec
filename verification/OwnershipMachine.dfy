/**
 Any number of threads calling the operations of `frame_ownership_chirho.rs`
 concurrently.  Every atomic access is one step, and a weak compare-exchange
 may fail spuriously.  A schedule is an arbitrary sequence of labels; a label
 that does not apply in the current state changes nothing, so the theorems below
 hold for every schedule without a side condition.
 */
module OwnershipMachine {
  import opened Wrappers
  import opened OwnershipSpec

  /** Where a thread is: outside, before its first access, at the loop head with
      the word it observed, or about to return. */
  datatype Pc =
    | Idle
    | Called(op: Op)
    | Looping(op: Op, observed: nat)
    | Done(op: Op, result: Result)

  datatype Machine = Machine(mem: map<Addr, nat>, threads: map<nat, Pc>) {
    function Pc(t: nat): Pc { if t in threads then threads[t] else Idle }
    function At(t: nat, pc: Pc): Machine { this.(threads := threads[t := pc]) }
  }

  datatype Label = Call(thread: nat, op: Op) | Step(thread: nat, spurious: bool) | Return(thread: nat)

  /** The code path of one access by `t`. */
  function Access(m: Machine, t: nat, spurious: bool): Machine {
    match m.Pc(t)
    case Idle => m
    case Done(_, _) => m
    case Called(op) =>
      if Target(op) !in m.mem then m.At(t, Done(op, Absent(op)))
      else if Retries(op) then m.At(t, Looping(op, m.mem[Target(op)]))
      else
        var v := Decide(op, m.mem[Target(op)]);
        m.(mem := m.mem[Target(op) := ApplyVerdict(m.mem[Target(op)], v)]).At(t, Done(op, v.result))
    case Looping(op, observed) =>
      var v := Decide(op, observed);
      if v.Answer? || Target(op) !in m.mem then m.At(t, Done(op, v.result))
      else if !spurious && m.mem[Target(op)] == observed then
        m.(mem := m.mem[Target(op) := v.word]).At(t, Done(op, v.result))
      else m.At(t, Looping(op, m.mem[Target(op)]))
  }

  /** A caller holds a handle on an address space, so its record exists. */
  predicate CanCall(m: Machine, t: nat, op: Op) {
    m.Pc(t).Idle? && (IsFrameOp(op) || Target(op) in m.mem)
  }

  function Next(m: Machine, l: Label): Machine {
    match l
    case Call(t, op) => if CanCall(m, t, op) then m.At(t, Called(op)) else m
    case Step(t, spurious) => Access(m, t, spurious)
    case Return(t) => if m.Pc(t).Done? then m.At(t, Idle) else m
  }

  function Run(m: Machine, schedule: seq<Label>): Machine {
    if schedule == [] then m
    else Next(Run(m, schedule[..|schedule| - 1]), schedule[|schedule| - 1])
  }

  predicate Initial(m: Machine) {
    && (forall t <- m.threads :: m.threads[t].Idle?)
    && (forall a <- m.mem :: WordOk(a, m.mem[a]))
  }

  // ---- The sequential object all runs are compared with ----

  datatype Entry = Entry(thread: nat, op: Op, result: Result)

  datatype MemReply = MemReply(cells: map<Addr, Cell>, result: Result)

  function Cells(mem: map<Addr, nat>): map<Addr, Cell> { map a | a in mem :: CellOf(a, mem[a]) }

  function AtomicOnMemory(op: Op, cells: map<Addr, Cell>): MemReply {
    if Target(op) !in cells then MemReply(cells, Absent(op))
    else
      var reply := AtomicCall(op, cells[Target(op)]);
      MemReply(cells[Target(op) := reply.cell], reply.result)
  }

  /** The object after running the calls of `h` one at a time. */
  function After(cells: map<Addr, Cell>, h: seq<Entry>): map<Addr, Cell> {
    if h == [] then cells
    else AtomicOnMemory(h[|h| - 1].op, After(cells, h[..|h| - 1])).cells
  }

  /** Every call of `h`, run alone and in that order, gives the recorded result. */
  predicate Legal(cells: map<Addr, Cell>, h: seq<Entry>) {
    h != [] ==>
      && Legal(cells, h[..|h| - 1])
      && AtomicOnMemory(h[|h| - 1].op, After(cells, h[..|h| - 1])).result == h[|h| - 1].result
  }

  // ---- Linearization ----

  /** The result a thread is already bound to return. */
  function Decided(m: Machine, t: nat): Option<Entry> {
    match m.Pc(t)
    case Done(op, r) => Some(Entry(t, op, r))
    case Looping(op, observed) =>
      var v := Decide(op, observed);
      if v.Answer? then Some(Entry(t, op, v.result)) else None
    case _ => None
  }

  function AsSeq<T>(o: Option<T>): seq<T> { if o.Some? then [o.value] else [] }

  /** The call that takes effect at a label: the one whose result becomes decided there. */
  function TakesEffect(m: Machine, l: Label): seq<Entry> {
    if l.Step? && Decided(m, l.thread).None? then AsSeq(Decided(Next(m, l), l.thread)) else []
  }

  /** The calls of a run, in the order in which they took effect. */
  function History(m: Machine, schedule: seq<Label>): seq<Entry> {
    if schedule == [] then []
    else
      var before := schedule[..|schedule| - 1];
      History(m, before) + TakesEffect(Run(m, before), schedule[|schedule| - 1])
  }

  /** What thread `t` got back from its completed calls, in order. */
  function Responses(m: Machine, schedule: seq<Label>, t: nat): seq<Entry> {
    if schedule == [] then []
    else
      var before := schedule[..|schedule| - 1];
      var l := schedule[|schedule| - 1];
      Responses(m, before, t)
      + if l == Return(t) && Run(m, before).Pc(t).Done? then AsSeq(Decided(Run(m, before), t)) else []
  }

  function Project(h: seq<Entry>, t: nat): seq<Entry> {
    if h == [] then []
    else Project(h[..|h| - 1], t) + if h[|h| - 1].thread == t then [h[|h| - 1]] else []
  }

  /** Words stay encodable, and every observed word belongs to an existing slot. */
  predicate Inv(m: Machine) {
    && (forall a <- m.mem :: WordOk(a, m.mem[a]))
    && (forall t <- m.threads :: m.threads[t].Looping? ==>
          Target(m.threads[t].op) in m.mem && WordOk(Target(m.threads[t].op), m.threads[t].observed))
    && (forall t <- m.threads :: m.threads[t].Called? ==>
          IsFrameOp(m.threads[t].op) || Target(m.threads[t].op) in m.mem)
  }

  lemma InvStep(m: Machine, l: Label)
    requires Inv(m)
    ensures Inv(Next(m, l)) && Next(m, l).mem.Keys == m.mem.Keys
  {
    if l.Step? {
      match m.Pc(l.thread)
      case Called(op) => if Target(op) in m.mem { DecideRefines(op, m.mem[Target(op)]); }
      case Looping(op, observed) => DecideRefines(op, observed);
      case _ =>
    }
  }

  lemma {:induction false} InvRun(m: Machine, schedule: seq<Label>)
    requires Initial(m)
    ensures Inv(Run(m, schedule)) && Run(m, schedule).mem.Keys == m.mem.Keys
  {
    if schedule != [] {
      InvRun(m, schedule[..|schedule| - 1]);
      InvStep(Run(m, schedule[..|schedule| - 1]), schedule[|schedule| - 1]);
    }
  }

  /** One step: memory changes exactly as the calls that take effect say. */
  lemma StepIsAtomic(m: Machine, l: Label)
    requires Inv(m)
    ensures var e := TakesEffect(m, l);
            if e == [] then Next(m, l).mem == m.mem
            else AtomicOnMemory(e[0].op, Cells(m.mem)) == MemReply(Cells(Next(m, l).mem), e[0].result)
                 && e[0].thread == l.thread
  {
    if l.Step? {
      var t := l.thread;
      match m.Pc(t)
      case Called(op) =>
        if Target(op) in m.mem { ObservedAnswer(m.mem, op); }
      case Looping(op, observed) =>
        var v := Decide(op, observed);
        if v.Swap? { ObservedAnswer(m.mem, op); }
      case _ =>
    }
  }

  /** A decision taken on the current word is the atomic call. */
  lemma ObservedAnswer(mem: map<Addr, nat>, op: Op)
    requires Target(op) in mem && WordOk(Target(op), mem[Target(op)])
    ensures var v := Decide(op, mem[Target(op)]);
            AtomicOnMemory(op, Cells(mem))
            == MemReply(Cells(mem[Target(op) := ApplyVerdict(mem[Target(op)], v)]), v.result)
    ensures Decide(op, mem[Target(op)]).Answer? ==> mem[Target(op) := mem[Target(op)]] == mem
  {
    var a := Target(op);
    DecideRefines(op, mem[a]);
    var v := Decide(op, mem[a]);
    assert AtomicOnMemory(op, Cells(mem)).cells == Cells(mem[a := ApplyVerdict(mem[a], v)]);
  }

  /**
   Linearizability.  In every interleaving there is one order of the calls,
   `History`, such that running the calls one at a time in that order gives the
   same results and the same memory; and each thread's own calls appear in it once
   each, after the call started and before it returned (at every prefix of the run
   the history holds the thread's responses plus, at most, its decided call).
   */
  lemma {:induction false} Linearizable(m: Machine, schedule: seq<Label>)
    requires Initial(m)
    ensures Legal(Cells(m.mem), History(m, schedule))
    ensures After(Cells(m.mem), History(m, schedule)) == Cells(Run(m, schedule).mem)
  {
    if schedule != [] {
      var before, l := schedule[..|schedule| - 1], schedule[|schedule| - 1];
      Linearizable(m, before);
      InvRun(m, before);
      StepIsAtomic(Run(m, before), l);
      var h := History(m, before);
      var e := TakesEffect(Run(m, before), l);
      if e != [] {
        assert (h + e)[..|h + e| - 1] == h;
      } else {
        assert h + e == h;
      }
    }
  }

  /** How a label changes what thread `t` is bound to return. */
  lemma DecidedStep(m: Machine, l: Label, t: nat)
    ensures var now, later := Decided(m, t), Decided(Next(m, l), t);
            if now.None? then
              later == if l.Step? && l.thread == t && TakesEffect(m, l) != [] then Some(TakesEffect(m, l)[0]) else None
            else later == if l == Return(t) && m.Pc(t).Done? then None else now
    ensures TakesEffect(m, l) != [] ==>
              |TakesEffect(m, l)| == 1 && l.Step? && TakesEffect(m, l)[0].thread == l.thread
              && Decided(m, l.thread).None?
              && (m.Pc(l.thread) == Called(TakesEffect(m, l)[0].op)
                  || (m.Pc(l.thread).Looping? && m.Pc(l.thread).op == TakesEffect(m, l)[0].op))
  {
    if l.thread != t { assert Next(m, l).Pc(t) == m.Pc(t); }
  }

  lemma ProjectAppend(h: seq<Entry>, e: seq<Entry>, t: nat)
    requires |e| <= 1
    ensures Project(h + e, t) == Project(h, t) + if e != [] && e[0].thread == t then e else []
  {
    if e == [] {
      assert h + e == h;
    } else {
      assert (h + e)[..|h + e| - 1] == h;
      assert e == [e[0]];
    }
  }

  /** One label, for a thread whose calls in the history are `p` and whose responses are `r`. */
  lemma ResponseStep(m: Machine, l: Label, t: nat, p: seq<Entry>, r: seq<Entry>)
    requires p == r + AsSeq(Decided(m, t))
    ensures var e := TakesEffect(m, l);
            p + (if e != [] && e[0].thread == t then e else [])
            == r + (if l == Return(t) && m.Pc(t).Done? then AsSeq(Decided(m, t)) else [])
               + AsSeq(Decided(Next(m, l), t))
  {
    DecidedStep(m, l, t);
  }

  lemma {:induction false} ResponsesAreHistory(m: Machine, schedule: seq<Label>, t: nat)
    requires Initial(m)
    ensures Project(History(m, schedule), t)
            == Responses(m, schedule, t) + AsSeq(Decided(Run(m, schedule), t))
  {
    if schedule != [] {
      var before, l := schedule[..|schedule| - 1], schedule[|schedule| - 1];
      ResponsesAreHistory(m, before, t);
      ResponseStep(Run(m, before), l, t, Project(History(m, before), t), Responses(m, before, t));
      ProjectAppend(History(m, before), TakesEffect(Run(m, before), l), t);
    }
  }

  /** `k` is an instant of thread `t`'s present call at which the atomic object gives `e`. */
  ghost predicate TookEffectAt(m: Machine, schedule: seq<Label>, k: nat, t: nat, e: Entry) {
    && k < |schedule|
    && var m0 := Run(m, schedule[..k]);
    && Decided(m0, t).None?
    && (m0.Pc(t) == Called(e.op) || (m0.Pc(t).Looping? && m0.Pc(t).op == e.op))
    && AtomicOnMemory(e.op, Cells(m0.mem)) == MemReply(Cells(Run(m, schedule[..k + 1]).mem), e.result)
    && StaysDecided(m, schedule, k, t, e)
  }

  /** From step `k` on the thread never leaves the call that took effect there. */
  ghost predicate StaysDecided(m: Machine, schedule: seq<Label>, k: nat, t: nat, e: Entry) {
    forall j :: k < j <= |schedule| ==> Decided(Run(m, schedule[..j]), t) == Some(e)
  }

  /** Whatever a thread is bound to return is what an atomic call would have
      returned at one instant during that very call. */
  lemma {:induction false} DecidedTookEffect(m: Machine, schedule: seq<Label>, t: nat) returns (k: nat)
    requires Initial(m)
    requires Decided(Run(m, schedule), t).Some?
    ensures TookEffectAt(m, schedule, k, t, Decided(Run(m, schedule), t).value)
  {
    if schedule == [] {
      assert false;
    } else {
      var n := |schedule| - 1;
      var before, l := schedule[..n], schedule[n];
      var e := Decided(Run(m, schedule), t).value;
      DecidedStep(Run(m, before), l, t);
      assert schedule[..n + 1] == schedule;
      if Decided(Run(m, before), t).Some? {
        k := DecidedTookEffect(m, before, t);
        TookEffectExtends(m, schedule, k, t, e);
      } else {
        InvRun(m, before);
        StepIsAtomic(Run(m, before), l);
        k := n;
      }
    }
  }

  lemma TookEffectExtends(m: Machine, schedule: seq<Label>, k: nat, t: nat, e: Entry)
    requires schedule != [] && TookEffectAt(m, schedule[..|schedule| - 1], k, t, e)
    requires Decided(Run(m, schedule), t) == Some(e)
    ensures TookEffectAt(m, schedule, k, t, e)
  {
    var before := schedule[..|schedule| - 1];
    StaysDecidedExtend(m, schedule, k, t, e);
    assert before[..k] == schedule[..k] && before[..k + 1] == schedule[..k + 1];
  }

  lemma StaysDecidedExtend(m: Machine, schedule: seq<Label>, k: nat, t: nat, e: Entry)
    requires schedule != [] && StaysDecided(m, schedule[..|schedule| - 1], k, t, e)
    requires Decided(Run(m, schedule), t) == Some(e)
    ensures StaysDecided(m, schedule, k, t, e)
  {
    var before := schedule[..|schedule| - 1];
    forall j | k < j <= |schedule|
      ensures Decided(Run(m, schedule[..j]), t) == Some(e)
    {
      if j < |schedule| {
        assert schedule[..j] == before[..j];
      } else {
        assert schedule[..j] == schedule;
      }
    }
  }
}
