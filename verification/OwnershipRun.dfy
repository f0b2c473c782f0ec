/**
 One run of two threads on an address space, so that the theorems about all runs are not about an empty
 set of them: a retirement begins, a clone is refused meanwhile, and the retirement finishes.
 */
module OwnershipRun {
  import opened Wrappers
  import opened OwnershipSpec
  import opened OwnershipMachine

  function OneSpace(): Machine { Machine(map[OwnerWord(0) := 1], map[]) }

  /** What there is to see: the owner word, where the two threads are, and the calls so far. */
  datatype View = View(word: nat, pcs: seq<Pc>, calls: seq<Entry>)

  predicate Looks(m: Machine, v: View) {
    && |v.pcs| == 2 && m.mem == map[OwnerWord(0) := v.word] && m.Pc(0) == v.pcs[0] && m.Pc(1) == v.pcs[1]
  }

  predicate Reached(schedule: seq<Label>, v: View) {
    Looks(Run(OneSpace(), schedule), v) && History(OneSpace(), schedule) == v.calls
  }

  lemma RunSnoc(m: Machine, schedule: seq<Label>, l: Label)
    ensures Run(m, schedule + [l]) == Next(Run(m, schedule), l)
    ensures History(m, schedule + [l]) == History(m, schedule) + TakesEffect(Run(m, schedule), l)
  {
    assert (schedule + [l])[..|schedule + [l]| - 1] == schedule;
  }

  lemma Calls(schedule: seq<Label>, v: View, t: nat, op: Op) returns (longer: seq<Label>)
    requires Reached(schedule, v) && t < 2 && v.pcs[t].Idle? && Target(op) == OwnerWord(0)
    ensures Reached(longer, v.(pcs := v.pcs[t := Called(op)]))
  {
    RunSnoc(OneSpace(), schedule, Call(t, op));
    longer := schedule + [Call(t, op)];
  }

  lemma TakesOneAccess(schedule: seq<Label>, v: View, t: nat, op: Op) returns (longer: seq<Label>)
    requires Reached(schedule, v) && t < 2 && v.pcs[t] == Called(op) && Target(op) == OwnerWord(0) && !Retries(op)
    ensures var d := Decide(op, v.word);
            Reached(longer, View(ApplyVerdict(v.word, d), v.pcs[t := Done(op, d.result)],
                                 v.calls + [Entry(t, op, d.result)]))
  {
    RunSnoc(OneSpace(), schedule, Step(t, false));
    longer := schedule + [Step(t, false)];
    var m, d := Run(OneSpace(), schedule), Decide(op, v.word);
    assert Next(m, Step(t, false)).Pc(t) == Done(op, d.result);
    assert m.mem[OwnerWord(0) := ApplyVerdict(v.word, d)] == map[OwnerWord(0) := ApplyVerdict(v.word, d)];
  }

  lemma LoadsAnswer(schedule: seq<Label>, v: View, t: nat, op: Op) returns (longer: seq<Label>)
    requires Reached(schedule, v) && t < 2 && v.pcs[t] == Called(op) && Target(op) == OwnerWord(0) && Retries(op)
    requires Decide(op, v.word).Answer?
    ensures var r := Decide(op, v.word).result;
            Reached(longer, v.(pcs := v.pcs[t := Looping(op, v.word)], calls := v.calls + [Entry(t, op, r)]))
  {
    RunSnoc(OneSpace(), schedule, Step(t, false));
    longer := schedule + [Step(t, false)];
    assert Next(Run(OneSpace(), schedule), Step(t, false)).Pc(t) == Looping(op, v.word);
  }

  lemma Answers(schedule: seq<Label>, v: View, t: nat, op: Op) returns (longer: seq<Label>)
    requires Reached(schedule, v) && t < 2 && v.pcs[t] == Looping(op, v.word) && Decide(op, v.word).Answer?
    ensures Reached(longer, v.(pcs := v.pcs[t := Done(op, Decide(op, v.word).result)]))
  {
    RunSnoc(OneSpace(), schedule, Step(t, false));
    longer := schedule + [Step(t, false)];
    assert TakesEffect(Run(OneSpace(), schedule), Step(t, false)) == [];
  }

  lemma Returns(schedule: seq<Label>, v: View, t: nat) returns (longer: seq<Label>)
    requires Reached(schedule, v) && t < 2 && v.pcs[t].Done?
    ensures Reached(longer, v.(pcs := v.pcs[t := Idle]))
  {
    RunSnoc(OneSpace(), schedule, Return(t));
    longer := schedule + [Return(t)];
  }

  /** A call of one access. */
  lemma SingleCall(schedule: seq<Label>, v: View, op: Op, word: nat, r: Result) returns (longer: seq<Label>)
    requires Reached(schedule, v) && v.pcs == [Idle, Idle] && Target(op) == OwnerWord(0) && !Retries(op)
    requires r == Decide(op, v.word).result && word == ApplyVerdict(v.word, Decide(op, v.word))
    ensures Reached(longer, View(word, [Idle, Idle], v.calls + [Entry(0, op, r)]))
  {
    longer := Calls(schedule, v, 0, op);
    var v1 := v.(pcs := v.pcs[0 := Called(op)]);
    longer := TakesOneAccess(longer, v1, 0, op);
    var v2 := View(word, v1.pcs[0 := Done(op, r)], v.calls + [Entry(0, op, r)]);
    longer := Returns(longer, v2, 0);
    assert v2.pcs[0 := Idle] == [Idle, Idle];
  }

  /** A call of thread 1 that loads the word and finds nothing to change. */
  lemma AnsweredCall(schedule: seq<Label>, v: View, op: Op, r: Result) returns (longer: seq<Label>)
    requires Reached(schedule, v) && v.pcs == [Idle, Idle] && Target(op) == OwnerWord(0) && Retries(op)
    requires Decide(op, v.word) == Answer(r)
    ensures Reached(longer, View(v.word, [Idle, Idle], v.calls + [Entry(1, op, r)]))
  {
    longer := Calls(schedule, v, 1, op);
    var v1 := v.(pcs := v.pcs[1 := Called(op)]);
    longer := LoadsAnswer(longer, v1, 1, op);
    var v2 := View(v.word, v1.pcs[1 := Looping(op, v.word)], v.calls + [Entry(1, op, r)]);
    longer := Answers(longer, v2, 1, op);
    var v3 := v2.(pcs := v2.pcs[1 := Done(op, r)]);
    longer := Returns(longer, v3, 1);
    assert v3.pcs[1 := Idle] == [Idle, Idle];
  }

  /** Begin, a refused clone, finish. */
  lemma CloneRefused() returns (schedule: seq<Label>)
    ensures Initial(OneSpace()) && Run(OneSpace(), schedule).mem == map[OwnerWord(0) := 0]
    ensures History(OneSpace(), schedule) ==
              [Entry(0, BeginRetirement(0), Began), Entry(1, TryRetain(0), ReleasedError),
               Entry(0, FinishRetirement(0), Finished)]
  {
    var begun, refused := Entry(0, BeginRetirement(0), Began), Entry(1, TryRetain(0), ReleasedError);
    RetiringBitOfWord(RETIRING_BIT + 1);
    schedule := SingleCall([], View(1, [Idle, Idle], []), BeginRetirement(0), RETIRING_BIT + 1, Began);
    assert [] + [begun] == [begun];
    schedule := AnsweredCall(schedule, View(RETIRING_BIT + 1, [Idle, Idle], [begun]), TryRetain(0), ReleasedError);
    schedule := SingleCall(schedule, View(RETIRING_BIT + 1, [Idle, Idle], [begun, refused]),
                           FinishRetirement(0), 0, Finished);
  }
}
