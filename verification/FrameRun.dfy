/**
 One run of the page tables and the frame allocator, from boot to boot: the theorems about all runs
 are not about an empty set of them.
 */
module FrameRun {
  import opened OwnershipSpec
  import opened OwnershipMachine
  import opened FrameLifecycle

  /** What there is to see of a kernel with one managed frame, number 0, and two threads. */
  datatype View = View(
    count: nat, entries: map<nat, nat>, doomed: map<nat, nat>, spent: set<nat>, free: set<nat>,
    hands: seq<Hand>, pcs: seq<Pc>)

  predicate Looks(k: Kernel, v: View) {
    && |v.hands| == |v.pcs| == 2
    && k.m.mem == map[FrameSlot(0) := v.count] && v.count <= 2
    && k.entries == v.entries && k.doomed == v.doomed && k.spent == v.spent && k.free == v.free
    && k.hands.Keys <= {0, 1}
    && (forall t: nat :: t < 2 ==> k.Hand(t) == v.hands[t] && k.m.Pc(t) == v.pcs[t])
  }

  function OneFrame(): Kernel { Kernel(Machine(map[FrameSlot(0) := 0], map[]), map[], map[], map[], {}, {0}) }

  /** The run so far, and how it looks. */
  predicate Reached(events: seq<Event>, v: View) { Looks(Life(OneFrame(), events), v) }

  lemma LifeSnoc(k: Kernel, events: seq<Event>, e: Event)
    ensures Life(k, events + [e]) == Happen(Life(k, events), e)
  {
    assert (events + [e])[..|events + [e]| - 1] == events;
  }

  lemma Taken(k: Kernel, v: View)
    requires Looks(k, v) && v.hands[0].Empty? && v.pcs[0].Idle? && 0 in v.free
    ensures Looks(Happen(k, Take(0, 0)), v.(hands := v.hands[0 := Fresh(0)], free := v.free - {0}))
  {
  }

  lemma Shared(k: Kernel, v: View, p: nat)
    requires Looks(k, v) && v.hands[1].Empty? && v.pcs[1].Idle? && p in v.entries
    ensures Looks(Happen(k, Share(1, p)), v.(hands := v.hands[1 := Sharing(p, v.entries[p])]))
  {
  }

  lemma NotLocked(k: Kernel, v: View, p: nat)
    requires Looks(k, v) && forall u :: 0 <= u < 2 ==> !v.hands[u].Sharing?
    ensures !Locked(k, p)
  {
    forall t | t in k.hands
      ensures !k.hands[t].Sharing?
    {
      assert t < 2 && k.Hand(t) == v.hands[t];
    }
  }

  lemma Installed(k: Kernel, v: View, t: nat, p: nat)
    requires Looks(k, v) && t < 2 && v.hands[t] == Token(0) && v.pcs[t].Idle? && p !in v.entries
    requires forall u :: 0 <= u < 2 ==> !v.hands[u].Sharing?
    ensures Looks(Happen(k, Install(t, p)), v.(entries := v.entries[p := 0], hands := v.hands[t := Empty]))
  {
    NotLocked(k, v, p);
  }

  lemma Removed(k: Kernel, v: View, t: nat, p: nat)
    requires Looks(k, v) && t < 2 && v.hands[t].Empty? && v.pcs[t].Idle? && p in v.entries
    requires forall u :: 0 <= u < 2 ==> !v.hands[u].Sharing?
    ensures Looks(Happen(k, Remove(t, p)), v.(entries := v.entries - {p}, hands := v.hands[t := Owed(v.entries[p])]))
  {
    NotLocked(k, v, p);
  }

  lemma Retired(k: Kernel, v: View, t: nat, p: nat)
    requires Looks(k, v) && t < 2 && v.hands[t].Empty? && v.pcs[t].Idle? && v.entries.Keys == {p} && v.doomed == map[]
    requires forall u :: 0 <= u < 2 ==> !v.hands[u].Sharing?
    ensures Looks(Happen(k, Retire(t, {p})), v.(entries := map[], doomed := v.entries))
  {
    NotLocked(k, v, p);
    assert v.entries - {p} == map[] && v.doomed + Restricted(v.entries, {p}) == v.entries;
  }

  lemma LeafReleased(k: Kernel, v: View, t: nat, p: nat)
    requires Looks(k, v) && t < 2 && v.hands[t].Empty? && v.pcs[t].Idle? && p in v.doomed
    ensures Looks(Happen(k, ReleaseLeaf(t, p)), v.(doomed := v.doomed - {p}, hands := v.hands[t := Owed(v.doomed[p])]))
  {
  }

  lemma Freed(k: Kernel, v: View)
    requires Looks(k, v) && 0 in v.spent
    ensures Looks(Happen(k, Free(1, 0)), v.(spent := v.spent - {0}, free := v.free + {0}))
  {
  }

  lemma Started(k: Kernel, v: View, t: nat)
    requires Looks(k, v) && t < 2 && v.pcs[t].Idle? && !v.hands[t].Empty? && !v.hands[t].Token? && v.hands[t].frame == 0
    ensures v.hands[t].Owed? ==>
              Looks(Happen(k, StartRelease(t)), v.(pcs := v.pcs[t := Called(ReleaseMapping(0))]))
    ensures !v.hands[t].Owed? ==>
              Looks(Happen(k, StartRetain(t)), v.(pcs := v.pcs[t := Called(RetainMapping(0))]))
  {
  }

  lemma Loaded(k: Kernel, v: View, t: nat)
    requires Looks(k, v) && t < 2 && v.pcs[t].Called? && v.pcs[t].op in {RetainMapping(0), ReleaseMapping(0)}
    ensures Looks(Happen(k, Access(t, false)), v.(pcs := v.pcs[t := Looping(v.pcs[t].op, v.count)]))
  {
  }

  lemma SwappedUp(k: Kernel, v: View, t: nat)
    requires Looks(k, v) && t < 2 && v.pcs[t] == Looping(RetainMapping(0), v.count) && v.count < 2
    ensures Looks(Happen(k, Access(t, false)),
                  v.(count := v.count + 1, pcs := v.pcs[t := Done(RetainMapping(0), Managed(v.count + 1))]))
  {
  }

  lemma SwappedDown(k: Kernel, v: View, t: nat)
    requires Looks(k, v) && t < 2
    ensures v.pcs[t] == Looping(ReleaseMapping(0), v.count) && v.count == 2 ==>
              Looks(Happen(k, Access(t, false)),
                    v.(count := 1, pcs := v.pcs[t := Done(ReleaseMapping(0), StillReferenced(1))]))
    ensures v.pcs[t] == Looping(ReleaseMapping(0), v.count) && v.count == 1 ==>
              Looks(Happen(k, Access(t, false)),
                    v.(count := 0, pcs := v.pcs[t := Done(ReleaseMapping(0), LastReference)]))
  {
  }

  lemma FinishedRetain(k: Kernel, v: View, t: nat)
    requires Looks(k, v) && t < 2 && v.pcs[t].Done? && v.pcs[t].op == RetainMapping(0) && v.pcs[t].result.Managed?
    ensures Looks(Happen(k, Finish(t)), v.(hands := v.hands[t := Token(0)], pcs := v.pcs[t := Idle]))
  {
  }

  lemma FinishedRelease(k: Kernel, v: View, t: nat)
    requires Looks(k, v) && t < 2 && v.pcs[t].Done? && v.pcs[t].op == ReleaseMapping(0)
    ensures Looks(Happen(k, Finish(t)),
                  v.(hands := v.hands[t := Empty], pcs := v.pcs[t := Idle],
                     spent := if v.pcs[t].result.LastReference? then v.spent + {0} else v.spent))
  {
  }

  lemma Starts(es: seq<Event>, v: View, t: nat, op: Op) returns (longer: seq<Event>)
    requires Reached(es, v) && t < 2 && v.pcs[t].Idle?
    requires !v.hands[t].Empty? && !v.hands[t].Token? && v.hands[t].frame == 0
    requires op == if v.hands[t].Owed? then ReleaseMapping(0) else RetainMapping(0)
    ensures Reached(longer, v.(pcs := v.pcs[t := Called(op)]))
  {
    var e := if v.hands[t].Owed? then StartRelease(t) else StartRetain(t);
    LifeSnoc(OneFrame(), es, e);
    Started(Life(OneFrame(), es), v, t);
    longer := es + [e];
  }

  lemma Loads(es: seq<Event>, v: View, t: nat, op: Op) returns (longer: seq<Event>)
    requires Reached(es, v) && t < 2 && v.pcs[t] == Called(op) && op in {RetainMapping(0), ReleaseMapping(0)}
    ensures Reached(longer, v.(pcs := v.pcs[t := Looping(op, v.count)]))
  {
    LifeSnoc(OneFrame(), es, Access(t, false));
    Loaded(Life(OneFrame(), es), v, t);
    longer := es + [Access(t, false)];
  }

  lemma Swaps(es: seq<Event>, v: View, t: nat, op: Op, count: nat, r: Result) returns (longer: seq<Event>)
    requires Reached(es, v) && t < 2 && v.pcs[t] == Looping(op, v.count)
    requires if op == RetainMapping(0) then v.count < 2 && count == v.count + 1 && r == Managed(count)
             else op == ReleaseMapping(0) && v.count == count + 1
                  && r == if count == 0 then LastReference else StillReferenced(count)
    ensures Reached(longer, v.(count := count, pcs := v.pcs[t := Done(op, r)]))
  {
    LifeSnoc(OneFrame(), es, Access(t, false));
    if op == RetainMapping(0) {
      SwappedUp(Life(OneFrame(), es), v, t);
    } else {
      SwappedDown(Life(OneFrame(), es), v, t);
    }
    longer := es + [Access(t, false)];
  }

  lemma Returns(es: seq<Event>, v: View, t: nat, hand: Hand, spent: set<nat>) returns (longer: seq<Event>)
    requires Reached(es, v) && t < 2 && v.pcs[t].Done?
    requires if v.pcs[t].op == RetainMapping(0) then v.pcs[t].result.Managed? && hand == Token(0) && spent == v.spent
             else v.pcs[t].op == ReleaseMapping(0) && hand == Empty
                  && spent == if v.pcs[t].result.LastReference? then v.spent + {0} else v.spent
    ensures Reached(longer, v.(hands := v.hands[t := hand], pcs := v.pcs[t := Idle], spent := spent))
  {
    LifeSnoc(OneFrame(), es, Finish(t));
    if v.pcs[t].op == RetainMapping(0) {
      FinishedRetain(Life(OneFrame(), es), v, t);
    } else {
      FinishedRelease(Life(OneFrame(), es), v, t);
    }
    longer := es + [Finish(t)];
  }

  /** A whole call by thread `t`. */
  lemma WholeCall(es: seq<Event>, v: View, t: nat, op: Op, count: nat, r: Result, hand: Hand, spent: set<nat>)
    returns (longer: seq<Event>)
    requires Reached(es, v) && t < 2 && v.pcs[t].Idle?
    requires !v.hands[t].Empty? && !v.hands[t].Token? && v.hands[t].frame == 0
    requires op == if v.hands[t].Owed? then ReleaseMapping(0) else RetainMapping(0)
    requires if op.RetainMapping? then v.count < 2 && count == v.count + 1 && r == Managed(count)
             else v.count == count + 1 && r == if count == 0 then LastReference else StillReferenced(count)
    requires hand == (if op.RetainMapping? then Token(0) else Empty)
    requires spent == if op.ReleaseMapping? && count == 0 then v.spent + {0} else v.spent
    ensures Reached(longer, v.(count := count, hands := v.hands[t := hand], spent := spent))
  {
    longer := Starts(es, v, t, op);
    var v1 := v.(pcs := v.pcs[t := Called(op)]);
    longer := Loads(longer, v1, t, op);
    var v2 := v1.(pcs := v1.pcs[t := Looping(op, v.count)]);
    longer := Swaps(longer, v2, t, op, count, r);
    var v3 := v2.(count := count, pcs := v2.pcs[t := Done(op, r)]);
    longer := Returns(longer, v3, t, hand, spent);
    assert v3.pcs[t := Idle] == v.pcs;
  }

  lemma WholeRetain(es: seq<Event>, v: View, t: nat) returns (longer: seq<Event>)
    requires Reached(es, v) && t < 2 && v.pcs[t].Idle? && (v.hands[t].Fresh? || v.hands[t].Sharing?)
    requires v.hands[t].frame == 0 && v.count < 2
    ensures Reached(longer, v.(count := v.count + 1, hands := v.hands[t := Token(0)]))
  {
    longer := WholeCall(es, v, t, RetainMapping(0), v.count + 1, Managed(v.count + 1), Token(0), v.spent);
  }

  lemma WholeRelease(es: seq<Event>, v: View, t: nat) returns (longer: seq<Event>)
    requires Reached(es, v) && t < 2 && v.pcs[t].Idle? && v.hands[t] == Owed(0) && v.count > 0
    ensures Reached(longer, v.(count := v.count - 1, hands := v.hands[t := Empty],
                               spent := if v.count == 1 then v.spent + {0} else v.spent))
  {
    var r := if v.count == 1 then LastReference else StillReferenced(v.count - 1);
    longer := WholeCall(es, v, t, ReleaseMapping(0), v.count - 1, r, Empty,
                        if v.count == 1 then v.spent + {0} else v.spent);
  }

  /** How it looks with both threads outside any call and empty-handed. */
  function Calm(count: nat, entries: map<nat, nat>, free: set<nat>): View {
    View(count, entries, map[], {}, free, [Empty, Empty], [Idle, Idle])
  }

  /** Mapped by thread 0 at page 5. */
  lemma Mapped() returns (es: seq<Event>)
    ensures Reached(es, Calm(1, map[5 := 0], {}))
  {
    var v := Calm(0, map[], {0});
    assert Life(OneFrame(), []) == OneFrame();
    LifeSnoc(OneFrame(), [], Take(0, 0));
    Taken(OneFrame(), v);
    var v1 := v.(hands := [Fresh(0), Empty], free := {});
    assert v.hands[0 := Fresh(0)] == v1.hands && v.free - {0} == {};
    es := WholeRetain([] + [Take(0, 0)], v1, 0);
    var v2 := v1.(count := 1, hands := v1.hands[0 := Token(0)]);
    LifeSnoc(OneFrame(), es, Install(0, 5));
    Installed(Life(OneFrame(), es), v2, 0, 5);
    es := es + [Install(0, 5)];
    assert v2.hands[0 := Empty] == [Empty, Empty] && map[][5 := 0] == map[5 := 0];
  }

  /** Copied by thread 1, as fork does, to page 6. */
  lemma Copied(before: seq<Event>) returns (es: seq<Event>)
    requires Reached(before, Calm(1, map[5 := 0], {}))
    ensures Reached(es, Calm(2, map[5 := 0, 6 := 0], {}))
  {
    var v := Calm(1, map[5 := 0], {});
    LifeSnoc(OneFrame(), before, Share(1, 5));
    Shared(Life(OneFrame(), before), v, 5);
    var v1 := v.(hands := v.hands[1 := Sharing(5, 0)]);
    es := WholeRetain(before + [Share(1, 5)], v1, 1);
    var v2 := v1.(count := 2, hands := v1.hands[1 := Token(0)]);
    LifeSnoc(OneFrame(), es, Install(1, 6));
    Installed(Life(OneFrame(), es), v2, 1, 6);
    es := es + [Install(1, 6)];
    assert v2.hands[1 := Empty] == [Empty, Empty] && map[5 := 0][6 := 0] == map[5 := 0, 6 := 0];
  }

  /** Unmapped by thread 0 at page 5. */
  lemma Unmapped(before: seq<Event>) returns (es: seq<Event>)
    requires Reached(before, Calm(2, map[5 := 0, 6 := 0], {}))
    ensures Reached(es, Calm(1, map[6 := 0], {}))
  {
    var v := Calm(2, map[5 := 0, 6 := 0], {});
    LifeSnoc(OneFrame(), before, Remove(0, 5));
    Removed(Life(OneFrame(), before), v, 0, 5);
    var v1 := v.(entries := map[6 := 0], hands := v.hands[0 := Owed(0)]);
    assert v.entries - {5} == map[6 := 0];
    es := WholeRelease(before + [Remove(0, 5)], v1, 0);
    assert v1.hands[0 := Empty] == [Empty, Empty];
  }

  /** The other address space exits: first its tree goes out of use. */
  lemma OutOfUse(before: seq<Event>) returns (es: seq<Event>)
    requires Reached(before, Calm(1, map[6 := 0], {}))
    ensures Reached(es, Calm(1, map[], {}).(doomed := map[6 := 0]))
  {
    LifeSnoc(OneFrame(), before, Retire(1, {6}));
    Retired(Life(OneFrame(), before), Calm(1, map[6 := 0], {}), 1, 6);
    es := before + [Retire(1, {6})];
  }

  /** Then its leaf is released, and the frame freed. */
  lemma Exited(before: seq<Event>) returns (es: seq<Event>)
    requires Reached(before, Calm(1, map[], {}).(doomed := map[6 := 0]))
    ensures Reached(es, Calm(0, map[], {0}))
  {
    var v := Calm(1, map[], {}).(doomed := map[6 := 0]);
    LifeSnoc(OneFrame(), before, ReleaseLeaf(1, 6));
    LeafReleased(Life(OneFrame(), before), v, 1, 6);
    var v1 := v.(doomed := map[], hands := v.hands[1 := Owed(0)]);
    assert v.doomed - {6} == map[];
    es := WholeRelease(before + [ReleaseLeaf(1, 6)], v1, 1);
    var v2 := v1.(count := 0, hands := v1.hands[1 := Empty], spent := {0});
    assert {} + {0} == {0};
    LifeSnoc(OneFrame(), es, Free(1, 0));
    Freed(Life(OneFrame(), es), v2);
    es := es + [Free(1, 0)];
    assert v2.hands == [Empty, Empty] && {0} - {0} == {};
  }

  /**
   The life of one frame from boot: mapped, shared by fork, unmapped once, and released by the exit of
   the other address space, which frees it.  The count follows the entries all the way.
   */
  lemma OneLife() returns (shared: seq<Event>, whole: seq<Event>)
    ensures Boot(OneFrame())
    ensures var n := Life(OneFrame(), shared);
            n.m.mem == map[FrameSlot(0) := 2] && n.entries == map[5 := 0, 6 := 0] && n.free == {}
    ensures var n := Life(OneFrame(), whole);
            n.m.mem == map[FrameSlot(0) := 0] && n.entries == map[] == n.doomed && n.free == {0} && n.spent == {}
  {
    var mapped := Mapped();
    shared := Copied(mapped);
    var once := Unmapped(shared);
    var retired := OutOfUse(once);
    whole := Exited(retired);
  }
}
