/**
 Page tables and the frame allocator as clients of the frame table, over every
 interleaving of mapping, fork, copy-on-write, unmap and exit.

 The discipline is the one of the kernel's page-table code: a frame is retained before a
 leaf entry to it is installed and released after the entry is removed; it comes either
 from the allocator (`Take`) or from an entry that fork is copying and that nobody else
 may change meanwhile (`Share`); it returns to the allocator on `LastReference`.  Exit takes
 the whole tree out of use in one step (`Retire`), which leaves its words in place; then it
 releases them one by one (`ReleaseLeaf`), and only afterwards frees the frames that were
 released last (`Free`).
 */
module FrameLifecycle {
  import opened Wrappers
  import opened OwnershipSpec
  import opened OwnershipMachine
  import opened OwnershipTheorems

  /** What a thread is carrying between two page-table writes. */
  datatype Hand =
    | Empty
    | Fresh(frame: nat)                   // taken from the allocator, not retained yet
    | Sharing(page: nat, frame: nat)      // copying the entry at `page`, not retained yet
    | Token(frame: nat)                   // retained, not installed yet
    | Owed(frame: nat)                    // removed, not released yet

  /** `entries` are the leaf entries in use, `doomed` those of retired trees that are not released yet,
      `spent` the frames released last and not freed yet. */
  datatype Kernel = Kernel(
    m: Machine, entries: map<nat, nat>, doomed: map<nat, nat>, hands: map<nat, Hand>, spent: set<nat>, free: set<nat>) {
    function Hand(t: nat): Hand { if t in hands then hands[t] else Empty }
    function Holding(t: nat, h: Hand): Kernel { this.(hands := hands[t := h]) }
    predicate Managed(f: nat) { FrameSlot(f) in m.mem && m.mem[FrameSlot(f)] != UNMANAGED }
    function Count(f: nat): nat requires FrameSlot(f) in m.mem { m.mem[FrameSlot(f)] }
  }

  datatype Event =
    | Take(thread: nat, frame: nat)
    | Share(thread: nat, page: nat)
    | StartRetain(thread: nat)
    | Install(thread: nat, page: nat)
    | Drop(thread: nat)
    | Remove(thread: nat, page: nat)
    | Retire(thread: nat, pages: set<nat>)
    | ReleaseLeaf(thread: nat, page: nat)
    | StartRelease(thread: nat)
    | Access(thread: nat, spurious: bool)
    | Finish(thread: nat)
    | Free(thread: nat, frame: nat)

  predicate Locked(k: Kernel, page: nat) {
    exists t <- k.hands :: k.hands[t].Sharing? && k.hands[t].page == page
  }

  function Restricted(m: map<nat, nat>, ps: set<nat>): map<nat, nat> { map p | p in m && p in ps :: m[p] }

  /** What the caller does with the result of its call. */
  function AfterCall(k: Kernel, t: nat, op: Op, r: Result): Kernel {
    var k' := k.(m := Next(k.m, Return(t)));
    if op.RetainMapping? then
      if r.RetainOverflow? then
        k'.Holding(t, Empty).(free := if k.Hand(t).Fresh? then k.free + {op.frame} else k.free)
      else k'.Holding(t, Token(op.frame))
    else if op.ReleaseMapping? then
      k'.Holding(t, Empty).(spent := if r.LastReference? then k.spent + {op.frame} else k.spent)
    else k'
  }

  function Happen(k: Kernel, e: Event): Kernel {
    var h := k.Hand(e.thread);
    var idle := k.m.Pc(e.thread).Idle?;
    match e
    case Take(t, f) =>
      if h.Empty? && idle && (f in k.free || !k.Managed(f)) then k.Holding(t, Fresh(f)).(free := k.free - {f}) else k
    case Share(t, p) =>
      if h.Empty? && idle && p in k.entries then k.Holding(t, Sharing(p, k.entries[p])) else k
    case StartRetain(t) =>
      if (h.Fresh? || h.Sharing?) && idle then k.(m := Next(k.m, Call(t, RetainMapping(h.frame)))) else k
    case Install(t, p) =>
      if h.Token? && idle && !Locked(k, p) then
        k.(entries := k.entries[p := h.frame]).Holding(t, if p in k.entries then Owed(k.entries[p]) else Empty)
      else k
    case Drop(t) => if h.Token? && idle then k.Holding(t, Owed(h.frame)) else k
    case Remove(t, p) =>
      if h.Empty? && idle && p in k.entries && !Locked(k, p) then
        k.(entries := k.entries - {p}).Holding(t, Owed(k.entries[p]))
      else k
    case Retire(t, ps) =>
      if h.Empty? && idle && ps <= k.entries.Keys && ps !! k.doomed.Keys && (forall p <- ps :: !Locked(k, p)) then
        k.(entries := k.entries - ps, doomed := k.doomed + Restricted(k.entries, ps)).Holding(t, Empty)
      else k
    case ReleaseLeaf(t, p) =>
      if h.Empty? && idle && p in k.doomed then
        k.(doomed := k.doomed - {p}).Holding(t, Owed(k.doomed[p]))
      else k
    case StartRelease(t) =>
      if h.Owed? && idle then k.(m := Next(k.m, Call(t, ReleaseMapping(h.frame)))) else k
    case Access(t, spurious) => k.(m := Next(k.m, Step(t, spurious)))
    case Finish(t) =>
      if k.m.Pc(t).Done? then AfterCall(k, t, k.m.Pc(t).op, k.m.Pc(t).result) else k
    case Free(t, f) =>
      if f in k.spent then k.(spent := k.spent - {f}, free := k.free + {f}) else k
  }

  function Life(k: Kernel, events: seq<Event>): Kernel {
    if events == [] then k else Happen(Life(k, events[..|events| - 1]), events[|events| - 1])
  }

  /** At boot: no entries, nobody carries anything, all managed frames are free and unreferenced. */
  ghost predicate Boot(k: Kernel) {
    && k.entries == map[] && k.doomed == map[] && k.hands == map[] && k.spent == {} && k.m.threads == map[]
    && Initial(k.m)
    && (forall f: nat :: f in k.free <==> k.Managed(f))
    && (forall f: nat :: k.Managed(f) ==> k.Count(f) == 0)
  }

  // ---- Who accounts for a reference ----

  function Flag(b: bool): nat { if b then 1 else 0 }

  function PagesOf(m: map<nat, nat>, f: nat): set<nat> { set p | p in m && m[p] == f }

  function Live(k: Kernel, f: nat): set<nat> { PagesOf(k.entries, f) }

  function Doomed(k: Kernel, f: nat): set<nat> { PagesOf(k.doomed, f) }

  /** The thread carries a counted reference. */
  predicate Holds(k: Kernel, t: nat, f: nat) {
    match k.Hand(t)
    case Token(g) => g == f
    case Owed(g) => g == f && !k.m.Pc(t).Done?
    case Fresh(g) => g == f && k.m.Pc(t).Done? && k.m.Pc(t).result.Managed?
    case Sharing(_, g) => g == f && k.m.Pc(t).Done? && k.m.Pc(t).result.Managed?
    case Empty => false
  }

  /** The thread alone disposes of an unreferenced frame: about to count it, or about to free it. */
  predicate Disposes(k: Kernel, t: nat, f: nat) {
    match k.Hand(t)
    case Fresh(g) => g == f && !k.m.Pc(t).Done?
    case Owed(g) => g == f && k.m.Pc(t).Done? && k.m.Pc(t).result.LastReference?
    case _ => false
  }

  function Holders(k: Kernel, f: nat): set<nat> { set t | t in k.hands && Holds(k, t, f) }

  function Disposers(k: Kernel, f: nat): set<nat> { set t | t in k.hands && Disposes(k, t, f) }

  /** References are entries, retired ones included, plus references in transit; a frame without references is
      free, about to be freed, or in one thread's hands, and only one of these. */
  predicate Accounted(k: Kernel, f: nat)
    requires FrameSlot(f) in k.m.mem
  {
    && k.Count(f) == |Live(k, f)| + |Doomed(k, f)| + |Holders(k, f)|
    && |Disposers(k, f)| + Flag(f in k.spent) + Flag(f in k.free) == Flag(k.Count(f) == 0)
  }

  /** A call on a device frame can only answer `Unmanaged`. */
  predicate DeviceCall(k: Kernel, pc: Pc, f: nat) {
    !k.Managed(f) ==> (pc.Done? ==> pc.result.Unmanaged?) && (pc.Looping? ==> pc.observed == UNMANAGED)
  }

  /** A thread's call is about the frame in its hand, and a release in progress never saw zero. */
  predicate Linked(k: Kernel, t: nat) {
    var pc := k.m.Pc(t);
    match k.Hand(t)
    case Empty => pc.Idle?
    case Token(_) => pc.Idle?
    case Fresh(f) =>
      pc.Idle? || (pc.op == RetainMapping(f) && DeviceCall(k, pc, f)
                   && (pc.Done? && k.Managed(f) ==> pc.result.Managed?)
                   && (pc.Looping? && k.Managed(f) ==> pc.observed == 0))
    case Sharing(p, f) =>
      && p in k.entries && k.entries[p] == f
      && (pc.Idle? || (pc.op == RetainMapping(f) && DeviceCall(k, pc, f)
                       && (pc.Done? && k.Managed(f) ==> pc.result.Managed? || pc.result.RetainOverflow?)
                       && (pc.Looping? && k.Managed(f) ==> 0 < pc.observed < UNMANAGED)))
    case Owed(f) =>
      pc.Idle? || (pc.op == ReleaseMapping(f) && DeviceCall(k, pc, f)
                   && (pc.Done? && k.Managed(f) ==> pc.result.StillReferenced? || pc.result.LastReference?)
                   && (pc.Looping? && k.Managed(f) ==> 0 < pc.observed < UNMANAGED))
  }

  ghost predicate Sound(k: Kernel) {
    && Inv(k.m)
    && (forall t: nat :: Linked(k, t))
    && (forall f: nat :: f in k.free || f in k.spent ==> k.Managed(f))
    && (forall f: nat :: k.Managed(f) ==> Accounted(k, f))
  }

  // ---- Preservation ----

  lemma SetChange(a: set<nat>, b: set<nat>, x: nat)
    requires forall u :: u != x ==> (u in a <==> u in b)
    ensures |b| == |a| - Flag(x in a) + Flag(x in b)
  {
    SetWithout(a, x);
    SetWithout(b, x);
    assert a - {x} == b - {x};
  }

  lemma SetWithout(a: set<nat>, x: nat)
    ensures |a| == |a - {x}| + Flag(x in a)
  {
  }

  /** Only thread `t` moved. */
  predicate SameOthers(k: Kernel, k': Kernel, t: nat) {
    && (forall u <- k.hands.Keys + k'.hands.Keys :: u != t ==> k'.Hand(u) == k.Hand(u))
    && (forall u <- k.m.threads.Keys + k'.m.threads.Keys :: u != t ==> k'.m.Pc(u) == k.m.Pc(u))
  }

  lemma ThreadMoves(k: Kernel, k': Kernel, t: nat, f: nat)
    requires SameOthers(k, k', t)
    ensures |Holders(k', f)| == |Holders(k, f)| - Flag(Holds(k, t, f)) + Flag(Holds(k', t, f))
    ensures |Disposers(k', f)| == |Disposers(k, f)| - Flag(Disposes(k, t, f)) + Flag(Disposes(k', t, f))
  {
    forall u | u != t
      ensures k'.Hand(u) == k.Hand(u) && k'.m.Pc(u) == k.m.Pc(u)
    {
      if u in k.hands.Keys + k'.hands.Keys {}
      if u in k.m.threads.Keys + k'.m.threads.Keys {}
    }
    SetChange(Holders(k, f), Holders(k', f), t);
    SetChange(Disposers(k, f), Disposers(k', f), t);
  }

  lemma PageMoves(m: map<nat, nat>, m': map<nat, nat>, p: nat, f: nat)
    requires forall q <- m.Keys + m'.Keys :: q != p ==> q in m && q in m' && m[q] == m'[q]
    ensures |PagesOf(m', f)| == |PagesOf(m, f)| - Flag(p in m && m[p] == f) + Flag(p in m' && m'[p] == f)
  {
    forall q | q != p
      ensures q in PagesOf(m, f) <==> q in PagesOf(m', f)
    {
      if q in m.Keys + m'.Keys {}
    }
    SetChange(PagesOf(m, f), PagesOf(m', f), p);
  }

  /** Retiring a tree turns live entries into doomed ones. */
  lemma RetireMoves(entries: map<nat, nat>, doomed: map<nat, nat>, ps: set<nat>, f: nat)
    requires ps <= entries.Keys && ps !! doomed.Keys
    ensures |PagesOf(entries, f)| + |PagesOf(doomed, f)|
         == |PagesOf(entries - ps, f)| + |PagesOf(doomed + Restricted(entries, ps), f)|
  {
    var moved := Restricted(entries, ps);
    assert entries == (entries - ps) + moved;
    TwoParts(entries, entries - ps, moved, f);
    TwoParts(doomed + moved, doomed, moved, f);
  }

  lemma TwoParts(m: map<nat, nat>, m1: map<nat, nat>, m2: map<nat, nat>, f: nat)
    requires m1.Keys !! m2.Keys && m == m1 + m2
    ensures |PagesOf(m, f)| == |PagesOf(m1, f)| + |PagesOf(m2, f)|
  {
    assert PagesOf(m, f) == PagesOf(m1, f) + PagesOf(m2, f);
  }

  /** A thread that accounts for a reference or for a frame without references pins the count. */
  lemma Pins(k: Kernel, t: nat, f: nat)
    requires k.Managed(f) && Accounted(k, f)
    ensures Holds(k, t, f) ==> k.Count(f) > 0
    ensures Disposes(k, t, f) ==> k.Count(f) == 0 && f !in k.free && f !in k.spent
    ensures f in k.free || f in k.spent ==> k.Count(f) == 0
    ensures (exists p <- k.entries :: k.entries[p] == f) ==> k.Count(f) > 0
    ensures (exists p <- k.doomed :: k.doomed[p] == f) ==> k.Count(f) > 0
    ensures forall u :: Disposes(k, t, f) && Disposes(k, u, f) ==> u == t
  {
    if Holds(k, t, f) { assert t in Holders(k, f); }
    if Disposes(k, t, f) { assert t in Disposers(k, f); }
    if p: nat :| p in k.entries && k.entries[p] == f { assert p in Live(k, f); }
    if p: nat :| p in k.doomed && k.doomed[p] == f { assert p in Doomed(k, f); }
    forall u | Disposes(k, t, f) && Disposes(k, u, f) && u != t
      ensures false
    {
      assert {t, u} <= Disposers(k, f);
      SubsetSize({t, u}, Disposers(k, f));
    }
  }

  lemma SubsetSize(a: set<nat>, b: set<nat>)
    requires a <= b
    ensures |a| <= |b|
  {
    assert b == a + (b - a);
  }

  /** Entries that fork is copying keep their frame. */
  predicate SharedKept(k: Kernel, k': Kernel) {
    forall u <- k.hands :: k.hands[u].Sharing? && k.hands[u].page in k.entries ==>
      k.hands[u].page in k'.entries && k'.entries[k.hands[u].page] == k.entries[k.hands[u].page]
  }

  ghost predicate SameManaged(k: Kernel, k': Kernel) { forall f: nat :: k'.Managed(f) == k.Managed(f) }

  lemma OthersStayLinked(k: Kernel, k': Kernel, t: nat)
    requires SameOthers(k, k', t) && SharedKept(k, k') && SameManaged(k, k')
    requires forall u: nat :: Linked(k, u)
    ensures forall u: nat :: u != t ==> Linked(k', u)
  {
    forall u: nat | u != t
      ensures Linked(k', u)
    {
      assert Linked(k, u);
      if u in k.hands.Keys + k'.hands.Keys {}
      if u in k.m.threads.Keys + k'.m.threads.Keys {}
    }
  }

  predicate OnlyHands(e: Event) {
    e.Take? || e.Share? || e.Install? || e.Drop? || e.Remove? || e.Retire? || e.ReleaseLeaf? || e.Free?
  }

  lemma HandAccounted(k: Kernel, e: Event, f: nat)
    requires OnlyHands(e) && Linked(k, e.thread) && k.Managed(f) && Accounted(k, f)
    requires SameOthers(k, Happen(k, e), e.thread)
    ensures Accounted(Happen(k, e), f)
  {
    var k' := Happen(k, e);
    ThreadMoves(k, k', e.thread, f);
    if k' != k {
      if e.Install? || e.Remove? {
        PageMoves(k.entries, k'.entries, e.page, f);
      } else if e.Retire? {
        RetireMoves(k.entries, k.doomed, e.pages, f);
      } else if e.ReleaseLeaf? {
        PageMoves(k.doomed, k'.doomed, e.page, f);
      }
    }
  }

  /** Page-table writes and allocations. */
  lemma HandEvent(k: Kernel, e: Event)
    requires Sound(k) && OnlyHands(e)
    ensures Sound(Happen(k, e))
  {
    var k' := Happen(k, e);
    if k' != k {
      assert Linked(k, e.thread);
      OthersStayLinked(k, k', e.thread);
      forall f: nat | k'.Managed(f)
        ensures Accounted(k', f)
      {
        HandAccounted(k, e, f);
      }
      assert Linked(k', e.thread);
    }
  }

  /** Entering a call touches no count. */
  lemma StartEvent(k: Kernel, e: Event)
    requires Sound(k) && (e.StartRetain? || e.StartRelease?)
    ensures Sound(Happen(k, e))
  {
    var k' := Happen(k, e);
    if k' != k {
      assert Linked(k, e.thread);
      OthersStayLinked(k, k', e.thread);
      forall f: nat | k'.Managed(f)
        ensures Accounted(k', f)
      {
        assert Accounted(k, f);
        ThreadMoves(k, k', e.thread, f);
        assert Live(k', f) == Live(k, f) && Doomed(k', f) == Doomed(k, f);
      }
      assert Linked(k', e.thread);
      InvStep(k.m, if e.StartRetain? then Call(e.thread, RetainMapping(k.Hand(e.thread).frame))
                   else Call(e.thread, ReleaseMapping(k.Hand(e.thread).frame)));
    }
  }

  lemma FinishAccounted(k: Kernel, e: Event, f: nat)
    requires e.Finish? && k.m.Pc(e.thread).Done? && Linked(k, e.thread) && k.Managed(f) && Accounted(k, f)
    requires SameOthers(k, Happen(k, e), e.thread)
    ensures Accounted(Happen(k, e), f)
  {
    var k', t := Happen(k, e), e.thread;
    Pins(k, t, f);
    ThreadMoves(k, k', t, f);
    assert Live(k', f) == Live(k, f) && Doomed(k', f) == Doomed(k, f);
  }

  /** What the caller holds after its call, and that no frame becomes or stops being managed. */
  lemma FinishLinked(k: Kernel, e: Event)
    requires Sound(k) && e.Finish? && k.m.Pc(e.thread).Done?
    ensures Linked(Happen(k, e), e.thread) && SameManaged(k, Happen(k, e))
    ensures forall f: nat :: f in Happen(k, e).free || f in Happen(k, e).spent ==> k.Managed(f)
  {
    assert Linked(k, e.thread);
  }

  /** Returning from a call: the reference is in the caller's hands, or the frame goes back to the allocator. */
  lemma FinishEvent(k: Kernel, e: Event)
    requires Sound(k) && e.Finish?
    ensures Sound(Happen(k, e))
  {
    var k' := Happen(k, e);
    var t := e.thread;
    if k.m.Pc(t).Done? {
      assert Linked(k, t);
      InvStep(k.m, Return(t));
      FinishLinked(k, e);
      OthersStayLinked(k, k', t);
      forall f: nat | k'.Managed(f)
        ensures Accounted(k', f)
      {
        FinishAccounted(k, e, f);
      }
    }
  }

  /** What one access does to the call of `t` and to the count of its frame. */
  lemma AccessOwnFrame(k: Kernel, e: Event)
    requires Sound(k) && e.Access?
    requires (k.m.Pc(e.thread).Called? || k.m.Pc(e.thread).Looping?) && !k.Hand(e.thread).Empty?
    requires k.Managed(k.Hand(e.thread).frame)
    ensures var k', t, g := Happen(k, e), e.thread, k.Hand(e.thread).frame;
            && k'.Managed(g) && Linked(k', t)
            && k'.Count(g) + Flag(Holds(k, t, g)) == k.Count(g) + Flag(Holds(k', t, g))
            && Flag(k.Count(g) == 0) + Flag(Disposes(k', t, g)) == Flag(k'.Count(g) == 0) + Flag(Disposes(k, t, g))
  {
    var t, g := e.thread, k.Hand(e.thread).frame;
    assert Linked(k, t);
    assert Accounted(k, g);
    Pins(k, t, g);
    if k.Hand(t).Sharing? { assert k.Hand(t).page in k.entries; }
    assert WordOk(FrameSlot(g), k.m.mem[FrameSlot(g)]);
  }

  lemma AccessDeviceFrame(k: Kernel, e: Event)
    requires Sound(k) && e.Access?
    requires (k.m.Pc(e.thread).Called? || k.m.Pc(e.thread).Looping?) && !k.Hand(e.thread).Empty?
    requires !k.Managed(k.Hand(e.thread).frame)
    ensures Linked(Happen(k, e), e.thread) && Happen(k, e).m.mem == k.m.mem
  {
    assert Linked(k, e.thread);
  }

  lemma AccessOtherFrames(k: Kernel, e: Event, f: nat)
    requires Sound(k) && e.Access? && (k.m.Pc(e.thread).Called? || k.m.Pc(e.thread).Looping?)
    requires !k.Hand(e.thread).Empty? && f != k.Hand(e.thread).frame && k.Managed(f)
    ensures var k', t := Happen(k, e), e.thread;
            && k'.Managed(f) && k'.Count(f) == k.Count(f)
            && !Holds(k, t, f) && !Holds(k', t, f) && !Disposes(k, t, f) && !Disposes(k', t, f)
  {
    assert Linked(k, e.thread);
  }

  lemma AccessAccounted(k: Kernel, e: Event, f: nat)
    requires Sound(k) && e.Access? && (k.m.Pc(e.thread).Called? || k.m.Pc(e.thread).Looping?)
    requires !k.Hand(e.thread).Empty? && k.Managed(f) && Happen(k, e).Managed(f)
    requires SameOthers(k, Happen(k, e), e.thread)
    ensures Accounted(Happen(k, e), f)
  {
    var k' := Happen(k, e);
    assert Accounted(k, f);
    ThreadMoves(k, k', e.thread, f);
    assert Live(k', f) == Live(k, f) && Doomed(k', f) == Doomed(k, f);
    if f != k.Hand(e.thread).frame { AccessOtherFrames(k, e, f); } else { AccessOwnFrame(k, e); }
  }

  /** One access of a call in progress. */
  lemma AccessEvent(k: Kernel, e: Event)
    requires Sound(k) && e.Access?
    ensures Sound(Happen(k, e))
  {
    var k' := Happen(k, e);
    var t := e.thread;
    if k.m.Pc(t).Called? || k.m.Pc(t).Looping? {
      assert Linked(k, t);
      var g := k.Hand(t).frame;
      InvStep(k.m, Step(t, e.spurious));
      AccessManaged(k, e);
      OthersStayLinked(k, k', t);
      if k.Managed(g) { AccessOwnFrame(k, e); } else { AccessDeviceFrame(k, e); }
      forall f: nat | k'.Managed(f)
        ensures Accounted(k', f)
      {
        AccessAccounted(k, e, f);
      }
    } else {
      assert k' == k;
    }
  }

  /** An access changes at most the count of its own frame, and never whether a frame is managed. */
  lemma AccessManaged(k: Kernel, e: Event)
    requires Sound(k) && e.Access?
    requires k.m.Pc(e.thread).Called? || k.m.Pc(e.thread).Looping?
    ensures SameManaged(k, Happen(k, e))
  {
    var pc, m' := k.m.Pc(e.thread), Happen(k, e).m;
    assert Linked(k, e.thread);
    forall f: nat
      ensures Happen(k, e).Managed(f) == k.Managed(f)
    {
      if f == pc.op.frame && FrameSlot(f) in k.m.mem {
        assert WordOk(FrameSlot(f), k.m.mem[FrameSlot(f)]);
      }
    }
  }

  lemma {:induction false} LifeIsSound(k: Kernel, events: seq<Event>)
    requires Boot(k)
    ensures Sound(Life(k, events))
  {
    if events == [] {
      forall f: nat | k.Managed(f)
        ensures Accounted(k, f)
      {
        assert Live(k, f) == {} && Doomed(k, f) == {} && Holders(k, f) == {} && Disposers(k, f) == {};
      }
    } else {
      var before, e := Life(k, events[..|events| - 1]), events[|events| - 1];
      LifeIsSound(k, events[..|events| - 1]);
      if OnlyHands(e) {
        HandEvent(before, e);
      } else if e.Access? {
        AccessEvent(before, e);
      } else if e.Finish? {
        FinishEvent(before, e);
      } else {
        StartEvent(before, e);
      }
    }
  }

  // ---- Theorems ----

  /** No thread carries or calls about frame `f`. */
  ghost predicate Quiet(k: Kernel, f: nat) {
    forall t: nat :: k.Hand(t).Empty? || k.Hand(t).frame != f
  }

  /**
   Over every run the count of a managed frame bounds the live entries that map it,
   and equals their number whenever no thread is in the middle of anything with that frame.
   */
  lemma CountBoundsLiveEntries(k: Kernel, events: seq<Event>, f: nat)
    requires Boot(k) && k.Managed(f)
    ensures var n := Life(k, events);
            && n.Managed(f)
            && |Live(n, f)| <= n.Count(f)
            && (Quiet(n, f) && Doomed(n, f) == {} ==> |Live(n, f)| == n.Count(f))
  {
    LifeIsSound(k, events);
    ManagedForever(k, events, f);
    var n := Life(k, events);
    assert Accounted(n, f);
    if Quiet(n, f) {
      assert Holders(n, f) == {};
    }
  }

  lemma ManagedStep(k: Kernel, e: Event)
    requires Sound(k)
    ensures SameManaged(k, Happen(k, e))
  {
    if e.Access? && (k.m.Pc(e.thread).Called? || k.m.Pc(e.thread).Looping?) {
      AccessManaged(k, e);
    }
  }

  lemma {:induction false} ManagedForever(k: Kernel, events: seq<Event>, f: nat)
    requires Boot(k)
    ensures Life(k, events).Managed(f) == k.Managed(f)
  {
    if events != [] {
      var before, e := Life(k, events[..|events| - 1]), events[|events| - 1];
      ManagedForever(k, events[..|events| - 1], f);
      LifeIsSound(k, events[..|events| - 1]);
      ManagedStep(before, e);
    }
  }

  /** No frame on the allocator's free list is mapped, counted or carried by any thread. */
  lemma FreeFramesAreUnmapped(k: Kernel, events: seq<Event>, f: nat)
    requires Boot(k) && f in Life(k, events).free
    ensures var n := Life(k, events);
            && n.Managed(f) && n.Count(f) == 0 && f !in n.spent && Live(n, f) == {} && Doomed(n, f) == {}
            && (forall t: nat :: !Holds(n, t, f) && !Disposes(n, t, f))
  {
    LifeIsSound(k, events);
    var n := Life(k, events);
    assert Accounted(n, f);
    forall t: nat
      ensures !Holds(n, t, f) && !Disposes(n, t, f)
    {
      Pins(n, t, f);
    }
    Pins(n, 0, f);
  }

  /**
   A release never underflows, and a thread that is answered `LastReference` is the only one
   so answered for this trip to zero: no entry maps the frame, nobody else carries it, and
   it is not free yet, so the frame is freed once and never while mapped.
   */
  lemma LastReferenceIsExclusive(k: Kernel, events: seq<Event>, t: nat, f: nat)
    requires Boot(k) && k.Managed(f)
    requires Life(k, events).m.Pc(t).Done? && Life(k, events).m.Pc(t).op == ReleaseMapping(f)
    ensures var n := Life(k, events);
            && n.Managed(f) && !n.m.Pc(t).result.ReleaseUnderflow?
            && (n.m.Pc(t).result.LastReference? ==>
                  && n.Count(f) == 0 && f !in n.free && f !in n.spent && Live(n, f) == {} && Doomed(n, f) == {}
                  && (forall u: nat :: u != t ==> !Holds(n, u, f) && !Disposes(n, u, f)))
  {
    LifeIsSound(k, events);
    ManagedForever(k, events, f);
    var n := Life(k, events);
    assert Linked(n, t) && Accounted(n, f);
    if n.m.Pc(t).result.LastReference? {
      Pins(n, t, f);
      forall u: nat | u != t
        ensures !Holds(n, u, f) && !Disposes(n, u, f)
      {
        Pins(n, u, f);
      }
    }
  }

  /**
   Writing in place is safe: when copy-on-write reads a count of 1 for the frame of the entry it
   faulted on, no other entry maps the frame, no retired tree holds it and no thread carries a
   reference to it.
   */
  lemma SoleReference(k: Kernel, events: seq<Event>, p: nat, f: nat)
    requires Boot(k) && k.Managed(f)
    requires p in Life(k, events).entries && Life(k, events).entries[p] == f
    ensures var n := Life(k, events);
            && n.Managed(f)
            && (n.Count(f) == 1 <==> Live(n, f) == {p} && Doomed(n, f) == {} && Holders(n, f) == {})
            && (n.Count(f) == 1 ==> forall t: nat :: !Holds(n, t, f) && !Disposes(n, t, f))
  {
    LifeIsSound(k, events);
    ManagedForever(k, events, f);
    var n := Life(k, events);
    assert Accounted(n, f) && p in Live(n, f);
    SetWithout(Live(n, f), p);
    forall t: nat
      ensures Disposes(n, t, f) ==> n.Count(f) == 0
      ensures Holds(n, t, f) ==> t in Holders(n, f)
    {
      Pins(n, t, f);
    }
    if n.Count(f) == 1 {
      assert Live(n, f) - {p} == {};
      assert Live(n, f) == {p};
    }
  }

  /** The table's part in a lifecycle run is a run of the table. */
  lemma {:induction false} LifeIsRun(k: Kernel, events: seq<Event>) returns (schedule: seq<Label>)
    ensures Life(k, events).m == Run(k.m, schedule)
  {
    if events == [] {
      schedule := [];
    } else {
      var before, e := Life(k, events[..|events| - 1]), events[|events| - 1];
      schedule := LifeIsRun(k, events[..|events| - 1]);
      var l := TableLabel(before, e);
      if l.Some? {
        schedule := schedule + [l.value];
        assert schedule[..|schedule| - 1] + [l.value] == schedule;
      }
    }
  }

  /** What an event is to the table, if it touches it at all. */
  function TableLabel(k: Kernel, e: Event): (l: Option<Label>)
    ensures Happen(k, e).m == if l.Some? then Next(k.m, l.value) else k.m
  {
    var h := k.Hand(e.thread);
    match e
    case StartRetain(t) =>
      if (h.Fresh? || h.Sharing?) && k.m.Pc(t).Idle? then Some(Call(t, RetainMapping(h.frame))) else None
    case StartRelease(t) => if h.Owed? && k.m.Pc(t).Idle? then Some(Call(t, ReleaseMapping(h.frame))) else None
    case Access(t, spurious) => Some(Step(t, spurious))
    case Finish(t) => if k.m.Pc(t).Done? then Some(Return(t)) else None
    case _ => None
  }

  /**
   So lifecycle runs conserve references: the count of a frame is its retains minus its releases,
   and from boot on `LastReference` was answered exactly once per return to zero.
   */
  lemma LifeConserves(k: Kernel, events: seq<Event>, f: nat) returns (schedule: seq<Label>)
    requires Boot(k) && k.Managed(f)
    ensures Life(k, events).m == Run(k.m, schedule)
    ensures var h, n := History(k.m, schedule), Life(k, events);
            && n.Managed(f)
            && n.Count(f) == Tally(h, RetainsOf(f)) - Tally(h, ReleasesOf(f))
            && Tally(h, FirstsOf(f)) == Tally(h, LastsOf(f)) + Flag(n.Count(f) > 0)
  {
    schedule := LifeIsRun(k, events);
    ManagedForever(k, events, f);
    FrameConservation(k.m, schedule, f);
  }
}
