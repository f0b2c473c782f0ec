/** The epoll interest list as a map: what each operation does to it, and what every run keeps. */
module EpollTheorems {
  import opened EpollList

  // ---- Lists and maps ----

  lemma {:induction false} ViewAt(es: seq<Entry>, e: Entry)
    requires Distinct(es) && e in es
    ensures e.key in View(es) && View(es)[e.key] == e.watch
  {
    var n := |es| - 1;
    if e != es[n] {
      var j :| 0 <= j < |es| && es[j] == e;
      assert es[..n][j] == e && es[j].key != es[n].key;
      ViewAt(es[..n], e);
    }
  }

  /** Every watch of the view is some entry's. */
  lemma ViewSource(es: seq<Entry>, k: Key) returns (e: Entry)
    requires Distinct(es) && k in View(es)
    ensures e in es && e.key == k && e.watch == View(es)[k]
  {
    e :| e in es && e.key == k;
    ViewAt(es, e);
  }

  lemma ViewOf(es: seq<Entry>, m: map<Key, Watch>)
    requires Distinct(es)
    requires m.Keys == Keys(es) && forall e <- es :: e.key in m && m[e.key] == e.watch
    ensures View(es) == m
  {
    forall k | k in m
      ensures View(es)[k] == m[k]
    {
      var e := ViewSource(es, k);
    }
  }

  lemma {:induction false} DistinctConcat(a: seq<Entry>, b: seq<Entry>)
    ensures Distinct(a + b) <==> Distinct(a) && Distinct(b) && Keys(a) !! Keys(b)
    decreases |b|
  {
    if b == [] {
      assert a + b == a;
    } else {
      var n := |b| - 1;
      assert a + b == (a + b[..n]) + [b[n]] && b == b[..n] + [b[n]];
      DistinctConcat(a, b[..n]);
      DistinctSnoc(a + b[..n], b[n]);
      DistinctSnoc(b[..n], b[n]);
      assert Keys(b) == Keys(b[..n]) + {b[n].key};
    }
  }

  lemma KeysConcat(a: seq<Entry>, b: seq<Entry>)
    ensures Keys(a + b) == Keys(a) + Keys(b)
  {
  }

  lemma ConcatView(a: seq<Entry>, b: seq<Entry>)
    requires Distinct(a) && Distinct(b) && Keys(a) !! Keys(b)
    ensures Distinct(a + b) && View(a + b) == View(a) + View(b)
  {
    DistinctConcat(a, b);
    KeysConcat(a, b);
    var m := View(a) + View(b);
    forall e | e in a + b
      ensures e.key in m && m[e.key] == e.watch
    {
      if e in a {
        assert e.key in Keys(a);
        ViewAt(a, e);
      } else {
        ViewAt(b, e);
      }
    }
    ViewOf(a + b, m);
  }

  // ---- The operations on maps ----

  function Without(m: map<Key, Watch>, pid: nat): map<Key, Watch> { map k | k in m && k.pid != pid :: m[k] }

  /** The child's copy of the parent's watches. */
  function Copied(m: map<Key, Watch>, parent: nat, child: nat): map<Key, Watch> {
    map k | k in (set p <- m | p.pid == parent :: Key(child, p.epfd, p.fd)) :: m[Key(parent, k.epfd, k.fd)]
  }

  lemma FirstIsOnly(es: seq<Entry>, k: Key, w: Watch)
    requires Distinct(es) && FindFirst(es, k) < |es|
    ensures es[FindFirst(es, k) := Entry(k, w)] == Update(es, k, w) && k in View(es)
  {
  }

  lemma AddView(es: seq<Entry>, k: Key, w: Watch)
    requires Distinct(es)
    ensures Distinct(Add(es, k, w)) && View(Add(es, k, w)) == View(es)[k := w]
  {
    var i := FindFirst(es, k);
    if i < |es| {
      FirstIsOnly(es, k, w);
      ModView(es, k, w);
    } else {
      AppendView(es, Entry(k, w));
    }
  }

  lemma AppendView(es: seq<Entry>, e: Entry)
    requires Distinct(es) && FindFirst(es, e.key) == |es|
    ensures Distinct(es + [e]) && View(es + [e]) == View(es)[e.key := e.watch]
  {
    DistinctSnoc(es, e);
    KeysConcat(es, [e]);
    var m := View(es)[e.key := e.watch];
    forall d | d in es + [e]
      ensures d.key in m && m[d.key] == d.watch
    {
      if d in es {
        ViewAt(es, d);
      }
    }
    assert m.Keys == Keys(es) + Keys([e]);
    ViewOf(es + [e], m);
  }

  lemma UpdateKeys(es: seq<Entry>, k: Key, w: Watch)
    ensures Keys(Update(es, k, w)) == Keys(es)
  {
    var r := Update(es, k, w);
    forall key | key in Keys(es)
      ensures key in Keys(r)
    {
      var j :| 0 <= j < |es| && es[j].key == key;
      assert r[j] in r && r[j].key == key;
    }
    forall key | key in Keys(r)
      ensures key in Keys(es)
    {
      var j :| 0 <= j < |r| && r[j].key == key;
      assert es[j] in es && es[j].key == key;
    }
  }

  lemma ModView(es: seq<Entry>, k: Key, w: Watch)
    requires Distinct(es)
    ensures Distinct(Update(es, k, w))
    ensures View(Update(es, k, w)) == if k in View(es) then View(es)[k := w] else View(es)
  {
    var r := Update(es, k, w);
    var m := if k in View(es) then View(es)[k := w] else View(es);
    UpdateKeys(es, k, w);
    forall e | e in r
      ensures e.key in m && m[e.key] == e.watch
    {
      var j :| 0 <= j < |r| && r[j] == e;
      ViewAt(es, es[j]);
    }
    ViewOf(r, m);
  }

  /** Keeping some entries keeps their watches. */
  lemma KeptView(es: seq<Entry>, keep: Entry -> bool, m: map<Key, Watch>)
    requires Distinct(es) && m.Keys == Keys(Filter(es, keep))
    requires forall k <- m :: k in View(es) && m[k] == View(es)[k]
    ensures Distinct(Filter(es, keep)) && View(Filter(es, keep)) == m
  {
    FilterMembers(es, keep);
    forall e | e in Filter(es, keep)
      ensures e.key in m && m[e.key] == e.watch
    {
      ViewAt(es, e);
    }
    ViewOf(Filter(es, keep), m);
  }

  lemma DelView(es: seq<Entry>, k: Key)
    requires Distinct(es)
    ensures Distinct(Filter(es, NotKey(k))) && View(Filter(es, NotKey(k))) == View(es) - {k}
  {
    FilterMembers(es, NotKey(k));
    KeptView(es, NotKey(k), View(es) - {k});
  }

  /** Exit removes exactly the watches of that process. */
  lemma ExitView(es: seq<Entry>, pid: nat)
    requires Distinct(es)
    ensures Distinct(Filter(es, NotOwner(pid))) && View(Filter(es, NotOwner(pid))) == Without(View(es), pid)
  {
    FilterMembers(es, NotOwner(pid));
    KeptView(es, NotOwner(pid), Without(View(es), pid));
  }

  /** Some watch of the parent has a namesake among the child's. */
  predicate ForkClash(es: seq<Entry>, parent: nat, child: nat) {
    exists e <- es :: e.key.pid == parent && Moved(e, child).key in Keys(es)
  }

  /**
   Fork keeps the list a map if and only if the child owns no namesake of a parent's watch;
   then the child gets an equal copy and nothing else changes.
   */
  lemma ForkView(es: seq<Entry>, parent: nat, child: nat)
    requires Distinct(es)
    ensures Distinct(es + Inherited(es, parent, child)) <==> !ForkClash(es, parent, child)
    ensures !ForkClash(es, parent, child) ==>
              View(es + Inherited(es, parent, child)) == View(es) + Copied(View(es), parent, child)
  {
    var h := Inherited(es, parent, child);
    InheritedMembers(es, parent, child);
    DistinctConcat(es, h);
    forall e | e in es && e.key.pid == parent
      ensures Moved(e, child) in h
    {
      assert Moved(Moved(e, child), parent) == e;
    }
    forall e | e in h
      ensures Moved(e, parent) in es && Moved(Moved(e, parent), child) == e
    {
    }
    if !ForkClash(es, parent, child) {
      forall e | e in h
        ensures e.key !in Keys(es)
      {
        assert Moved(e, parent) in es;
      }
      CopiedView(es, h, parent, child);
      ConcatView(es, h);
    }
    if e :| e in es && e.key.pid == parent && Moved(e, child).key in Keys(es) {
      assert Moved(e, child).key in Keys(h);
    }
  }

  lemma CopiedView(es: seq<Entry>, h: seq<Entry>, parent: nat, child: nat)
    requires Distinct(es) && Distinct(h)
    requires forall e :: e in h <==> e.key.pid == child && Moved(e, parent) in es
    ensures View(h) == Copied(View(es), parent, child)
  {
    var m := Copied(View(es), parent, child);
    forall e | e in h
      ensures e.key in m && m[e.key] == e.watch
    {
      CopiedAt(es, Moved(e, parent), View(es), parent, child);
    }
    forall k | k in m
      ensures k in Keys(h)
    {
      var p :| p in View(es) && p.pid == parent && Key(child, p.epfd, p.fd) == k;
      var e := ViewSource(es, p);
      assert Moved(Moved(e, child), parent) == e;
      assert Moved(e, child) in h;
    }
    assert m.Keys == Keys(h);
    ViewOf(h, m);
  }

  /** One watch of the parent and its copy. */
  lemma CopiedAt(es: seq<Entry>, e: Entry, m: map<Key, Watch>, parent: nat, child: nat)
    requires Distinct(es) && e in es && e.key.pid == parent && m == View(es)
    ensures var k := Moved(e, child).key; k in Copied(m, parent, child) && Copied(m, parent, child)[k] == e.watch
  {
    ViewAt(es, e);
  }

  /** The owner already watches, under the new descriptor, something it watches elsewhere. */
  predicate CreateClash(es: seq<Entry>, pid: nat, epfd: int) {
    exists e <- es :: Seeds(e, pid, epfd) && Key(pid, epfd, e.key.fd) in Keys(es)
  }

  /** `m'` is `m` with one watch for the new descriptor per descriptor the owner watches elsewhere,
      copied from one of those watches. */
  ghost predicate SeedsOf(m: map<Key, Watch>, m': map<Key, Watch>, pid: nat, epfd: int) {
    && (forall k <- m :: k in m' && m'[k] == m[k])
    && (forall k <- m' :: k in m || (k.pid == pid && k.epfd == epfd
          && exists p <- m :: p.pid == pid && p.epfd != epfd && p.fd == k.fd && m[p] == m'[k]))
    && (forall p <- m :: p.pid == pid && p.epfd != epfd ==> Key(pid, epfd, p.fd) in m')
  }

  /** Create keeps the list a map if and only if there is no such clash; then it seeds as described. */
  lemma CreateView(es: seq<Entry>, pid: nat, epfd: int)
    requires Distinct(es)
    ensures Distinct(es + Seeded(es, pid, epfd)) <==> !CreateClash(es, pid, epfd)
    ensures !CreateClash(es, pid, epfd) ==> SeedsOf(View(es), View(es + Seeded(es, pid, epfd)), pid, epfd)
  {
    var s := Seeded(es, pid, epfd);
    SeededKeys(es, pid, epfd);
    DistinctConcat(es, s);
    if e :| e in es && Seeds(e, pid, epfd) && Key(pid, epfd, e.key.fd) in Keys(es) {
      assert Key(pid, epfd, e.key.fd) in Keys(s);
    }
    if !CreateClash(es, pid, epfd) {
      forall k | k in Keys(s)
        ensures k !in Keys(es)
      {
        assert k == Key(pid, epfd, k.fd);
        var e :| e in es && Seeds(e, pid, epfd) && e.key.fd == k.fd;
      }
      assert Distinct(es + s);
      SeededView(es, s, pid, epfd);
    }
  }

  lemma SeededView(es: seq<Entry>, s: seq<Entry>, pid: nat, epfd: int)
    requires s == Seeded(es, pid, epfd) && Distinct(es) && Distinct(s) && Keys(es) !! Keys(s)
    ensures Distinct(es + s) && SeedsOf(View(es), View(es + s), pid, epfd)
  {
    ConcatView(es, s);
    var m, seeds := View(es), View(s);
    SeededKeys(es, pid, epfd);
    forall k | k in seeds
      ensures k.pid == pid && k.epfd == epfd
      ensures exists p <- m :: p.pid == pid && p.epfd != epfd && p.fd == k.fd && m[p] == seeds[k]
    {
      var p := SeedOrigin(es, s, pid, epfd, k);
    }
    forall p | p in m && p.pid == pid && p.epfd != epfd
      ensures Key(pid, epfd, p.fd) in seeds
    {
      var e :| e in es && e.key == p;
      assert Seeds(e, pid, epfd);
      assert Key(pid, epfd, p.fd) in Keys(s);
    }
  }

  lemma SeedOrigin(es: seq<Entry>, s: seq<Entry>, pid: nat, epfd: int, k: Key) returns (p: Key)
    requires Distinct(es) && Distinct(s) && k in View(s)
    requires forall t <- s :: t in Seeded(es, pid, epfd)
    ensures k.pid == pid && k.epfd == epfd
    ensures p in View(es) && p.pid == pid && p.epfd != epfd && p.fd == k.fd && View(es)[p] == View(s)[k]
  {
    var t :| t in s && t.key == k;
    var e := SeedSource(es, pid, epfd, t);
    ViewAt(es, e);
    ViewAt(s, t);
    p := e.key;
  }

  // ---- Runs ----

  datatype Op =
    | OpFork(parent: nat, child: nat)
    | OpExit(pid: nat)
    | OpCreate(pid: nat)
    | OpCtl(pid: nat, epfd: int, op: CtlOp, fd: int, w: Watch, isSocket: bool)

  datatype Table = Table(entries: seq<Entry>, next: nat)

  /** The state after an operation, as the methods of `EpollTable` compute it. */
  function Apply(t: Table, o: Op): Table {
    match o
    case OpFork(parent, child) => t.(entries := t.entries + Inherited(t.entries, parent, child))
    case OpExit(pid) => t.(entries := Filter(t.entries, NotOwner(pid)))
    case OpCreate(pid) => Table(t.entries + Seeded(t.entries, pid, AsI32(t.next)), t.next + 1)
    case OpCtl(pid, epfd, op, fd, w, isSocket) =>
      var k := Key(pid, epfd, fd);
      match op
      case CtlAdd => t.(entries := Add(t.entries, k, w))
      case CtlDel => t.(entries := Filter(t.entries, NotKey(k)))
      case CtlMod => t.(entries := Update(t.entries, k, ModWatch(fd, isSocket, w)))
      case CtlUnknown => t
  }

  /** Fork uses a pid without entries, ctl a descriptor already handed out, and the counter fits an i32. */
  predicate Allowed(t: Table, o: Op) {
    match o
    case OpFork(_, child) => forall e <- t.entries :: e.key.pid != child
    case OpExit(_) => true
    case OpCreate(_) => t.next < I32_LIMIT
    case OpCtl(_, epfd, _, _, _, _) => epfd < t.next
  }

  function Run(t: Table, ops: seq<Op>): Table {
    if ops == [] then t
    else
      var before := Run(t, ops[..|ops| - 1]);
      if Allowed(before, ops[|ops| - 1]) then Apply(before, ops[|ops| - 1]) else before
  }

  ghost predicate Inv(t: Table) {
    Distinct(t.entries) && forall e <- t.entries :: e.key.epfd < t.next
  }

  /** The same operation on the map. */
  ghost predicate MapStep(m: map<Key, Watch>, next: nat, o: Op, m': map<Key, Watch>) {
    match o
    case OpFork(parent, child) => m' == m + Copied(m, parent, child)
    case OpExit(pid) => m' == Without(m, pid)
    case OpCreate(pid) => SeedsOf(m, m', pid, next)
    case OpCtl(pid, epfd, op, fd, w, isSocket) =>
      var k := Key(pid, epfd, fd);
      match op
      case CtlAdd => m' == m[k := w]
      case CtlDel => m' == m - {k}
      case CtlMod => m' == if k in m then m[k := ModWatch(fd, isSocket, w)] else m
      case CtlUnknown => m' == m
  }

  /**
   What modify stores: the data and the mask given, but with EPOLLOUT (bit 2) set and all other bits
   kept for sockets from descriptor 13 on.
   */
  lemma ModStores(fd: int, isSocket: bool, w: Watch)
    ensures var n := ModWatch(fd, isSocket, w);
            && n.data == w.data
            && n.events % 4 == w.events % 4 && n.events / 8 == w.events / 8
            && (n.events / 4 % 2 == 1 <==> w.events / 4 % 2 == 1 || (fd >= 13 && isSocket))
  {
    BitTwo(w.events);
  }

  lemma BitTwo(events: nat)
    ensures var n := WithOut(events);
            n % 4 == events % 4 && n / 8 == events / 8 && n / 4 % 2 == 1
  {
    var q, r := events / 4, events % 4;
    var odd := if q % 2 == 1 then q else q + 1;
    assert WithOut(events) == 4 * odd + r;
    Quarters(odd, r);
    Quarters(q, r);
    assert odd / 2 == q / 2;
  }

  lemma Quarters(q: nat, r: nat)
    requires r < 4
    ensures var n := 4 * q + r; n / 4 == q && n % 4 == r && n / 8 == q / 2
  {
    assert q == 2 * (q / 2) + q % 2;
  }

  /** Every allowed operation keeps the list a map and acts on it as on a map. */
  lemma StepRefinesMap(t: Table, o: Op)
    requires Inv(t) && Allowed(t, o)
    ensures Inv(Apply(t, o)) && MapStep(View(t.entries), t.next, o, View(Apply(t, o).entries))
  {
    match o
    case OpFork(parent, child) =>
      ForkView(t.entries, parent, child);
      InheritedMembers(t.entries, parent, child);
      assert forall e <- Inherited(t.entries, parent, child) :: Moved(e, parent).key.epfd == e.key.epfd;
    case OpExit(pid) =>
      ExitView(t.entries, pid);
      FilterMembers(t.entries, NotOwner(pid));
    case OpCreate(pid) =>
      assert AsI32(t.next) == t.next;
      CreateView(t.entries, pid, t.next);
      SeededKeys(t.entries, pid, t.next);
    case OpCtl(pid, epfd, op, fd, w, isSocket) =>
      CtlRefinesMap(t, o);
  }

  lemma CtlRefinesMap(t: Table, o: Op)
    requires Inv(t) && Allowed(t, o) && o.OpCtl?
    ensures Inv(Apply(t, o)) && MapStep(View(t.entries), t.next, o, View(Apply(t, o).entries))
  {
    var k := Key(o.pid, o.epfd, o.fd);
    match o.op
    case CtlAdd => AddView(t.entries, k, o.w);
    case CtlDel => DelView(t.entries, k); FilterMembers(t.entries, NotKey(k));
    case CtlMod => ModView(t.entries, k, ModWatch(o.fd, o.isSocket, o.w));
    case CtlUnknown =>
  }

  /** Over every run of create, add, modify, delete, fork and exit the list denotes a map. */
  lemma {:induction false} RunsStayMaps(ops: seq<Op>)
    ensures Inv(Run(Table([], FIRST_EPFD), ops))
  {
    if ops != [] {
      var before := Run(Table([], FIRST_EPFD), ops[..|ops| - 1]);
      RunsStayMaps(ops[..|ops| - 1]);
      if Allowed(before, ops[|ops| - 1]) {
        StepRefinesMap(before, ops[|ops| - 1]);
      }
    }
  }

  function Actor(o: Op): nat { if o.OpFork? then o.child else o.pid }

  /** Processes evolve independently: an operation leaves every other process's watches as they were. */
  lemma OthersUntouched(m: map<Key, Watch>, next: nat, o: Op, m': map<Key, Watch>, k: Key)
    requires MapStep(m, next, o, m') && k.pid != Actor(o)
    ensures (k in m' <==> k in m) && (k in m ==> m'[k] == m[k])
  {
  }

  /** So a process's watches survive any run in which it does not act itself. */
  lemma {:induction false} EvolvesAlone(t: Table, ops: seq<Op>, k: Key)
    requires Inv(t) && forall o <- ops :: Actor(o) != k.pid
    ensures Inv(Run(t, ops))
    ensures var m, m' := View(t.entries), View(Run(t, ops).entries); (k in m' <==> k in m) && (k in m ==> m'[k] == m[k])
  {
    if ops != [] {
      var before, o := Run(t, ops[..|ops| - 1]), ops[|ops| - 1];
      EvolvesAlone(t, ops[..|ops| - 1], k);
      if Allowed(before, o) {
        StepRefinesMap(before, o);
        OthersUntouched(View(before.entries), before.next, o, View(Apply(before, o).entries), k);
      }
    }
  }

  /** Right after an allowed fork, the child watches exactly what the parent watches. */
  lemma ForkGivesEqualView(t: Table, parent: nat, child: nat, epfd: int, fd: int)
    requires Inv(t) && Allowed(t, OpFork(parent, child))
    ensures Inv(Apply(t, OpFork(parent, child)))
    ensures var m := View(Apply(t, OpFork(parent, child)).entries);
            var p, c := Key(parent, epfd, fd), Key(child, epfd, fd);
            (p in m <==> c in m) && (p in m ==> m[c] == m[p])
  {
    StepRefinesMap(t, OpFork(parent, child));
    var m := View(t.entries);
    forall k | k in m
      ensures k.pid != child
    {
      var e :| e in t.entries && e.key == k;
    }
    CopiedEqual(m, parent, child, epfd, fd);
  }

  lemma CopiedEqual(m: map<Key, Watch>, parent: nat, child: nat, epfd: int, fd: int)
    requires forall k <- m :: k.pid != child
    ensures var m' := m + Copied(m, parent, child);
            var p, c := Key(parent, epfd, fd), Key(child, epfd, fd);
            (p in m' <==> c in m') && (p in m' ==> m'[c] == m'[p])
  {
    var p, c := Key(parent, epfd, fd), Key(child, epfd, fd);
    if p in m {
      assert c in Copied(m, parent, child);
    }
  }

  /**
   Ctl takes any descriptor, so a process can name one before it is handed out.  It watches 5 under
   100 and under 7; the create that hands out 100 then seeds 5 under 100 a second time.
   */
  lemma EarlyCtlDuplicates(w: Watch)
    ensures var empty := Table([], FIRST_EPFD);
            var first := Apply(empty, OpCtl(1, 100, CtlAdd, 5, w, false));
            var second := Apply(first, OpCtl(1, 7, CtlAdd, 5, w, false));
            var third := Apply(second, OpCreate(1));
            && !Allowed(empty, OpCtl(1, 100, CtlAdd, 5, w, false))
            && Distinct(second.entries) && CreateClash(second.entries, 1, 100)
            && !Distinct(third.entries)
  {
    var e, d := Entry(Key(1, 100, 5), w), Entry(Key(1, 7, 5), w);
    TwoAdds(e, d);
    assert AsI32(100) == 100;
    SeedClash(e, d, 1, 100);
    CreateView([e, d], 1, 100);
  }

  lemma TwoAdds(e: Entry, d: Entry)
    requires e.key != d.key
    ensures var first := Apply(Table([], FIRST_EPFD), OpCtl(e.key.pid, e.key.epfd, CtlAdd, e.key.fd, e.watch, false));
            Apply(first, OpCtl(d.key.pid, d.key.epfd, CtlAdd, d.key.fd, d.watch, false)) == Table([e, d], FIRST_EPFD)
    ensures Distinct([e, d])
  {
    assert Add([], e.key, e.watch) == [e];
    AddSecond(e, d);
  }

  lemma AddSecond(e: Entry, d: Entry)
    requires e.key != d.key
    ensures Add([e], d.key, d.watch) == [e, d] && Distinct([e, d])
  {
  }

  lemma SeedClash(e: Entry, d: Entry, pid: nat, epfd: int)
    requires Seeds(d, pid, epfd) && e.key == Key(pid, epfd, d.key.fd)
    ensures CreateClash([e, d], pid, epfd)
  {
    assert d in [e, d] && e in [e, d];
  }

  /** A run: process 1 creates a descriptor, watches 5 under it, forks process 2 and exits; the copy stays. */
  lemma CopyOutlivesOriginal(w: Watch)
    ensures var start, made, add := Table([], FIRST_EPFD), OpCreate(1), OpCtl(1, 100, CtlAdd, 5, w, false);
            && Run(start, [made, add]) == Table([Entry(Key(1, 100, 5), w)], 101)
            && Run(start, [made, add, OpFork(1, 2), OpExit(1)]) == Table([Entry(Key(2, 100, 5), w)], 101)
  {
    var e, c := Entry(Key(1, 100, 5), w), Entry(Key(2, 100, 5), w);
    Created();
    Added(e);
    OneEntry(e, 1, 2);
    TwoEntries(e, c, NotOwner(1));
    FourOps(Table([], FIRST_EPFD), OpCreate(1), OpCtl(1, 100, CtlAdd, 5, w, false), OpFork(1, 2), OpExit(1),
            Table([], 101), Table([e], 101), Table([e, c], 101), Table([c], 101));
  }

  lemma Added(e: Entry)
    requires e.key.epfd < 101
    ensures var o := OpCtl(e.key.pid, e.key.epfd, CtlAdd, e.key.fd, e.watch, false);
            Allowed(Table([], 101), o) && Apply(Table([], 101), o) == Table([e], 101)
  {
  }

  lemma FourOps(t: Table, o1: Op, o2: Op, o3: Op, o4: Op, t1: Table, t2: Table, t3: Table, t4: Table)
    requires Allowed(t, o1) && Apply(t, o1) == t1 && Allowed(t1, o2) && Apply(t1, o2) == t2
    requires Allowed(t2, o3) && Apply(t2, o3) == t3 && Allowed(t3, o4) && Apply(t3, o4) == t4
    ensures Run(t, [o1, o2]) == t2 && Run(t, [o1, o2, o3, o4]) == t4
  {
    RunMore(t, [], o1, t, t1);
    assert [] + [o1] == [o1];
    RunMore(t, [o1], o2, t1, t2);
    assert [o1] + [o2] == [o1, o2];
    RunMore(t, [o1, o2], o3, t2, t3);
    assert [o1, o2] + [o3] == [o1, o2, o3];
    RunMore(t, [o1, o2, o3], o4, t3, t4);
    assert [o1, o2, o3] + [o4] == [o1, o2, o3, o4];
  }

  lemma Created()
    ensures Apply(Table([], FIRST_EPFD), OpCreate(1)) == Table([], 101)
  {
  }

  lemma RunMore(t: Table, ops: seq<Op>, o: Op, before: Table, after: Table)
    requires Run(t, ops) == before && Allowed(before, o) && Apply(before, o) == after
    ensures Run(t, ops + [o]) == after
  {
    assert (ops + [o])[..|ops + [o]| - 1] == ops;
  }

  lemma OneEntry(e: Entry, parent: nat, child: nat)
    requires e.key.pid == parent
    ensures [e] + Inherited([e], parent, child) == [e, Moved(e, child)]
  {
    assert [e][..0] == [];
  }

  lemma TwoEntries(e: Entry, d: Entry, keep: Entry -> bool)
    requires !keep(e) && keep(d)
    ensures Filter([e, d], keep) == [d]
  {
    assert [e][..0] == [] && Filter([e], keep) == [];
    var both := [e, d];
    assert both[..1] == [e] && both[1] == d;
    assert Filter(both, keep) == Filter(both[..1], keep) + [d];
  }
}
