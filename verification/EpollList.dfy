/**
 The global epoll interest list: one flat vector of entries for all processes, searched
 by (owner pid, epoll descriptor, descriptor).  While no key occurs twice the vector denotes a
 map, `View`; the theorems say which operations keep it so and what each does to the map.
 */
module EpollList {
  datatype Key = Key(pid: nat, epfd: int, fd: int)

  datatype Watch = Watch(events: nat, data: nat)

  datatype Entry = Entry(key: Key, watch: Watch)

  const EPOLLOUT: nat := 4
  const FIRST_EPFD: nat := 100
  const I32_LIMIT: nat := 0x8000_0000

  predicate Distinct(es: seq<Entry>) {
    forall i, j :: 0 <= i < j < |es| ==> es[i].key != es[j].key
  }

  function Keys(es: seq<Entry>): set<Key> { set e <- es :: e.key }

  /** The watches by key; each key occurs once in a `Distinct` list. */
  function View(es: seq<Entry>): (m: map<Key, Watch>)
    ensures m.Keys == Keys(es)
  {
    if es == [] then map[]
    else
      var n := |es| - 1;
      assert es == es[..n] + [es[n]];
      View(es[..n])[es[n].key := es[n].watch]
  }

  // ---- What the loops compute ----

  function Filter(es: seq<Entry>, keep: Entry -> bool): seq<Entry> {
    if es == [] then []
    else Filter(es[..|es| - 1], keep) + if keep(es[|es| - 1]) then [es[|es| - 1]] else []
  }

  function NotKey(k: Key): Entry -> bool { (e: Entry) => e.key != k }

  function NotOwner(pid: nat): Entry -> bool { (e: Entry) => e.key.pid != pid }

  /** Every entry with key `k` gets watch `w`. */
  function Update(es: seq<Entry>, k: Key, w: Watch): (r: seq<Entry>)
    ensures |r| == |es|
  {
    seq(|es|, i requires 0 <= i < |es| => if es[i].key == k then Entry(k, w) else es[i])
  }

  function FindFirst(es: seq<Entry>, k: Key): (i: nat)
    ensures i <= |es|
    ensures i < |es| ==> es[i].key == k
    ensures forall j :: 0 <= j < i ==> es[j].key != k
  {
    if es == [] || es[0].key == k then 0 else 1 + FindFirst(es[1..], k)
  }

  function Add(es: seq<Entry>, k: Key, w: Watch): seq<Entry> {
    var i := FindFirst(es, k);
    if i < |es| then es[i := Entry(k, w)] else es + [Entry(k, w)]
  }

  function Moved(e: Entry, pid: nat): Entry { Entry(Key(pid, e.key.epfd, e.key.fd), e.watch) }

  /** The parent's entries, handed to the child. */
  function Inherited(es: seq<Entry>, parent: nat, child: nat): seq<Entry> {
    if es == [] then []
    else
      var n := |es| - 1;
      Inherited(es[..n], parent, child) + if es[n].key.pid == parent then [Moved(es[n], child)] else []
  }

  predicate Seeds(e: Entry, pid: nat, epfd: int) { e.key.pid == pid && e.key.epfd != epfd }

  /** One entry for the new descriptor per descriptor the owner watches elsewhere, the first one found. */
  function Seeded(es: seq<Entry>, pid: nat, epfd: int): seq<Entry> {
    if es == [] then []
    else
      var n := |es| - 1;
      var before := Seeded(es[..n], pid, epfd);
      var k := Key(pid, epfd, es[n].key.fd);
      before + if Seeds(es[n], pid, epfd) && k !in Keys(before) then [Entry(k, es[n].watch)] else []
  }

  // ---- The code ----

  datatype CtlOp = CtlAdd | CtlDel | CtlMod | CtlUnknown

  /** The bitwise OR of an EPOLLOUT bit into a mask. */
  function WithOut(events: nat): nat { if (events / EPOLLOUT) % 2 == 1 then events else events + EPOLLOUT }

  /** A 64-bit counter value as the kernel's 32-bit descriptor: the same modulo 2^32. */
  function AsI32(n: nat): (fd: int)
    ensures -0x8000_0000 <= fd < 0x8000_0000 && (n - fd) % 0x1_0000_0000 == 0
  {
    var w := n % 0x1_0000_0000;
    if w < I32_LIMIT then w else w - 0x1_0000_0000
  }

  function ModWatch(fd: int, isSocket: bool, w: Watch): Watch {
    if fd >= 13 && isSocket then w.(events := WithOut(w.events)) else w
  }

  class EpollTable {
    var entries: seq<Entry>
    var next: nat

    constructor ()
      ensures entries == [] && next == FIRST_EPFD
    {
      entries, next := [], FIRST_EPFD;
    }

    method Retain(keep: Entry -> bool)
      modifies this`entries
      ensures entries == Filter(old(entries), keep)
    {
      var kept := [];
      for i := 0 to |entries|
        invariant entries == old(entries) && kept == Filter(entries[..i], keep)
      {
        assert entries[..i + 1][..i] == entries[..i];
        if keep(entries[i]) {
          kept := kept + [entries[i]];
        }
      }
      assert entries[..|entries|] == entries;
      entries := kept;
    }

    /** `clone_epoll_entries_for_fork_chirho` */
    method Fork(parent: nat, child: nat)
      modifies this`entries
      ensures entries == old(entries) + Inherited(old(entries), parent, child)
    {
      var copies := [];
      for i := 0 to |entries|
        invariant copies == Inherited(entries[..i], parent, child)
      {
        assert entries[..i + 1][..i] == entries[..i];
        if entries[i].key.pid == parent {
          copies := copies + [Moved(entries[i], child)];
        }
      }
      assert entries[..|entries|] == entries;
      entries := entries + copies;
    }

    /** `remove_epoll_entries_for_pid_chirho` */
    method Exit(pid: nat)
      modifies this`entries
      ensures entries == Filter(old(entries), NotOwner(pid))
    {
      Retain(NotOwner(pid));
    }

    /** `sys_epoll_create1_chirho`, seeding included */
    method Create(pid: nat) returns (fd: nat)
      modifies this
      ensures fd == old(next) && next == old(next) + 1
      ensures entries == old(entries) + Seeded(old(entries), pid, AsI32(fd))
    {
      fd := next;
      next := next + 1;
      var epfd := AsI32(fd);
      var seeds: seq<Entry> := [];
      for i := 0 to |entries|
        invariant entries == old(entries) && next == old(next) + 1
        invariant seeds == Seeded(entries[..i], pid, epfd)
      {
        assert entries[..i + 1][..i] == entries[..i];
        var e := entries[i];
        if e.key.pid != pid || e.key.epfd == epfd {
          continue;
        }
        SeededKeys(entries[..i], pid, epfd);
        if exists s <- seeds :: s.key.fd == e.key.fd {
          continue;
        }
        seeds := seeds + [Entry(Key(pid, epfd, e.key.fd), e.watch)];
      }
      assert entries[..|entries|] == entries;
      entries := entries + seeds;
    }

    /** `sys_epoll_ctl_chirho`; answers whether the operation code was known */
    method Ctl(pid: nat, epfd: int, op: CtlOp, fd: int, w: Watch, isSocket: bool) returns (ok: bool)
      modifies this`entries
      ensures ok <==> !op.CtlUnknown?
      ensures op.CtlAdd? ==> entries == Add(old(entries), Key(pid, epfd, fd), w)
      ensures op.CtlDel? ==> entries == Filter(old(entries), NotKey(Key(pid, epfd, fd)))
      ensures op.CtlMod? ==> entries == Update(old(entries), Key(pid, epfd, fd), ModWatch(fd, isSocket, w))
      ensures op.CtlUnknown? ==> entries == old(entries)
    {
      var k := Key(pid, epfd, fd);
      match op {
        case CtlAdd =>
          var i := 0;
          while i < |entries| && entries[i].key != k
            invariant 0 <= i <= |entries| && forall j :: 0 <= j < i ==> entries[j].key != k
          {
            i := i + 1;
          }
          assert i == FindFirst(entries, k);
          if i < |entries| {
            entries := entries[i := Entry(k, w)];
          } else {
            entries := entries + [Entry(k, w)];
          }
        case CtlDel =>
          Retain(NotKey(k));
        case CtlMod =>
          var w' := ModWatch(fd, isSocket, w);
          for i := 0 to |entries|
            invariant |entries| == |old(entries)|
            invariant forall j :: 0 <= j < |entries| ==>
                        entries[j] == if j < i && old(entries)[j].key == k then Entry(k, w') else old(entries)[j]
          {
            if entries[i].key == k {
              entries := entries[i := Entry(k, w')];
            }
          }
          assert entries == Update(old(entries), k, w');
        case CtlUnknown =>
          return false;
      }
      return true;
    }
  }

  // ---- What each computed list denotes ----

  lemma DistinctSnoc(es: seq<Entry>, e: Entry)
    ensures Distinct(es + [e]) <==> Distinct(es) && e.key !in Keys(es)
  {
    var all := es + [e];
    assert all[..|es|] == es;
    if Distinct(all) {
      forall i, j | 0 <= i < j < |es|
        ensures es[i].key != es[j].key
      {
        assert all[i].key != all[j].key;
      }
      forall d | d in es
        ensures d.key != e.key
      {
        var i :| 0 <= i < |es| && es[i] == d;
        assert all[i].key != all[|es|].key;
      }
    }
    if Distinct(es) && e.key !in Keys(es) {
      forall i, j | 0 <= i < j < |all|
        ensures all[i].key != all[j].key
      {
        if j == |es| { assert es[i] in es; }
      }
    }
  }

  lemma {:induction false} FilterMembers(es: seq<Entry>, keep: Entry -> bool)
    ensures forall e :: e in Filter(es, keep) <==> e in es && keep(e)
    ensures Distinct(es) ==> Distinct(Filter(es, keep))
  {
    if es != [] {
      var n := |es| - 1;
      FilterMembers(es[..n], keep);
      assert es == es[..n] + [es[n]];
      DistinctSnoc(es[..n], es[n]);
      DistinctSnoc(Filter(es[..n], keep), es[n]);
    }
  }

  lemma {:induction false} InheritedMembers(es: seq<Entry>, parent: nat, child: nat)
    ensures forall e :: e in Inherited(es, parent, child) <==> e.key.pid == child && Moved(e, parent) in es
    ensures Distinct(es) ==> Distinct(Inherited(es, parent, child))
  {
    if es != [] {
      var n := |es| - 1;
      InheritedMembers(es[..n], parent, child);
      assert es == es[..n] + [es[n]];
      DistinctSnoc(es[..n], es[n]);
      DistinctSnoc(Inherited(es[..n], parent, child), Moved(es[n], child));
    }
  }

  lemma {:induction false} SeededKeys(es: seq<Entry>, pid: nat, epfd: int)
    ensures forall s <- Seeded(es, pid, epfd) :: s.key.pid == pid && s.key.epfd == epfd
    ensures forall fd :: Key(pid, epfd, fd) in Keys(Seeded(es, pid, epfd)) <==>
                         exists e <- es :: Seeds(e, pid, epfd) && e.key.fd == fd
    ensures Distinct(Seeded(es, pid, epfd))
  {
    if es != [] {
      var n := |es| - 1;
      SeededKeys(es[..n], pid, epfd);
      assert es == es[..n] + [es[n]];
    }
  }

  /** Every seed copies the watch of some entry of the owner for the same descriptor. */
  lemma {:induction false} SeedSource(es: seq<Entry>, pid: nat, epfd: int, t: Entry) returns (e: Entry)
    requires t in Seeded(es, pid, epfd)
    ensures e in es && Seeds(e, pid, epfd) && t == Entry(Key(pid, epfd, e.key.fd), e.watch)
  {
    var n := |es| - 1;
    if t in Seeded(es[..n], pid, epfd) {
      e := SeedSource(es[..n], pid, epfd, t);
    } else {
      e := es[n];
    }
  }

  /** Among several watches of one descriptor the first in the list is copied. */
  lemma {:induction false} SeedIsFirst(es: seq<Entry>, pid: nat, epfd: int, i: nat)
    requires i < |es| && Seeds(es[i], pid, epfd)
    requires forall j :: 0 <= j < i ==> !(Seeds(es[j], pid, epfd) && es[j].key.fd == es[i].key.fd)
    ensures Entry(Key(pid, epfd, es[i].key.fd), es[i].watch) in Seeded(es, pid, epfd)
  {
    var n := |es| - 1;
    if i < n {
      SeedIsFirst(es[..n], pid, epfd, i);
    } else {
      SeededKeys(es[..n], pid, epfd);
      forall e | e in es[..n]
        ensures !(Seeds(e, pid, epfd) && e.key.fd == es[n].key.fd)
      {
        var j :| 0 <= j < n && es[..n][j] == e;
      }
      assert Key(pid, epfd, es[n].key.fd) !in Keys(Seeded(es[..n], pid, epfd));
    }
  }
}
