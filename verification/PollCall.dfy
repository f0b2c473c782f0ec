/**
 `poll(2)` as `sys_poll_chirho` implements it.  Readiness and the tick counter belong to the
 environment: `moments[i]` is what the call sees at its scan number `i` and at the deadline
 test after it.  A run covers finitely many scans and answers `Blocked` when it is still
 waiting after the last one.
 */
module PollCall {
  import opened Wrappers

  const U64_MAX: nat := 0xFFFF_FFFF_FFFF_FFFF
  const ENTRY_SIZE: nat := 8
  const BUFFER_SIZE: nat := 2048

  datatype Errno = EFAULT | EINVAL

  datatype Pollfd = Pollfd(fd: int, events: int, revents: int)

  /** `ready(fd, events)` is the readiness of a descriptor for the requested events. */
  datatype Moment = Moment(ready: (int, int) -> int, tick: nat)

  /** `Done` carries the entries as written back; a sleep over no descriptors writes none. */
  datatype Outcome = Failed(errno: Errno) | Blocked | Done(count: int, fds: seq<Pollfd>)

  function Revents(p: Pollfd, m: Moment): int { if p.fd < 0 then 0 else m.ready(p.fd, p.events) }

  /** The entries after one scan at `m`. */
  function Scanned(fds: seq<Pollfd>, m: Moment): (r: seq<Pollfd>)
    ensures |r| == |fds|
  {
    seq(|fds|, i requires 0 <= i < |fds| => fds[i].(revents := Revents(fds[i], m)))
  }

  function ReadyEntries(fds: seq<Pollfd>): set<nat> { set i: nat | i < |fds| && fds[i].revents != 0 }

  function DeadlineOf(timeout: int, now: nat): Option<nat> {
    if timeout < 0 then None
    else Some(if now + timeout <= U64_MAX then now + timeout else U64_MAX)
  }

  predicate Expired(deadline: Option<nat>, tick: nat) { deadline.Some? && tick >= deadline.value }

  // ---- The wait, as a function of its environment ----

  predicate EndsAt(fds: seq<Pollfd>, timeout: int, now: nat, m: Moment) {
    ReadyEntries(Scanned(fds, m)) != {} || (timeout == 0 && fds != []) || Expired(DeadlineOf(timeout, now), m.tick)
  }

  function FirstEnd(fds: seq<Pollfd>, timeout: int, now: nat, moments: seq<Moment>): (k: nat)
    ensures k <= |moments|
    ensures k < |moments| ==> EndsAt(fds, timeout, now, moments[k])
    ensures forall i :: 0 <= i < k ==> !EndsAt(fds, timeout, now, moments[i])
  {
    if moments == [] || EndsAt(fds, timeout, now, moments[0]) then 0
    else 1 + FirstEnd(fds, timeout, now, moments[1..])
  }

  /** What a well-formed call over `fds` answers. */
  predicate Waits(fds: seq<Pollfd>, timeout: int, now: nat, moments: seq<Moment>, copyOutFails: bool, r: Outcome) {
    var k := FirstEnd(fds, timeout, now, moments);
    if k == |moments| then r == Blocked
    else if copyOutFails && fds != [] then r == Failed(EFAULT)
    else r.Done? && r.fds == Scanned(fds, moments[k]) && r.count == |ReadyEntries(r.fds)|
  }

  lemma FirstEndIs(fds: seq<Pollfd>, timeout: int, now: nat, moments: seq<Moment>, k: nat)
    requires k <= |moments| && forall i :: 0 <= i < k ==> !EndsAt(fds, timeout, now, moments[i])
    ensures k == |moments| || EndsAt(fds, timeout, now, moments[k]) ==> FirstEnd(fds, timeout, now, moments) == k
  {
  }

  // ---- The code ----

  /** Write `revents` of every entry and count the ready ones. */
  method Scan(pollfds: array<Pollfd>, m: Moment) returns (ready: int)
    modifies pollfds
    ensures pollfds[..] == Scanned(old(pollfds[..]), m)
    ensures ready == |ReadyEntries(pollfds[..])|
  {
    ready := 0;
    assert ReadyEntries(pollfds[..0]) == {};
    for i := 0 to pollfds.Length
      invariant forall k :: 0 <= k < pollfds.Length ==>
                  pollfds[k] == if k < i then old(pollfds[k]).(revents := Revents(old(pollfds[k]), m))
                                else old(pollfds[k])
      invariant ready == |ReadyEntries(pollfds[..i])|
    {
      ghost var before := pollfds[..i];
      pollfds[i] := pollfds[i].(revents := Revents(pollfds[i], m));
      assert pollfds[..i + 1] == before + [pollfds[i]];
      NextEntry(before, pollfds[i]);
      if pollfds[i].revents != 0 {
        ready := ready + 1;
      }
    }
    assert pollfds[..pollfds.Length] == pollfds[..];
  }

  lemma NextEntry(fds: seq<Pollfd>, p: Pollfd)
    ensures |ReadyEntries(fds + [p])| == |ReadyEntries(fds)| + if p.revents != 0 then 1 else 0
  {
    assert ReadyEntries(fds + [p]) == ReadyEntries(fds) + if p.revents != 0 then {|fds|} else {};
  }

  /** Scanning again forgets the earlier scan. */
  lemma Rescanned(fds: seq<Pollfd>, m: Moment, m': Moment)
    ensures Scanned(Scanned(fds, m), m') == Scanned(fds, m')
  {
  }

  /** `user` is the array at the caller's pointer; the flags say whether the pointer is NULL or cannot be read. */
  method Poll(user: seq<Pollfd>, nullPointer: bool, unreadable: bool, timeout: int, now: nat,
              moments: seq<Moment>, copyOutFails: bool) returns (r: Outcome)
    ensures user != [] && nullPointer ==> r == Failed(EFAULT)
    ensures user != [] && !nullPointer && |user| > 256 ==> r == Failed(EINVAL)
    ensures user != [] && !nullPointer && |user| <= 256 && unreadable ==> r == Failed(EFAULT)
    ensures user == [] || (!nullPointer && |user| <= 256 && !unreadable) ==>
              Waits(user, timeout, now, moments, copyOutFails, r)
  {
    var deadline := DeadlineOf(timeout, now);
    if |user| == 0 {
      r := Sleep(deadline, timeout, now, moments, copyOutFails);
      return;
    }
    if nullPointer {
      return Failed(EFAULT);
    }
    if ENTRY_SIZE * |user| > BUFFER_SIZE {
      return Failed(EINVAL);
    }
    if unreadable {
      return Failed(EFAULT);
    }
    if moments == [] {
      return Blocked;
    }
    var pollfds := new Pollfd[|user|](i requires 0 <= i < |user| => user[i]);
    assert pollfds[..] == user;
    var ready := Scan(pollfds, moments[0]);
    var i := 0;
    if ready == 0 && timeout != 0 {
      while !Expired(deadline, moments[i].tick) && ready == 0
        invariant 0 <= i < |moments|
        invariant pollfds[..] == Scanned(user, moments[i]) && ready == |ReadyEntries(pollfds[..])|
        invariant forall k :: 0 <= k < i ==> !EndsAt(user, timeout, now, moments[k])
        decreases |moments| - i
      {
        if i + 1 == |moments| {
          FirstEndIs(user, timeout, now, moments, |moments|);
          return Blocked;
        }
        i := i + 1;
        ready := Scan(pollfds, moments[i]);
        Rescanned(user, moments[i - 1], moments[i]);
      }
    }
    FirstEndIs(user, timeout, now, moments, i);
    if copyOutFails {
      return Failed(EFAULT);
    }
    return Done(ready, pollfds[..]);
  }

  /** No descriptors: wait out the timeout. */
  method Sleep(deadline: Option<nat>, timeout: int, now: nat, moments: seq<Moment>, copyOutFails: bool)
    returns (r: Outcome)
    requires deadline == DeadlineOf(timeout, now)
    ensures Waits([], timeout, now, moments, copyOutFails, r)
  {
    var i := 0;
    while i < |moments| && !Expired(deadline, moments[i].tick)
      invariant 0 <= i <= |moments|
      invariant forall k :: 0 <= k < i ==> !EndsAt([], timeout, now, moments[k])
    {
      assert ReadyEntries(Scanned([], moments[i])) == {};
      i := i + 1;
    }
    FirstEndIs([], timeout, now, moments, i);
    if i == |moments| {
      return Blocked;
    }
    return Done(0, []);
  }

  // ---- Theorems ----

  /**
   A zero is never fabricated: the timeout was not negative, no entry was ready at the last
   scan or any before it, and either the timeout was zero or its deadline passed at that scan
   and at no earlier one.
   */
  lemma ZeroIsEarned(fds: seq<Pollfd>, timeout: int, now: nat, moments: seq<Moment>, fails: bool, r: Outcome)
    requires Waits(fds, timeout, now, moments, fails, r) && r.Done? && r.count == 0
    ensures var k := FirstEnd(fds, timeout, now, moments);
            && timeout >= 0 && k < |moments|
            && (forall i :: 0 <= i <= k ==> ReadyEntries(Scanned(fds, moments[i])) == {})
            && ((timeout == 0 && k == 0) || moments[k].tick >= DeadlineOf(timeout, now).value)
            && (forall i :: 0 <= i < k ==> moments[i].tick < DeadlineOf(timeout, now).value)
            && (forall i :: 0 <= i < |r.fds| ==> r.fds[i].revents == 0)
  {
    var k := FirstEnd(fds, timeout, now, moments);
    assert EndsAt(fds, timeout, now, moments[k]);
    forall i | 0 <= i <= k
      ensures ReadyEntries(Scanned(fds, moments[i])) == {}
      ensures i < k && timeout >= 0 ==> moments[i].tick < DeadlineOf(timeout, now).value
      ensures i < k && timeout == 0 ==> fds == []
    {
      if i < k { assert !EndsAt(fds, timeout, now, moments[i]); }
    }
    forall i | 0 <= i < |r.fds|
      ensures r.fds[i].revents == 0
    {
      assert i !in ReadyEntries(r.fds);
    }
  }

  /** The same in ticks: a zero is never answered before the timeout has passed since entry. */
  lemma ZeroIsNeverEarly(fds: seq<Pollfd>, timeout: int, now: nat, moments: seq<Moment>, fails: bool, r: Outcome)
    requires Waits(fds, timeout, now, moments, fails, r) && r.Done? && r.count == 0
    ensures var k := FirstEnd(fds, timeout, now, moments);
            && timeout >= 0 && k < |moments|
            && ((timeout == 0 && k == 0) || moments[k].tick >= now + timeout
                || moments[k].tick >= 0xFFFF_FFFF_FFFF_FFFF)
            && (forall i :: 0 <= i < k ==> moments[i].tick < now + timeout && moments[i].tick < 0xFFFF_FFFF_FFFF_FFFF)
  {
    ZeroIsEarned(fds, timeout, now, moments, fails, r);
  }

  /** No entry is ready: negative descriptors never are, and the others by what is asked of them. */
  predicate Quiet(fds: seq<Pollfd>, m: Moment) {
    forall i :: 0 <= i < |fds| ==> fds[i].fd < 0 || m.ready(fds[i].fd, fds[i].events) == 0
  }

  lemma QuietScan(fds: seq<Pollfd>, m: Moment)
    ensures ReadyEntries(Scanned(fds, m)) == {} <==> Quiet(fds, m)
  {
    var r := Scanned(fds, m);
    if ReadyEntries(r) == {} {
      forall i | 0 <= i < |fds|
        ensures fds[i].fd < 0 || m.ready(fds[i].fd, fds[i].events) == 0
      {
        assert i !in ReadyEntries(r);
      }
    }
  }

  /**
   Exactly when a call is still waiting after the last of these moments: nothing was ready at any of
   them, the call is not a probe, and none of them had reached the timeout.
   */
  lemma BlockedExactly(fds: seq<Pollfd>, timeout: int, now: nat, moments: seq<Moment>, fails: bool, r: Outcome)
    requires Waits(fds, timeout, now, moments, fails, r)
    ensures r == Blocked <==>
              forall i :: 0 <= i < |moments| ==>
                && Quiet(fds, moments[i]) && !(timeout == 0 && fds != [])
                && (timeout >= 0 ==> moments[i].tick < now + timeout && moments[i].tick < 0xFFFF_FFFF_FFFF_FFFF)
  {
    var k := FirstEnd(fds, timeout, now, moments);
    forall i | 0 <= i < |moments|
      ensures EndsAt(fds, timeout, now, moments[i]) <==>
                !Quiet(fds, moments[i]) || (timeout == 0 && fds != [])
                || (timeout >= 0 && (moments[i].tick >= now + timeout || moments[i].tick >= 0xFFFF_FFFF_FFFF_FFFF))
    {
      QuietScan(fds, moments[i]);
    }
    assert k < |moments| ==> EndsAt(fds, timeout, now, moments[k]);
  }

  /** A negative timeout never answers zero. */
  lemma NegativeNeverZero(fds: seq<Pollfd>, timeout: int, now: nat, moments: seq<Moment>, fails: bool, r: Outcome)
    requires Waits(fds, timeout, now, moments, fails, r) && timeout < 0
    ensures !(r.Done? && r.count == 0)
  {
  }

  /**
   On every normal return all entries come from one and the same scan, the last; only
   `revents` was written, and the count is the number of entries whose `revents` is nonzero.
   */
  lemma CountMatchesOneScan(fds: seq<Pollfd>, timeout: int, now: nat, moments: seq<Moment>, fails: bool, r: Outcome)
    requires Waits(fds, timeout, now, moments, fails, r) && r.Done?
    ensures |r.fds| == |fds| && r.count == |ReadyEntries(r.fds)|
    ensures exists k <- moments :: forall i :: 0 <= i < |fds| ==>
              r.fds[i] == Pollfd(fds[i].fd, fds[i].events,
                                 if fds[i].fd < 0 then 0 else k.ready(fds[i].fd, fds[i].events))
    ensures r.count > 0 ==> forall i :: 0 <= i < FirstEnd(fds, timeout, now, moments) ==>
              ReadyEntries(Scanned(fds, moments[i])) == {}
  {
    var k := FirstEnd(fds, timeout, now, moments);
    assert moments[k] in moments;
    forall i | 0 <= i < k
      ensures ReadyEntries(Scanned(fds, moments[i])) == {}
    {
      assert !EndsAt(fds, timeout, now, moments[i]);
    }
  }
}
