/**
 What every interleaved run of the ownership operations keeps: reference counts
 are conserved, each trip to zero is reported once, and an address space ends once.
 Each theorem is proved on legal sequential histories and carried to all
 interleavings by `Linearizable`.
 */
module OwnershipTheorems {
  import opened OwnershipSpec
  import opened OwnershipMachine

  function Tally(h: seq<Entry>, p: Entry -> bool): nat {
    if h == [] then 0 else Tally(h[..|h| - 1], p) + if p(h[|h| - 1]) then 1 else 0
  }

  // ---- Frames ----

  /** Successful retains of a frame. */
  function RetainsOf(f: nat): Entry -> bool {
    (e: Entry) => e.op == RetainMapping(f) && e.result.Managed?
  }

  /** Successful releases of a frame. */
  function ReleasesOf(f: nat): Entry -> bool {
    (e: Entry) => e.op == ReleaseMapping(f) && (e.result.StillReferenced? || e.result.LastReference?)
  }

  function FirstsOf(f: nat): Entry -> bool { (e: Entry) => e.op == RetainMapping(f) && e.result == Managed(1) }

  function LastsOf(f: nat): Entry -> bool { (e: Entry) => e.op == ReleaseMapping(f) && e.result.LastReference? }

  function Positive(n: int): nat { if n > 0 then 1 else 0 }

  lemma {:induction false} SequentialFrame(cells: map<Addr, Cell>, h: seq<Entry>, f: nat, start: nat)
    requires Legal(cells, h)
    requires FrameSlot(f) in cells && cells[FrameSlot(f)] == References(start) && start <= MAX_MANAGED
    ensures FrameSlot(f) in After(cells, h) && After(cells, h)[FrameSlot(f)].References?
    ensures var n := After(cells, h)[FrameSlot(f)].n;
            && n <= MAX_MANAGED
            && n == start + Tally(h, RetainsOf(f)) - Tally(h, ReleasesOf(f))
            && Tally(h, LastsOf(f)) + Positive(n) == Tally(h, FirstsOf(f)) + Positive(start)
  {
    if h != [] {
      SequentialFrame(cells, h[..|h| - 1], f, start);
    }
  }

  lemma {:induction false} SequentialDevice(cells: map<Addr, Cell>, h: seq<Entry>, a: Addr)
    requires a.FrameSlot? && (a in cells ==> cells[a] == Device)
    ensures (a in After(cells, h) <==> a in cells) && (a in cells ==> After(cells, h)[a] == Device)
  {
    if h != [] {
      SequentialDevice(cells, h[..|h| - 1], a);
    }
  }

  /**
   In every interleaving a managed slot equals its successful retains minus its
   successful releases, stays below the sentinel, and `LastReference` is answered
   once for every time the count went up from zero and came back.
   */
  lemma FrameConservation(m: Machine, schedule: seq<Label>, f: nat)
    requires Initial(m)
    requires FrameSlot(f) in m.mem && m.mem[FrameSlot(f)] != UNMANAGED
    ensures FrameSlot(f) in Run(m, schedule).mem
    ensures var h, start, n := History(m, schedule), m.mem[FrameSlot(f)], Run(m, schedule).mem[FrameSlot(f)];
            && n <= MAX_MANAGED
            && n == start + Tally(h, RetainsOf(f)) - Tally(h, ReleasesOf(f))
            && Tally(h, LastsOf(f)) + Positive(n) == Tally(h, FirstsOf(f)) + Positive(start)
  {
    InvRun(m, schedule);
    Linearizable(m, schedule);
    SequentialFrame(Cells(m.mem), History(m, schedule), f, m.mem[FrameSlot(f)]);
    assert Cells(Run(m, schedule).mem)[FrameSlot(f)].References?;
  }

  /** Slots of device memory and holes keep the sentinel in every interleaving. */
  lemma {:induction false} DeviceSlotsNeverChange(m: Machine, schedule: seq<Label>, f: nat)
    requires Initial(m)
    requires FrameSlot(f) in m.mem && m.mem[FrameSlot(f)] == UNMANAGED
    ensures FrameSlot(f) in Run(m, schedule).mem && Run(m, schedule).mem[FrameSlot(f)] == UNMANAGED
  {
    InvRun(m, schedule);
    Linearizable(m, schedule);
    SequentialDevice(Cells(m.mem), History(m, schedule), FrameSlot(f));
    assert Cells(Run(m, schedule).mem)[FrameSlot(f)] == Device;
  }

  // ---- Address spaces ----

  function OwnerRetainsOf(s: nat): Entry -> bool { (e: Entry) => e.op == TryRetain(s) && e.result.Retained? }

  function OwnerDropsOf(s: nat): Entry -> bool { (e: Entry) => e.op == ReleaseOwner(s) && e.result.OwnersRemain? }

  /** The two ways an address space ends. */
  function EndsOf(s: nat): Entry -> bool {
    (e: Entry) =>
      (e.op == ReleaseOwner(s) && e.result.LastOwner?) || (e.op == FinishRetirement(s) && e.result.Finished?)
  }

  predicate ChangesOwners(e: Entry, s: nat) {
    OwnerRetainsOf(s)(e) || OwnerDropsOf(s)(e) || EndsOf(s)(e)
    || (e.op == BeginRetirement(s) && e.result.Began?) || (e.op == CancelRetirement(s) && e.result.Cancelled?)
  }

  function OwnersIn(c: Cell): nat { match c case Live(n) => n case Retiring => 1 case _ => 0 }

  lemma {:induction false} SequentialOwner(cells: map<Addr, Cell>, h: seq<Entry>, s: nat)
    requires Legal(cells, h)
    requires OwnerWord(s) in cells && cells[OwnerWord(s)] == Live(1)
    ensures OwnerWord(s) in After(cells, h)
    ensures var c := After(cells, h)[OwnerWord(s)];
            && (c.Gone? || c.Retiring? || (c.Live? && 1 <= c.owners <= U32_MAX))
            && Tally(h, EndsOf(s)) == (if c.Gone? then 1 else 0)
            && OwnersIn(c) + Tally(h, OwnerDropsOf(s)) + Tally(h, EndsOf(s)) == 1 + Tally(h, OwnerRetainsOf(s))
  {
    if h != [] {
      SequentialOwner(cells, h[..|h| - 1], s);
    }
  }

  /**
   In every interleaving at most one call ends an address space, whether by dropping
   the last owner or by finishing a retirement; the word is a count or "retiring", and
   the owners recorded are the ones retained and not yet dropped.
   */
  lemma AddressSpaceEndsOnce(m: Machine, schedule: seq<Label>, s: nat)
    requires Initial(m)
    requires OwnerWord(s) in m.mem && m.mem[OwnerWord(s)] == 1
    ensures OwnerWord(s) in Run(m, schedule).mem
    ensures var h, w := History(m, schedule), Run(m, schedule).mem[OwnerWord(s)];
            && (w <= U32_MAX || w == RETIRING_BIT + 1)
            && Tally(h, EndsOf(s)) == (if w == 0 then 1 else 0)
            && OwnersIn(CellOf(OwnerWord(s), w)) + Tally(h, OwnerDropsOf(s)) + Tally(h, EndsOf(s))
               == 1 + Tally(h, OwnerRetainsOf(s))
  {
    InvRun(m, schedule);
    Linearizable(m, schedule);
    SequentialOwner(Cells(m.mem), History(m, schedule), s);
    assert Cells(Run(m, schedule).mem)[OwnerWord(s)] == CellOf(OwnerWord(s), Run(m, schedule).mem[OwnerWord(s)]);
  }

  lemma {:induction false} LegalPrefix(cells: map<Addr, Cell>, h: seq<Entry>, n: nat)
    requires n <= |h| && Legal(cells, h)
    ensures Legal(cells, h[..n])
    ensures n < |h| ==> AtomicOnMemory(h[n].op, After(cells, h[..n])).result == h[n].result
    ensures n < |h| ==> After(cells, h[..n + 1]) == AtomicOnMemory(h[n].op, After(cells, h[..n])).cells
  {
    if n < |h| {
      assert h[..n + 1][..n] == h[..n];
      if n < |h| - 1 {
        LegalPrefix(cells, h[..|h| - 1], n);
        assert h[..|h| - 1][..n] == h[..n] && h[..|h| - 1][..n + 1] == h[..n + 1];
      } else {
        assert h[..n + 1] == h;
      }
    } else {
      assert h[..n] == h;
    }
  }

  predicate Closed(cells: map<Addr, Cell>, s: nat) {
    OwnerWord(s) in cells && (cells[OwnerWord(s)].Retiring? || cells[OwnerWord(s)].Gone?)
  }

  predicate Cancels(e: Entry, s: nat) { e.op == CancelRetirement(s) && e.result.Cancelled? }

  predicate Begins(e: Entry, s: nat) { e.op == BeginRetirement(s) && e.result.Began? }

  /** A call that only succeeds on an address space that is not retiring. */
  predicate NeedsOpen(e: Entry, s: nat) {
    OwnerRetainsOf(s)(e) || OwnerDropsOf(s)(e) || (e.op == ReleaseOwner(s) && e.result.LastOwner?) || Begins(e, s)
  }

  lemma ClosedCall(cells: map<Addr, Cell>, e: Entry, s: nat)
    requires OwnerWord(s) in cells && AtomicOnMemory(e.op, cells).result == e.result
    ensures Begins(e, s) ==> Closed(AtomicOnMemory(e.op, cells).cells, s)
    ensures Closed(cells, s) ==> !NeedsOpen(e, s)
    ensures Closed(cells, s) && !Cancels(e, s) ==> Closed(AtomicOnMemory(e.op, cells).cells, s)
  {
  }

  /** A retiring or ended address space stays so until a retirement is cancelled. */
  lemma {:induction false} ClosedUntilCancelled(cells: map<Addr, Cell>, h: seq<Entry>, i: nat, j: nat, s: nat)
    requires Legal(cells, h) && i <= j <= |h|
    requires Closed(After(cells, h[..i]), s)
    requires forall k :: i <= k < j ==> !Cancels(h[k], s)
    ensures Closed(After(cells, h[..j]), s)
    decreases j - i
  {
    if i < j {
      ClosedUntilCancelled(cells, h, i, j - 1, s);
      LegalPrefix(cells, h, j - 1);
      ClosedCall(After(cells, h[..j - 1]), h[j - 1], s);
    }
  }

  /**
   Retirement excludes cloning: in every interleaving, after a successful begin no
   retain, release or second begin of that address space succeeds before a successful cancel.
   */
  lemma RetirementExcludesOwners(m: Machine, schedule: seq<Label>, s: nat, i: nat, j: nat)
    requires Initial(m) && OwnerWord(s) in m.mem
    requires i < j < |History(m, schedule)|
    requires Begins(History(m, schedule)[i], s) && NeedsOpen(History(m, schedule)[j], s)
    ensures exists k :: i < k < j && Cancels(History(m, schedule)[k], s)
  {
    Linearizable(m, schedule);
    SequentialRetirement(Cells(m.mem), History(m, schedule), s, i, j);
  }

  lemma SequentialRetirement(cells: map<Addr, Cell>, h: seq<Entry>, s: nat, i: nat, j: nat)
    requires Legal(cells, h) && OwnerWord(s) in cells && i < j < |h| && Begins(h[i], s) && NeedsOpen(h[j], s)
    ensures exists k :: i < k < j && Cancels(h[k], s)
  {
    LegalPrefix(cells, h, i);
    LegalPrefix(cells, h, j);
    OwnerWordKept(cells, h[..i], s);
    OwnerWordKept(cells, h[..j], s);
    ClosedCall(After(cells, h[..i]), h[i], s);
    ClosedCall(After(cells, h[..j]), h[j], s);
    if forall k :: i < k < j ==> !Cancels(h[k], s) {
      ClosedUntilCancelled(cells, h, i + 1, j, s);
    }
  }

  lemma {:induction false} OwnerWordKept(cells: map<Addr, Cell>, h: seq<Entry>, s: nat)
    requires OwnerWord(s) in cells
    ensures OwnerWord(s) in After(cells, h)
  {
    if h != [] {
      OwnerWordKept(cells, h[..|h| - 1], s);
    }
  }

  lemma {:induction false} GoneIsForever(cells: map<Addr, Cell>, h: seq<Entry>, i: nat, j: nat, s: nat)
    requires Legal(cells, h) && i <= j <= |h|
    requires OwnerWord(s) in After(cells, h[..i]) && After(cells, h[..i])[OwnerWord(s)].Gone?
    ensures OwnerWord(s) in After(cells, h[..j]) && After(cells, h[..j])[OwnerWord(s)].Gone?
    decreases j - i
  {
    if i < j {
      GoneIsForever(cells, h, i, j - 1, s);
      LegalPrefix(cells, h, j - 1);
      EndingCall(After(cells, h[..j - 1]), h[j - 1], s);
    }
  }

  lemma EndingCall(cells: map<Addr, Cell>, e: Entry, s: nat)
    requires OwnerWord(s) in cells && AtomicOnMemory(e.op, cells).result == e.result
    ensures EndsOf(s)(e) ==> AtomicOnMemory(e.op, cells).cells[OwnerWord(s)].Gone?
    ensures cells[OwnerWord(s)].Gone? ==> !ChangesOwners(e, s)
    ensures cells[OwnerWord(s)].Gone? ==> AtomicOnMemory(e.op, cells).cells[OwnerWord(s)].Gone?
  {
  }

  /** Zero is absorbing: once an address space has ended, no later call changes its owners. */
  lemma EndedIsForever(m: Machine, schedule: seq<Label>, s: nat, i: nat, j: nat)
    requires Initial(m) && OwnerWord(s) in m.mem
    requires i < j < |History(m, schedule)|
    requires EndsOf(s)(History(m, schedule)[i])
    ensures !ChangesOwners(History(m, schedule)[j], s)
  {
    Linearizable(m, schedule);
    SequentialEnded(Cells(m.mem), History(m, schedule), s, i, j);
  }

  lemma SequentialEnded(cells: map<Addr, Cell>, h: seq<Entry>, s: nat, i: nat, j: nat)
    requires Legal(cells, h) && OwnerWord(s) in cells && i < j < |h| && EndsOf(s)(h[i])
    ensures !ChangesOwners(h[j], s)
  {
    LegalPrefix(cells, h, i);
    LegalPrefix(cells, h, j);
    OwnerWordKept(cells, h[..i], s);
    OwnerWordKept(cells, h[..j], s);
    EndingCall(After(cells, h[..i]), h[i], s);
    GoneIsForever(cells, h, i + 1, j, s);
    EndingCall(After(cells, h[..j]), h[j], s);
  }
}
