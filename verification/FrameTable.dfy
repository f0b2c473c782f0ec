/**
 The frame table and the owner word as the code writes them: objects whose atomic
 words are changed in place by retry loops.  Other threads may change a word before any access;
 `moments` says what each access finds, and whether a weak compare-exchange fails spuriously.
 When a loop is still retrying after the last moment, the answer is `None`.
 */
module FrameTable {
  import opened Wrappers
  import opened OwnershipSpec
  import opened OwnershipMachine
  import opened OwnershipTheorems

  const USIZE_MAX: nat := 0xFFFF_FFFF_FFFF_FFFF

  datatype FrameRange = FrameRange(start: nat, end: nat)

  predicate InRange(r: FrameRange, f: int) { r.start <= f < r.end }

  predicate ManagedBy(ranges: seq<FrameRange>, f: int) { exists r <- ranges :: InRange(r, f) }

  datatype Init =
    | Ready(table: LeafFrameOwnership)
    | NoManagedFrames
    | InvalidRange(range: FrameRange)
    | AllocationFailed

  function SaturatingAdd(a: nat, b: nat): nat { if a + b <= USIZE_MAX then a + b else USIZE_MAX }

  /** Total length of the ranges, without saturation. */
  function TotalFrames(ranges: seq<FrameRange>): nat
    requires forall r <- ranges :: r.start < r.end
  {
    if ranges == [] then 0
    else
      var n := |ranges| - 1;
      TotalFrames(ranges[..n]) + (ranges[n].end - ranges[n].start)
  }

  predicate Apart(ranges: seq<FrameRange>) {
    forall i, j :: 0 <= i < j < |ranges| ==> ranges[i].end <= ranges[j].start || ranges[j].end <= ranges[i].start
  }

  function Interval(a: nat, b: nat): (r: set<nat>)
    ensures forall f :: f in r <==> a <= f < b
    ensures |r| == if a < b then b - a else 0
    decreases b - a
  {
    if a >= b then {} else {a} + Interval(a + 1, b)
  }

  /** The frames inside some range. */
  function Frames(ranges: seq<FrameRange>): set<nat> {
    if ranges == [] then {}
    else
      var n := |ranges| - 1;
      Frames(ranges[..n]) + Interval(ranges[n].start, ranges[n].end)
  }

  lemma {:induction false} FramesAre(ranges: seq<FrameRange>, f: nat)
    ensures f in Frames(ranges) <==> ManagedBy(ranges, f)
  {
    if ranges != [] {
      var n := |ranges| - 1;
      FramesAre(ranges[..n], f);
      ManagedByNext(ranges, n);
      assert ranges[..n + 1] == ranges;
    }
  }

  /** For ranges that do not overlap the total is the number of managed frames. */
  lemma {:induction false} TotalIsCount(ranges: seq<FrameRange>)
    requires (forall r <- ranges :: r.start < r.end) && Apart(ranges)
    ensures TotalFrames(ranges) == |Frames(ranges)|
  {
    if ranges != [] {
      var n := |ranges| - 1;
      TotalIsCount(ranges[..n]);
      forall f | f in Frames(ranges[..n])
        ensures f !in Interval(ranges[n].start, ranges[n].end)
      {
        FramesAre(ranges[..n], f);
        var i :| 0 <= i < n && InRange(ranges[i], f);
      }
    }
  }

  /** The first range that is empty or reversed, if any. */
  function FirstBad(ranges: seq<FrameRange>): Option<FrameRange> {
    if ranges == [] then None
    else if ranges[0].start >= ranges[0].end then Some(ranges[0])
    else FirstBad(ranges[1..])
  }

  lemma {:induction false} FirstBadAt(ranges: seq<FrameRange>, i: nat)
    requires i <= |ranges| && forall k :: 0 <= k < i ==> ranges[k].start < ranges[k].end
    ensures i < |ranges| && ranges[i].start >= ranges[i].end ==> FirstBad(ranges) == Some(ranges[i])
    ensures i == |ranges| ==> FirstBad(ranges) == None
  {
    if i > 0 {
      assert forall k :: 0 <= k < i - 1 ==> ranges[1..][k] == ranges[k + 1];
      FirstBadAt(ranges[1..], i - 1);
    }
  }

  lemma ManagedByNext(ranges: seq<FrameRange>, i: nat)
    requires i < |ranges|
    ensures forall f :: ManagedBy(ranges[..i + 1], f) <==> ManagedBy(ranges[..i], f) || InRange(ranges[i], f)
  {
  }

  datatype Moment = Moment(word: nat, spurious: bool)

  /** Going from `before` to `after` with this answer is one atomic call. */
  predicate IsCall(op: Op, before: nat, after: nat, r: Result) {
    Reply(CellOf(Target(op), after), r) == AtomicCall(op, CellOf(Target(op), before))
  }

  predicate WordsOk(op: Op, moments: seq<Moment>) { forall m <- moments :: WordOk(Target(op), m.word) }

  /**
   The call took effect at its last access, number `last`: on the word found there.  If it changed
   the word, that access was a compare-exchange that did not fail, on the word seen before.
   */
  predicate TookEffect(op: Op, moments: seq<Moment>, last: nat, after: nat, r: Result) {
    && last < |moments| && IsCall(op, moments[last].word, after, r) && AllFailed(moments[..last])
    && ((op.RetainMapping? || op.ReleaseMapping? || op.TryRetain? || op.ReleaseOwner?)
        && after != moments[last].word ==>
          last > 0 && !moments[last].spurious && moments[last].word == moments[last - 1].word)
  }

  /** Every attempt failed, spuriously or because the word had changed since the access before. */
  predicate AllFailed(moments: seq<Moment>) {
    forall k :: 0 < k < |moments| ==> moments[k].spurious || moments[k].word != moments[k - 1].word
  }

  class LeafFrameOwnership {
    var counts: array<nat>
    var managedFrames: nat

    constructor (counts: array<nat>, managedFrames: nat)
      ensures this.counts == counts && this.managedFrames == managedFrames
    {
      this.counts := counts;
      this.managedFrames := managedFrames;
    }

    /** Build the table: managed slots start at zero, all others hold the sentinel. */
    static method TryNew(ranges: seq<FrameRange>, reserveSucceeds: bool) returns (r: Init)
      ensures FirstBad(ranges).Some? ==> r == InvalidRange(FirstBad(ranges).value)
      ensures FirstBad(ranges).None? && ranges == [] ==> r == NoManagedFrames
      ensures FirstBad(ranges).None? && ranges != [] && !reserveSucceeds ==> r == AllocationFailed
      ensures FirstBad(ranges).None? && ranges != [] && reserveSucceeds ==>
                && r.Ready? && fresh(r.table) && fresh(r.table.counts)
                && (exists g <- ranges :: g.end == r.table.counts.Length)
                && (forall g <- ranges :: g.start < g.end <= r.table.counts.Length)
                && r.table.managedFrames == (if TotalFrames(ranges) < 0xFFFF_FFFF_FFFF_FFFF then TotalFrames(ranges)
                                             else 0xFFFF_FFFF_FFFF_FFFF)
                && forall f :: 0 <= f < r.table.counts.Length ==>
                     r.table.counts[f] == if ManagedBy(ranges, f) then 0 else UNMANAGED
    {
      var slotCount: nat, managed: nat := 0, 0;
      ghost var widest := 0;
      for i := 0 to |ranges|
        invariant forall k :: 0 <= k < i ==> ranges[k].start < ranges[k].end <= slotCount
        invariant i > 0 ==> managed > 0 && 0 <= widest < i && ranges[widest].end == slotCount
        invariant i == 0 ==> slotCount == 0
        invariant managed == SaturatingAdd(0, TotalFrames(ranges[..i]))
      {
        if ranges[i].start >= ranges[i].end {
          FirstBadAt(ranges, i);
          return InvalidRange(ranges[i]);
        }
        widest := if slotCount < ranges[i].end then i else widest;
        slotCount := if slotCount < ranges[i].end then ranges[i].end else slotCount;
        assert ranges[..i + 1][..i] == ranges[..i];
        managed := SaturatingAdd(managed, ranges[i].end - ranges[i].start);
      }
      FirstBadAt(ranges, |ranges|);
      assert ranges[..|ranges|] == ranges;
      if slotCount == 0 || managed == 0 {
        return NoManagedFrames;
      }
      if !reserveSucceeds {
        return AllocationFailed;
      }
      var counts := new nat[slotCount](_ => UNMANAGED);
      for i := 0 to |ranges|
        invariant forall f :: 0 <= f < slotCount ==>
                    counts[f] == if ManagedBy(ranges[..i], f) then 0 else UNMANAGED
      {
        StoreZeros(counts, ranges[i]);
        ManagedByNext(ranges, i);
      }
      var table := new LeafFrameOwnership(counts, managed);
      r := Ready(table);
    }

    static method StoreZeros(counts: array<nat>, g: FrameRange)
      requires g.start <= g.end <= counts.Length
      modifies counts
      ensures forall f :: 0 <= f < counts.Length ==> counts[f] == if InRange(g, f) then 0 else old(counts[f])
    {
      for frame := g.start to g.end
        invariant forall f :: 0 <= f < counts.Length ==>
                    counts[f] == if g.start <= f < frame then 0 else old(counts[f])
      {
        counts[frame] := 0;
      }
    }

    /** The retry loop of `retain_mapping` and `release_mapping`. */
    method Update(op: Op, moments: seq<Moment>) returns (r: Option<Result>, last: nat)
      requires (op.RetainMapping? || op.ReleaseMapping?) && WordsOk(op, moments)
      modifies counts
      ensures op.frame >= counts.Length ==> r == Some(Unmanaged) && counts[..] == old(counts[..])
      ensures op.frame < counts.Length ==>
                && counts[..] == old(counts[..])[op.frame := counts[op.frame]]
                && if r.Some? then TookEffect(op, moments, last, counts[op.frame], r.value) else AllFailed(moments)
    {
      last := 0;
      var f := op.frame;
      if f >= counts.Length {
        return Some(Unmanaged), last;
      }
      if moments == [] {
        return None, last;
      }
      counts[f] := moments[0].word;
      var observed := counts[f];
      while true
        invariant last < |moments| && observed == counts[f] == moments[last].word
        invariant counts[..] == old(counts[..])[f := observed]
        invariant AllFailed(moments[..last + 1])
        decreases |moments| - last
      {
        assert moments[last] in moments && AllFailed(moments[..last]);
        DecideRefines(op, observed);
        var v := Decide(op, observed);
        if v.Answer? {
          return Some(v.result), last;
        }
        if last + 1 == |moments| {
          assert moments[..last + 1] == moments;
          return None, last;
        }
        last := last + 1;
        counts[f] := moments[last].word;
        if !moments[last].spurious && counts[f] == observed {
          counts[f] := v.word;
          return Some(v.result), last;
        }
        observed := counts[f];
      }
    }
  }

  class AddressSpaceOwnerCount {
    var word: nat

    constructor ()
      ensures word == 1
    {
      word := 1;
    }

    /** The retry loops and single compare-exchanges on the owner word. */
    method Update(op: Op, moments: seq<Moment>) returns (r: Option<Result>, last: nat)
      requires !IsFrameOp(op) && WordsOk(op, moments)
      modifies this
      ensures if r.Some? then TookEffect(op, moments, last, word, r.value) else AllFailed(moments)
      ensures !op.TryRetain? && !op.ReleaseOwner? && moments != [] ==> r.Some? && last == 0
    {
      last := 0;
      if moments == [] {
        return None, last;
      }
      word := moments[0].word;
      var observed := word;
      while true
        invariant last < |moments| && observed == word == moments[last].word
        invariant !Retries(op) ==> last == 0
        invariant AllFailed(moments[..last + 1])
        decreases |moments| - last
      {
        assert moments[last] in moments && AllFailed(moments[..last]);
        DecideRefines(op, observed);
        var v := Decide(op, observed);
        if v.Answer? {
          return Some(v.result), last;
        }
        if !Retries(op) {
          word := v.word;
          return Some(v.result), last;
        }
        if last + 1 == |moments| {
          assert moments[..last + 1] == moments;
          return None, last;
        }
        last := last + 1;
        word := moments[last].word;
        if !moments[last].spurious && word == observed {
          word := v.word;
          return Some(v.result), last;
        }
        observed := word;
      }
    }
  }

  // ---- From a fresh table to all interleavings ----

  function TableMemory(counts: seq<nat>): map<Addr, nat> {
    map a | a in (set i: nat | i < |counts| :: FrameSlot(i)) :: counts[a.frame]
  }

  /**
   From a table built by `TryNew`, in every interleaving: a frame inside some range holds
   its retains minus its releases, and every other slot keeps the sentinel.
   */
  lemma FreshTableConserves(ranges: seq<FrameRange>, counts: seq<nat>, schedule: seq<Label>, f: nat)
    requires forall i :: 0 <= i < |counts| ==> counts[i] == if ManagedBy(ranges, i) then 0 else UNMANAGED
    requires f < |counts|
    ensures var m := Machine(TableMemory(counts), map[]);
            var n := Run(m, schedule).mem; var h := History(m, schedule);
            && FrameSlot(f) in n
            && (ManagedBy(ranges, f) ==>
                  n[FrameSlot(f)] == Tally(h, RetainsOf(f)) - Tally(h, ReleasesOf(f)) <= MAX_MANAGED)
            && (!ManagedBy(ranges, f) ==> n[FrameSlot(f)] == UNMANAGED)
  {
    var m := Machine(TableMemory(counts), map[]);
    assert FrameSlot(f) in m.mem && m.mem[FrameSlot(f)] == counts[f];
    assert Initial(m);
    if ManagedBy(ranges, f) {
      FrameConservation(m, schedule, f);
    } else {
      DeviceSlotsNeverChange(m, schedule, f);
    }
  }
}
