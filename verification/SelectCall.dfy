/**
 `select(2)` and `pselect6(2)` as `sys_select_chirho` implements them, outside its
 forced-exit edge for sessions in CloseWait.

 Readiness, pending signals and the tick counter belong to the environment: `moments[i]`
 is what the call sees at its scan number `i` and at the two tests that follow an empty
 scan.  The call may wait for ever, so a run covers finitely many scans and answers
 `Blocked` when it is still waiting after the last one.
 */
module SelectCall {
  import opened Wrappers
  import opened FdBits

  const MAX_FDS: nat := 128
  const READ_BYTES: nat := 128
  const WRITE_BYTES: nat := 16
  const U64_MAX: nat := 0xFFFF_FFFF_FFFF_FFFF

  datatype Errno = EFAULT | EINVAL | EINTR

  /** A descriptor-set argument: NULL, or the bytes readable at the pointer. */
  datatype UserSet = NullSet | Memory(bytes: seq<Byte>)

  datatype Format = Timeval | Timespec

  datatype Timeout = NullTimeout | Unreadable | Given(sec: int, subsec: int)

  datatype Moment = Moment(
    readReady: set<nat>, pipes: set<nat>, writeReady: set<nat>, signal: bool, tick: nat,
    readCopyFails: bool, writeCopyFails: bool)

  datatype Outcome =
    | Failed(errno: Errno)
    | Blocked
    | Done(count: int, readOut: seq<Byte>, writeOut: seq<Byte>)

  // ---- Deadline ----

  function Limit(f: Format): nat { match f case Timeval => 1_000_000 case Timespec => 1_000_000_000 }

  function UnitsPerMs(f: Format): nat { match f case Timeval => 1_000 case Timespec => 1_000_000 }

  predicate ValidTimeout(f: Format, sec: int, subsec: int) { 0 <= sec && 0 <= subsec < Limit(f) }

  function SaturatingAdd(a: nat, b: nat): nat { if a + b <= U64_MAX then a + b else U64_MAX }

  function SaturatingMul(a: nat, b: nat): nat { if a * b <= U64_MAX then a * b else U64_MAX }

  function TimeoutMs(f: Format, sec: nat, subsec: nat): nat {
    SaturatingAdd(SaturatingMul(sec, 1000), (subsec + UnitsPerMs(f) - 1) / UnitsPerMs(f))
  }

  function Deadline(f: Format, sec: nat, subsec: nat, now: nat): nat {
    SaturatingAdd(now, TimeoutMs(f, sec, subsec))
  }

  /**
   In both layouts the deadline is the first tick at which the whole timeout has passed,
   so a nonzero timeout puts it strictly after entry, and a zero one at entry; saturation
   only ever moves it to the end of the tick range.
   */
  lemma DeadlineIsExact(f: Format, sec: nat, subsec: nat, now: nat)
    requires ValidTimeout(f, sec, subsec) && now <= U64_MAX
    ensures var d, cap := Deadline(f, sec, subsec, now), 0xFFFF_FFFF_FFFF_FFFF;
            var unit := if f == Timeval then 1_000 else 1_000_000;
            var whole := if f == Timeval then 1_000_000 else 1_000_000_000;
            && now <= d <= cap
            && (d < cap ==> (d - now) * unit >= sec * whole + subsec)
            && (d > now ==> (d - now - 1) * unit < sec * whole + subsec)
            && (d == now <==> (sec == 0 && subsec == 0) || now == cap)
  {
    var unit := UnitsPerMs(f);
    var q := (subsec + unit - 1) / unit;
    assert q * unit >= subsec && (q > 0 ==> (q - 1) * unit < subsec);
    assert Limit(f) == 1000 * unit;
    var ms := sec * 1000 + q;
    assert ms * unit == sec * Limit(f) + q * unit;
    var d := Deadline(f, sec, subsec, now);
    assert d == if now + ms <= U64_MAX then now + ms else U64_MAX;
    if d > now {
      assert d - now - 1 <= ms - 1;
      assert (d - now - 1) * unit <= (ms - 1) * unit == ms * unit - unit;
    }
  }

  /** Which timeouts are refused: a negative field, or a second's worth or more in the second one. */
  lemma ValidTimeoutIs(f: Format, sec: int, subsec: int)
    ensures ValidTimeout(f, sec, subsec) <==>
              sec >= 0 && subsec >= 0 && subsec < (if f == Timeval then 1_000_000 else 1_000_000_000)
  {
  }

  predicate Expired(deadline: Option<nat>, tick: nat) { deadline.Some? && tick >= deadline.value }

  // ---- Readiness ----

  function Min(a: nat, b: nat): nat { if a < b then a else b }

  /** Bytes the caller's `nfds` implies, within the buffer. */
  function SetSize(u: UserSet, nfds: nat, capacity: nat): nat {
    if u.NullSet? then 0 else Min(capacity, (nfds + 7) / 8)
  }

  /** Descriptors asked about: set in the copied bytes, and below both `nfds` and the scan limit. */
  function Requested(u: UserSet, nfds: nat, capacity: nat): set<nat> {
    if u.NullSet? then {}
    else set fd | fd in Fds(u.bytes) && fd < 8 * SetSize(u, nfds, capacity) && fd < Min(nfds, MAX_FDS)
  }

  /** A pipe above the standard descriptors is ready, so descriptors 0 to 4 wait for the next call. */
  predicate PipeFirst(ready: set<nat>, m: Moment) {
    |ready| > 1 && exists fd <- ready :: 5 <= fd < 16 && fd in m.pipes
  }

  function ReadAnswer(requested: set<nat>, m: Moment): set<nat> {
    var ready := requested * m.readReady;
    if PipeFirst(ready, m) then set fd | fd in ready && fd >= 5 else ready
  }

  function WriteAnswer(requested: set<nat>, m: Moment): set<nat> { requested * m.writeReady }

  /** Pipe priority never empties a nonempty answer. */
  lemma PipePriorityKeepsSome(requested: set<nat>, m: Moment)
    ensures ReadAnswer(requested, m) == {} <==> requested * m.readReady == {}
  {
    var ready := requested * m.readReady;
    if PipeFirst(ready, m) {
      var fd :| fd in ready && 5 <= fd < 16 && fd in m.pipes;
      assert fd in ReadAnswer(requested, m);
    }
  }

  // ---- The wait, as a function of its environment ----

  datatype Call = Call(
    readReq: set<nat>, writeReq: set<nat>, readSize: nat, writeSize: nat, deadline: Option<nat>)

  predicate NothingReady(c: Call, m: Moment) {
    ReadAnswer(c.readReq, m) == {} && WriteAnswer(c.writeReq, m) == {}
  }

  predicate EndsAt(c: Call, m: Moment) { !NothingReady(c, m) || m.signal || Expired(c.deadline, m.tick) }

  /** Number of the first scan after which the call returns; `|moments|` if it still waits. */
  function FirstEnd(c: Call, moments: seq<Moment>): (k: nat)
    ensures k <= |moments|
    ensures k < |moments| ==> EndsAt(c, moments[k])
    ensures forall i :: 0 <= i < k ==> !EndsAt(c, moments[i])
  {
    if moments == [] || EndsAt(c, moments[0]) then 0 else 1 + FirstEnd(c, moments[1..])
  }

  predicate CopyFails(m: Moment, c: Call) {
    (c.readSize > 0 && m.readCopyFails) || (c.writeSize > 0 && m.writeCopyFails)
  }

  /** `r` is the answer after a scan at `m`: ready before signal before timeout. */
  predicate Answers(c: Call, m: Moment, r: Outcome) {
    if NothingReady(c, m) && m.signal then r == Failed(EINTR)
    else if CopyFails(m, c) then r == Failed(EFAULT)
    else
      && r.Done? && |r.readOut| == c.readSize && |r.writeOut| == c.writeSize
      && Fds(r.readOut) == ReadAnswer(c.readReq, m) && Fds(r.writeOut) == WriteAnswer(c.writeReq, m)
      && r.count == |Fds(r.readOut)| + |Fds(r.writeOut)|
  }

  predicate Waits(c: Call, moments: seq<Moment>, r: Outcome) {
    var k := FirstEnd(c, moments);
    if k == |moments| then r == Blocked else Answers(c, moments[k], r)
  }

  // ---- The code ----

  predicate Copyable(u: UserSet, size: nat) { u.NullSet? || size <= |u.bytes| }

  function CallWith(nfds: nat, readSet: UserSet, writeSet: UserSet, deadline: Option<nat>): Call {
    Call(Requested(readSet, nfds, READ_BYTES), Requested(writeSet, nfds, WRITE_BYTES),
         SetSize(readSet, nfds, READ_BYTES), SetSize(writeSet, nfds, WRITE_BYTES), deadline)
  }

  function CallOf(nfds: nat, readSet: UserSet, writeSet: UserSet, timeout: Timeout, f: Format, now: nat): Call
    requires timeout.Given? ==> ValidTimeout(f, timeout.sec, timeout.subsec)
  {
    CallWith(nfds, readSet, writeSet,
             if timeout.Given? then Some(Deadline(f, timeout.sec, timeout.subsec, now)) else None)
  }

  function Below(s: set<nat>, n: nat): set<nat> { set d | d in s && d < n }

  lemma BelowNext(s: set<nat>, n: nat)
    ensures Below(s, n + 1) == Below(s, n) + if n in s then {n} else {}
    ensures n !in Below(s, n)
  {
  }

  lemma RequestedAt(u: UserSet, nfds: nat, capacity: nat, fd: nat)
    requires Copyable(u, SetSize(u, nfds, capacity)) && fd < Min(nfds, MAX_FDS)
    ensures fd in Requested(u, nfds, capacity) <==>
              fd / 8 < SetSize(u, nfds, capacity) && Has(u.bytes[fd / 8], fd % 8)
  {
  }

  /** Descriptor `fd` decided: marked exactly if it belongs to the answer. */
  lemma Marked(out: seq<Byte>, answer: set<nat>, fd: nat)
    requires fd < 8 * |out| && Fds(out) == Below(answer, fd)
    ensures fd in answer ==> Fds(With(out, fd)) == Below(answer, fd + 1) && |Fds(With(out, fd))| == |Fds(out)| + 1
    ensures fd !in answer ==> Fds(out) == Below(answer, fd + 1)
  {
    BelowNext(answer, fd);
    WithAdds(out, fd);
  }

  /** One pass over the requested descriptors, marking the ready ones. */
  method MarkReady(nfds: nat, u: UserSet, capacity: nat, ready: set<nat>) returns (count: nat, out: seq<Byte>)
    requires Copyable(u, SetSize(u, nfds, capacity)) && capacity * 8 >= MAX_FDS
    ensures |out| == capacity && Fds(out) == Requested(u, nfds, capacity) * ready && count == |Fds(out)|
  {
    var size := SetSize(u, nfds, capacity);
    ghost var answer := Requested(u, nfds, capacity) * ready;
    out, count := seq(capacity, _ => 0), 0;
    NoFds(out);
    assert Below(answer, 0) == {};
    for fd: nat := 0 to Min(nfds, MAX_FDS)
      invariant |out| == capacity && count == |Fds(out)|
      invariant Fds(out) == Below(answer, fd)
    {
      var byte := fd / 8;
      RequestedAt(u, nfds, capacity, fd);
      Marked(out, answer, fd);
      if byte < size && Has(u.bytes[byte], fd % 8) && fd in ready {
        out, count := With(out, fd), count + 1;
      }
    }
    assert Below(answer, Min(nfds, MAX_FDS)) == answer;
  }

  lemma PipePriorityBits(out: seq<Byte>, m: Moment)
    requires |out| == READ_BYTES
    requires exists fd <- Fds(out) :: 5 <= fd < 16 && fd in m.pipes
    ensures var cleared := out[0 := out[0] & 0xE0];
            && Fds(cleared) == (set fd | fd in Fds(out) && fd >= 5)
            && |Fds(cleared)| == |Fds(out)| - Ones(out[0] & 0x1F, 8) >= 1
            && (out[0] & 0x1F == 0 ==> cleared == out)
  {
    ClearLowFive(out);
    var fd :| fd in Fds(out) && 5 <= fd < 16 && fd in m.pipes;
    assert fd in Fds(out[0 := out[0] & 0xE0]);
    assert out[0] & 0x1F == 0 ==> out[0] & 0xE0 == out[0];
  }

  /** The read pass.  The code's guard against a count below one never fires. */
  method ScanRead(nfds: nat, readSet: UserSet, m: Moment) returns (count: int, out: seq<Byte>)
    requires Copyable(readSet, SetSize(readSet, nfds, READ_BYTES))
    ensures |out| == READ_BYTES
    ensures Fds(out) == ReadAnswer(Requested(readSet, nfds, READ_BYTES), m) && count == |Fds(out)|
  {
    count, out := MarkReady(nfds, readSet, READ_BYTES, m.readReady);
    var pipeReady := exists fd: nat | 1 <= fd < 16 :: Has(out[fd / 8], fd % 8) && fd > 4 && fd in m.pipes;
    assert pipeReady <==> exists fd <- Fds(out) :: 5 <= fd < 16 && fd in m.pipes by {
      if pipeReady {
        var fd: nat :| 1 <= fd < 16 && Has(out[fd / 8], fd % 8) && fd > 4 && fd in m.pipes;
        assert fd in Fds(out);
      }
      if exists fd <- Fds(out) :: 5 <= fd < 16 && fd in m.pipes {
        var fd :| fd in Fds(out) && 5 <= fd < 16 && fd in m.pipes;
        assert Has(out[fd / 8], fd % 8);
      }
    }
    if pipeReady && count > 1 {
      PipePriorityBits(out, m);
      var low := out[0] & 0x1F;
      if low != 0 {
        out, count := out[0 := out[0] & 0xE0], count - Ones(low, 8);
        if count < 1 { count := 1; }
      }
    }
  }

  method CopyOut(bits: seq<Byte>, size: nat) returns (out: seq<Byte>)
    requires size <= |bits|
    requires forall fd <- Fds(bits) :: fd < 8 * size
    ensures |out| == size && Fds(out) == Fds(bits)
  {
    out := bits[..size];
    PrefixFds(bits, size);
  }

  method Select(nfds: int, readSet: UserSet, writeSet: UserSet, timeout: Timeout, f: Format, now: nat,
                moments: seq<Moment>) returns (r: Outcome)
    ensures nfds < 0 ==> r == Failed(EINVAL)
    ensures nfds >= 0 && timeout.Unreadable? ==> r == Failed(EFAULT)
    ensures nfds >= 0 && timeout.Given? && !ValidTimeout(f, timeout.sec, timeout.subsec) ==> r == Failed(EINVAL)
    ensures nfds >= 0 && !timeout.Unreadable? && (timeout.Given? ==> ValidTimeout(f, timeout.sec, timeout.subsec)) ==>
              if (writeSet.Memory? && |writeSet.bytes| < if nfds > 128 then 16 else (nfds + 7) / 8)
                 || (readSet.Memory? && |readSet.bytes| < if nfds > 1024 then 128 else (nfds + 7) / 8)
              then r == Failed(EFAULT)
              else Waits(CallOf(nfds, readSet, writeSet, timeout, f, now), moments, r)
  {
    if nfds < 0 {
      return Failed(EINVAL);
    }
    var deadline := None;
    match timeout {
      case NullTimeout =>
      case Unreadable => return Failed(EFAULT);
      case Given(sec, subsec) =>
        if !ValidTimeout(f, sec, subsec) {
          return Failed(EINVAL);
        }
        deadline := Some(Deadline(f, sec, subsec, now));
    }
    var writeSize := SetSize(writeSet, nfds, WRITE_BYTES);
    if !Copyable(writeSet, writeSize) {
      return Failed(EFAULT);
    }
    var readSize := SetSize(readSet, nfds, READ_BYTES);
    if !Copyable(readSet, readSize) {
      return Failed(EFAULT);
    }
    r := Wait(nfds, readSet, writeSet, deadline, moments);
  }

  /** The entry scan and the blocking loop. */
  method Wait(nfds: nat, readSet: UserSet, writeSet: UserSet, deadline: Option<nat>, moments: seq<Moment>)
    returns (r: Outcome)
    requires Copyable(writeSet, SetSize(writeSet, nfds, WRITE_BYTES))
    requires Copyable(readSet, SetSize(readSet, nfds, READ_BYTES))
    ensures Waits(CallWith(nfds, readSet, writeSet, deadline), moments, r)
  {
    ghost var c := CallWith(nfds, readSet, writeSet, deadline);
    for i := 0 to |moments|
      invariant forall k :: 0 <= k < i ==> !EndsAt(c, moments[k])
    {
      var answer := Pass(nfds, readSet, writeSet, deadline, moments[i]);
      if answer.Some? {
        FirstEndIs(c, moments, i);
        return answer.value;
      }
    }
    FirstEndIs(c, moments, |moments|);
    return Blocked;
  }

  /** One scan of both sets and the two tests that follow an empty one. */
  method Pass(nfds: nat, readSet: UserSet, writeSet: UserSet, deadline: Option<nat>, m: Moment)
    returns (r: Option<Outcome>)
    requires Copyable(writeSet, SetSize(writeSet, nfds, WRITE_BYTES))
    requires Copyable(readSet, SetSize(readSet, nfds, READ_BYTES))
    ensures r.Some? <==> EndsAt(CallWith(nfds, readSet, writeSet, deadline), m)
    ensures r.Some? ==> Answers(CallWith(nfds, readSet, writeSet, deadline), m, r.value)
  {
    var readCount, readBits := ScanRead(nfds, readSet, m);
    var writeCount, writeBits := MarkReady(nfds, writeSet, WRITE_BYTES, m.writeReady);
    r := Conclude(CallWith(nfds, readSet, writeSet, deadline), SetSize(readSet, nfds, READ_BYTES),
                  SetSize(writeSet, nfds, WRITE_BYTES), deadline, m, readCount, readBits, writeCount, writeBits);
  }

  /** After a scan: copy out what was found, or look for a signal and then at the clock. */
  method Conclude(ghost c: Call, readSize: nat, writeSize: nat, deadline: Option<nat>, m: Moment,
                  readCount: int, readBits: seq<Byte>, writeCount: int, writeBits: seq<Byte>)
    returns (r: Option<Outcome>)
    requires c.readSize == readSize <= |readBits| && c.writeSize == writeSize <= |writeBits| && c.deadline == deadline
    requires Fds(readBits) == ReadAnswer(c.readReq, m) && readCount == |Fds(readBits)|
    requires Fds(writeBits) == WriteAnswer(c.writeReq, m) && writeCount == |Fds(writeBits)|
    requires (forall fd <- Fds(readBits) :: fd < 8 * readSize) && (forall fd <- Fds(writeBits) :: fd < 8 * writeSize)
    ensures r.Some? <==> EndsAt(c, m)
    ensures r.Some? ==> Answers(c, m, r.value)
  {
    var copyFails := (readSize > 0 && m.readCopyFails) || (writeSize > 0 && m.writeCopyFails);
    if readCount > 0 || writeCount > 0 {
      if copyFails {
        return Some(Failed(EFAULT));
      }
      var readOut := CopyOut(readBits, readSize);
      var writeOut := CopyOut(writeBits, writeSize);
      return Some(Done(readCount + writeCount, readOut, writeOut));
    }
    if m.signal {
      return Some(Failed(EINTR));
    }
    if Expired(deadline, m.tick) {
      if copyFails {
        return Some(Failed(EFAULT));
      }
      var noReads, noWrites := seq(readSize, _ => 0), seq(writeSize, _ => 0);
      NoFds(noReads);
      NoFds(noWrites);
      return Some(Done(0, noReads, noWrites));
    }
    return None;
  }

  lemma FirstEndIs(c: Call, moments: seq<Moment>, i: nat)
    requires i <= |moments| && forall k :: 0 <= k < i ==> !EndsAt(c, moments[k])
    ensures i == |moments| || EndsAt(c, moments[i]) ==> FirstEnd(c, moments) == i
  {
  }

  // ---- Theorems ----

  /** Bytes for the descriptors below `nfds`: the last one may be partly used. */
  lemma SizeIsCeiling(u: UserSet, nfds: nat)
    ensures u.NullSet? ==> SetSize(u, nfds, READ_BYTES) == 0 && SetSize(u, nfds, WRITE_BYTES) == 0
    ensures u.Memory? && nfds <= 1024 ==>
              8 * SetSize(u, nfds, READ_BYTES) - 8 < nfds <= 8 * SetSize(u, nfds, READ_BYTES)
    ensures u.Memory? && nfds > 1024 ==> SetSize(u, nfds, READ_BYTES) == 128
    ensures u.Memory? && nfds <= 128 ==>
              8 * SetSize(u, nfds, WRITE_BYTES) - 8 < nfds <= 8 * SetSize(u, nfds, WRITE_BYTES)
    ensures u.Memory? && nfds > 128 ==> SetSize(u, nfds, WRITE_BYTES) == 16
  {
  }

  /** Every descriptor set in the caller's memory, below `nfds` and below 128, is asked about, and no other. */
  lemma RequestedExactly(u: UserSet, nfds: nat)
    requires u.Memory?
    ensures Requested(u, nfds, READ_BYTES) == set fd | fd in Fds(u.bytes) && fd < nfds && fd < 128
    ensures Requested(u, nfds, WRITE_BYTES) == set fd | fd in Fds(u.bytes) && fd < nfds && fd < 128
  {
    SizeIsCeiling(u, nfds);
  }

  /** The descriptors below `nfds` and 128 whose bit the caller set. */
  function Set(u: UserSet, nfds: nat): set<nat> {
    if u.NullSet? then {} else set fd | fd in Fds(u.bytes) && fd < nfds && fd < 128
  }

  /** The copied-out sets are as long as `nfds` says, up to 128 and 16 bytes. */
  lemma OutputSizes(nfds: nat, readSet: UserSet, writeSet: UserSet, deadline: Option<nat>, moments: seq<Moment>,
                    r: Outcome)
    requires Waits(CallWith(nfds, readSet, writeSet, deadline), moments, r) && r.Done?
    ensures |r.readOut| == if readSet.NullSet? then 0 else if nfds > 1024 then 128 else (nfds + 7) / 8
    ensures |r.writeOut| == if writeSet.NullSet? then 0 else if nfds > 128 then 16 else (nfds + 7) / 8
  {
  }

  /**
   Exactly when a call is still waiting after the last of these moments: at none of them was a
   descriptor the caller set ready, a signal pending or the deadline reached.
   */
  lemma BlockedExactly(nfds: nat, readSet: UserSet, writeSet: UserSet, deadline: Option<nat>, moments: seq<Moment>,
                       r: Outcome)
    requires Waits(CallWith(nfds, readSet, writeSet, deadline), moments, r)
    ensures r == Blocked <==>
              forall i :: 0 <= i < |moments| ==>
                StillWaits(Set(readSet, nfds), Set(writeSet, nfds), deadline, moments[i])
  {
    var c := CallWith(nfds, readSet, writeSet, deadline);
    CallIs(nfds, readSet, writeSet, deadline);
    forall i | 0 <= i < |moments|
      ensures EndsAt(c, moments[i]) <==> !StillWaits(c.readReq, c.writeReq, deadline, moments[i])
    {
      EndsExactly(c, moments[i]);
    }
    BlockedByMoments(c, moments, r);
  }

  /** Nothing that could end the call. */
  predicate StillWaits(readReq: set<nat>, writeReq: set<nat>, deadline: Option<nat>, m: Moment) {
    && readReq * m.readReady == {} && writeReq * m.writeReady == {}
    && !m.signal && (deadline.Some? ==> m.tick < deadline.value)
  }

  lemma BlockedByMoments(c: Call, moments: seq<Moment>, r: Outcome)
    requires Waits(c, moments, r)
    ensures r == Blocked <==> forall i :: 0 <= i < |moments| ==> !EndsAt(c, moments[i])
  {
  }

  lemma CallIs(nfds: nat, readSet: UserSet, writeSet: UserSet, deadline: Option<nat>)
    ensures var c := CallWith(nfds, readSet, writeSet, deadline);
            c.readReq == Set(readSet, nfds) && c.writeReq == Set(writeSet, nfds) && c.deadline == deadline
  {
    if readSet.Memory? { RequestedExactly(readSet, nfds); }
    if writeSet.Memory? { RequestedExactly(writeSet, nfds); }
  }

  lemma EndsExactly(c: Call, m: Moment)
    ensures EndsAt(c, m) <==> !StillWaits(c.readReq, c.writeReq, c.deadline, m)
  {
    PipePriorityKeepsSome(c.readReq, m);
  }

  /**
   What an answer reports.  The write set is every descriptor set and ready; so is the read set,
   except that when a pipe among descriptors 5 to 15 is ready together with another one,
   descriptors 0 to 4 are left for the next call.
   */
  lemma ReportsExactly(nfds: nat, readSet: UserSet, writeSet: UserSet, deadline: Option<nat>, moments: seq<Moment>,
                       r: Outcome)
    requires Waits(CallWith(nfds, readSet, writeSet, deadline), moments, r) && r.Done?
    ensures var c := CallWith(nfds, readSet, writeSet, deadline);
            && FirstEnd(c, moments) < |moments|
            && var m := moments[FirstEnd(c, moments)];
            var ready := Set(readSet, nfds) * m.readReady;
            && Fds(r.writeOut) == Set(writeSet, nfds) * m.writeReady
            && Fds(r.readOut) == (if |ready| > 1
                                     && (exists fd <- ready :: fd in {5, 6, 7, 8, 9, 10, 11, 12, 13, 14, 15} * m.pipes)
                                  then ready - {0, 1, 2, 3, 4} else ready)
  {
    CallIs(nfds, readSet, writeSet, deadline);
    var c := CallWith(nfds, readSet, writeSet, deadline);
    ReadAnswerIs(c.readReq, moments[FirstEnd(c, moments)]);
  }

  lemma ReadAnswerIs(requested: set<nat>, m: Moment)
    ensures var ready := requested * m.readReady;
            ReadAnswer(requested, m) ==
              if |ready| > 1 && (exists fd <- ready :: fd in {5, 6, 7, 8, 9, 10, 11, 12, 13, 14, 15} * m.pipes)
              then ready - {0, 1, 2, 3, 4} else ready
  {
  }

  /**
   A zero is always an earned timeout: there was a deadline, every scan up to the last found
   nothing, no signal was pending at any of them, the deadline passed at the last and at no
   earlier one, and both output sets are empty.
   */
  lemma ZeroIsEarned(c: Call, moments: seq<Moment>, r: Outcome)
    requires Waits(c, moments, r) && r.Done? && r.count == 0
    ensures var k := FirstEnd(c, moments);
            && k < |moments| && c.deadline.Some?
            && (forall i :: 0 <= i <= k ==> NothingReady(c, moments[i]) && !moments[i].signal)
            && moments[k].tick >= c.deadline.value
            && (forall i :: 0 <= i < k ==> moments[i].tick < c.deadline.value)
            && Fds(r.readOut) == {} && Fds(r.writeOut) == {}
  {
  }

  /**
   A positive count is the number of bits written; they were asked for, lie below
   `min(nfds, 128)` and within the bytes copied out, and stem from the first scan that found anything.
   */
  lemma PositiveCountsWrittenBits(nfds: nat, readSet: UserSet, writeSet: UserSet, timeout: Timeout, f: Format, now: nat,
                                  moments: seq<Moment>, r: Outcome)
    requires timeout.Given? ==> ValidTimeout(f, timeout.sec, timeout.subsec)
    requires Waits(CallOf(nfds, readSet, writeSet, timeout, f, now), moments, r) && r.Done? && r.count > 0
    ensures var c := CallOf(nfds, readSet, writeSet, timeout, f, now); var k := FirstEnd(c, moments);
            && r.count == |Fds(r.readOut)| + |Fds(r.writeOut)|
            && (forall fd <- Fds(r.readOut) ::
                  readSet.Memory? && fd in Fds(readSet.bytes) && fd < Min(nfds, MAX_FDS) && fd < 8 * |r.readOut|)
            && (forall fd <- Fds(r.writeOut) ::
                  writeSet.Memory? && fd in Fds(writeSet.bytes) && fd < Min(nfds, MAX_FDS) && fd < 8 * |r.writeOut|)
            && Fds(r.readOut) <= moments[k].readReady && Fds(r.writeOut) <= moments[k].writeReady
            && (forall i :: 0 <= i < k ==> NothingReady(c, moments[i]))
  {
  }

  /** A scan that finds readiness beats a signal and a timeout seen with it; a signal beats a timeout. */
  lemma ReadyBeatsSignalBeatsTimeout(c: Call, moments: seq<Moment>, r: Outcome)
    requires Waits(c, moments, r) && FirstEnd(c, moments) < |moments|
    ensures var m := moments[FirstEnd(c, moments)];
            && (!NothingReady(c, m) ==> (r.Done? && r.count > 0) || (r == Failed(EFAULT) && CopyFails(m, c)))
            && (NothingReady(c, m) && m.signal ==> r == Failed(EINTR))
            && (r == Failed(EINTR) ==> NothingReady(c, m))
  {
  }

  /** A NULL timeout never yields zero. */
  lemma NullTimeoutNeverZero(nfds: nat, readSet: UserSet, writeSet: UserSet, f: Format, now: nat,
                             moments: seq<Moment>, r: Outcome)
    requires Waits(CallOf(nfds, readSet, writeSet, NullTimeout, f, now), moments, r)
    ensures !(r.Done? && r.count == 0)
  {
  }
}
