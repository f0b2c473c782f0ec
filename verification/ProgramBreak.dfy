/**
 `brk(2)`: growing maps zeroed frames page by page; the allocator and the page-table
 walker may fail at any page.  Sums wrap at 64 bits, as in a release build.
 */
module ProgramBreak {
  import opened Wrappers

  const PAGE: nat := 0x1000
  const SMALL_GROWTH: nat := 0x4000
  const PADDING: nat := 0x100000
  const TWO64: nat := 0x1_0000_0000_0000_0000

  type Contents = seq<nat>

  function ZeroPage(): Contents { seq(PAGE, _ => 0) }

  lemma ZeroPageIs()
    ensures |ZeroPage()| == 4096 && forall i :: 0 <= i < 4096 ==> ZeroPage()[i] == 0
  {
  }

  datatype Task = Task(pid: nat, brk: Address)

  /** Page table and frame contents of the current address space, free frames, and the two records of the break. */
  datatype Space = Space(
    task: Option<Task>, globalBrk: Address, pages: map<nat, nat>, bytes: map<nat, Contents>, free: set<nat>)

  /** What the allocator and the mapper do for the next page that needs a frame. */
  datatype Grant = NoFrame | Frame(frame: nat, mapSucceeds: bool)

  type Address = x: int | 0 <= x < TWO64

  function Plus(a: Address, n: nat): Address { (a + n) % TWO64 }

  function PageUp(a: Address): Address { Plus(a, PAGE - 1) / PAGE * PAGE }

  predicate Aligned(a: int) { a % PAGE == 0 }

  predicate PerProcess(s: Space) { s.task.Some? && s.task.value.pid != 0 && s.task.value.brk != 0 }

  function CurrentBrk(s: Space): Address { if PerProcess(s) then s.task.value.brk else s.globalBrk }

  function Padding(was: Address, addr: Address): nat { if addr - was <= SMALL_GROWTH then PADDING else 0 }

  function PaddedEnd(was: Address, addr: Address): Address { PageUp(Plus(addr, Padding(was, addr))) }

  /** Some sum of the growth passes 2^64. */
  predicate Wraps(was: Address, addr: Address) { addr + Padding(was, addr) + (PAGE - 1) >= TWO64 }

  /** Every page of [from, to) is mapped. */
  predicate MappedBetween(s: Space, from: int, to: int) {
    forall p :: from <= p < to && Aligned(p) ==> p in s.pages
  }

  /** The allocator never hands out a frame in use: mapped frames are distinct and not free. */
  predicate FramesOk(s: Space) {
    && (forall p <- s.pages :: s.pages[p] !in s.free && s.pages[p] in s.bytes)
    && (forall p <- s.pages, q <- s.pages :: p != q ==> s.pages[p] != s.pages[q])
  }

  /** Mapped pages keep frame and contents; new ones lie in [from, to), come from free frames and are zero. */
  predicate OnlyMaps(s: Space, n: Space, from: nat, to: nat) {
    && (forall p <- s.pages :: p in n.pages && n.pages[p] == s.pages[p])
    && (forall p <- s.pages :: s.pages[p] in s.bytes ==>
          s.pages[p] in n.bytes && n.bytes[s.pages[p]] == s.bytes[s.pages[p]])
    && (forall p <- n.pages :: p in s.pages
          || (from <= p < to && Aligned(p) && n.pages[p] in s.free
              && n.pages[p] in n.bytes && n.bytes[n.pages[p]] == ZeroPage()))
    && n.free <= s.free
  }

  /** One call: `addr` 0 asks, a larger break maps and then moves, a smaller one only moves. */
  ghost predicate BrkStep(s: Space, addr: Address, n: Space, r: Address) {
    var was := CurrentBrk(s);
    if addr == 0 then n == s && r == was
    else if addr <= was then
      r == addr && CurrentBrk(n) == addr && n == s.(task := n.task, globalBrk := n.globalBrk)
    else
      && OnlyMaps(s, n, PageUp(was), PaddedEnd(was, addr))
      && CurrentBrk(n) == r && (r == addr || r == was)
      && (r == addr ==> MappedBetween(n, PageUp(was), PaddedEnd(was, addr)))
      && (r == was ==> n.task == s.task && n.globalBrk == s.globalBrk
                       && !MappedBetween(n, PageUp(was), PaddedEnd(was, addr)))
  }

  /** The pages a growth to `addr` has to map. */
  function ToMap(s: Space, addr: Address): seq<nat> {
    Missing(s.pages.Keys, PageUp(CurrentBrk(s)), PaddedEnd(CurrentBrk(s), addr))
  }

  // ---- What the growth loop computes ----

  datatype Grown = Grown(space: Space, ok: bool)

  function Next(grants: seq<Grant>): Grant { if grants == [] then NoFrame else grants[0] }

  function Later(grants: seq<Grant>): seq<Grant> { if grants == [] then [] else grants[1..] }

  function GrowPage(s: Space, page: nat, g: Grant): Grown {
    if g.NoFrame? || g.frame !in s.free then Grown(s, false)
    else
      var taken := s.(free := s.free - {g.frame}, bytes := s.bytes[g.frame := ZeroPage()]);
      if g.mapSucceeds then Grown(taken.(pages := s.pages[page := g.frame]), true) else Grown(taken, false)
  }

  function Grow(s: Space, page: nat, end: nat, grants: seq<Grant>): Grown
    decreases end - page
  {
    if page >= end then Grown(s, true)
    else if page in s.pages then Grow(s, page + PAGE, end, grants)
    else
      var one := GrowPage(s, page, Next(grants));
      if one.ok then Grow(one.space, page + PAGE, end, Later(grants)) else one
  }

  lemma GrowPageMaps(s: Space, page: nat, g: Grant)
    requires FramesOk(s) && page !in s.pages && Aligned(page)
    ensures var one := GrowPage(s, page, g);
            && FramesOk(one.space) && OnlyMaps(s, one.space, page, page + PAGE)
            && one.space.pages.Keys == s.pages.Keys + (if one.ok then {page} else {})
            && one.space.task == s.task && one.space.globalBrk == s.globalBrk
  {
  }

  /** What is missing of a range is mapped, nothing else changes, and `ok` says whether all of it is mapped. */
  predicate GrownTo(s: Space, n: Grown, page: nat, end: nat) {
    && FramesOk(n.space) && OnlyMaps(s, n.space, page, end)
    && (n.ok <==> MappedBetween(n.space, page, end))
    && n.space.task == s.task && n.space.globalBrk == s.globalBrk
  }

  lemma GrownNext(s: Space, one: Space, n: Grown, page: nat, end: nat)
    requires FramesOk(s) && FramesOk(one) && Aligned(page) && Aligned(end) && page < end
    requires OnlyMaps(s, one, page, page + PAGE) && page in one.pages
    requires one.task == s.task && one.globalBrk == s.globalBrk && GrownTo(one, n, page + PAGE, end)
    ensures GrownTo(s, n, page, end)
  {
    NextPage(page, end);
    OnlyMapsTrans(s, one, n.space, page, page + PAGE, end);
    MappedFrom(n.space, page, end);
  }

  lemma NextPage(page: nat, end: nat)
    requires Aligned(page) && Aligned(end) && page < end
    ensures Aligned(page + PAGE) && page + PAGE <= end
  {
  }

  lemma NothingMapped(s: Space, page: nat)
    ensures OnlyMaps(s, s, page, page + PAGE)
  {
  }

  /** A refused page: the growth stops there. */
  lemma GrownStops(s: Space, one: Grown, page: nat, end: nat)
    requires FramesOk(s) && FramesOk(one.space) && Aligned(page) && page < end
    requires OnlyMaps(s, one.space, page, page + PAGE)
    requires !one.ok && page !in one.space.pages && one.space.pages.Keys == s.pages.Keys && Aligned(end)
    requires one.space.task == s.task && one.space.globalBrk == s.globalBrk
    ensures GrownTo(s, one, page, end)
  {
    NextPage(page, end);
  }

  lemma {:induction false} GrowMaps(s: Space, page: nat, end: nat, grants: seq<Grant>)
    requires FramesOk(s) && Aligned(page) && Aligned(end)
    ensures GrownTo(s, Grow(s, page, end, grants), page, end)
    decreases end - page
  {
    if page < end && page in s.pages {
      NextPage(page, end);
      GrowMaps(s, page + PAGE, end, grants);
      NothingMapped(s, page);
      GrownNext(s, s, Grow(s, page, end, grants), page, end);
    } else if page < end {
      var one := GrowPage(s, page, Next(grants));
      GrowPageMaps(s, page, Next(grants));
      if one.ok {
        NextPage(page, end);
        GrowMaps(one.space, page + PAGE, end, Later(grants));
        GrownNext(s, one.space, Grow(s, page, end, grants), page, end);
      } else {
        GrownStops(s, one, page, end);
      }
    }
  }

  /** A range is mapped if its first page and the rest are. */
  lemma MappedFrom(s: Space, page: nat, end: int)
    requires Aligned(page) && page in s.pages
    ensures MappedBetween(s, page, end) <==> MappedBetween(s, page + PAGE, end)
  {
    assert forall p :: page < p < page + PAGE ==> !Aligned(p);
  }

  // ---- When a growth is granted ----

  /** The pages of [page, end) without a frame, in order. */
  function Missing(pages: set<nat>, page: nat, end: nat): (ps: seq<nat>)
    decreases end - page
  {
    if page >= end then []
    else (if page in pages then [] else [page]) + Missing(pages, page + PAGE, end)
  }

  /** `ps` are exactly the unmapped pages of [page, end), in order. */
  ghost predicate Unmapped(pages: set<nat>, page: nat, end: nat, ps: seq<nat>) {
    && (forall i :: 0 <= i < |ps| ==> page <= ps[i] < end && ps[i] % 4096 == 0 && ps[i] !in pages)
    && (forall p: nat :: page <= p < end && p % 4096 == 0 && p !in pages ==> p in ps)
    && (forall i, j :: 0 <= i < j < |ps| ==> ps[i] < ps[j])
  }

  lemma {:induction false} MissingIs(pages: set<nat>, page: nat, end: nat)
    requires page % 4096 == 0
    ensures Unmapped(pages, page, end, Missing(pages, page, end))
    decreases end - page
  {
    if page < end {
      MissingIs(pages, page + PAGE, end);
      UnmappedMore(pages, page, end, Missing(pages, page + PAGE, end));
    }
  }

  lemma UnmappedMore(pages: set<nat>, page: nat, end: nat, rest: seq<nat>)
    requires page % 4096 == 0 && page < end && Unmapped(pages, page + 4096, end, rest)
    ensures Unmapped(pages, page, end, (if page in pages then [] else [page]) + rest)
  {
    var ps := (if page in pages then [] else [page]) + rest;
    assert forall p: nat :: page < p < page + 4096 ==> p % 4096 != 0;
    assert forall p :: p in ps <==> p in rest || (p == page && page !in pages);
  }

  /** The first `n` answers are distinct free frames, and each of them could be mapped. */
  predicate Granted(grants: seq<Grant>, free: set<nat>, n: nat) {
    && n <= |grants|
    && (forall i :: 0 <= i < n ==> grants[i].Frame? && grants[i].mapSucceeds && grants[i].frame in free)
    && (forall i, j :: 0 <= i < j < n ==> grants[i].frame != grants[j].frame)
  }

  /** `n` has `k` more pages than `s`, the first ones missing, with the first frames granted. */
  ghost predicate Received(s: Space, n: Space, missing: seq<nat>, grants: seq<Grant>, k: nat)
    requires k <= |missing| && Granted(grants, s.free, k)
  {
    && (forall p <- s.pages :: p in n.pages && n.pages[p] == s.pages[p])
    && (forall i :: 0 <= i < k ==> missing[i] in n.pages && n.pages[missing[i]] == grants[i].frame)
    && (forall p <- n.pages :: p in s.pages || p in missing[..k])
    && (forall i :: 0 <= i < k ==> grants[i].frame !in n.free)
  }

  lemma GrantedTail(grants: seq<Grant>, free: set<nat>, n: nat)
    requires n > 0
    ensures Granted(grants, free, n) <==>
              && grants != [] && grants[0].Frame? && grants[0].mapSucceeds && grants[0].frame in free
              && Granted(grants[1..], free - {grants[0].frame}, n - 1)
  {
    if grants != [] {
      var rest := grants[1..];
      assert forall i :: 0 < i < |grants| ==> grants[i] == rest[i - 1];
      if Granted(grants, free, n) {
        assert forall i :: 0 <= i < n - 1 ==> rest[i] == grants[i + 1];
      }
      if grants[0].Frame? && Granted(rest, free - {grants[0].frame}, n - 1) {
        assert forall i :: 0 < i < n ==> grants[i] == rest[i - 1] && grants[i].frame != grants[0].frame;
      }
    }
  }

  lemma {:induction false} MissingAbove(pages: set<nat>, more: set<nat>, page: nat, end: nat)
    requires forall p :: p >= page ==> (p in pages <==> p in more)
    ensures Missing(pages, page, end) == Missing(more, page, end)
    decreases end - page
  {
    if page < end {
      MissingAbove(pages, more, page + PAGE, end);
    }
  }

  /** The first missing page with its frame, and then what `one` still misses. */
  lemma ReceivedTail(s: Space, one: Space, n: Space, page: nat, rest: seq<nat>, grants: seq<Grant>, k: nat)
    requires page !in s.pages && grants != [] && grants[0].Frame? && grants[0].frame in s.free && grants[0].mapSucceeds
    requires one.pages == s.pages[page := grants[0].frame] && one.free == s.free - {grants[0].frame}
    requires k <= |rest| && Granted(grants[1..], one.free, k) && Received(one, n, rest, grants[1..], k)
    requires n.free <= one.free
    ensures Granted(grants, s.free, k + 1) && Received(s, n, [page] + rest, grants, k + 1)
  {
    GrantedTail(grants, s.free, k + 1);
    var missing := [page] + rest;
    assert missing[..k + 1] == [page] + rest[..k];
    forall i | 0 <= i < k + 1
      ensures missing[i] in n.pages && n.pages[missing[i]] == grants[i].frame && grants[i].frame !in n.free
    {
      if i > 0 {
        assert missing[i] == rest[i - 1] && grants[i] == grants[1..][i - 1];
      } else {
        assert page in one.pages;
      }
    }
  }

  /**
   A growth takes one answer of the allocator and the mapper per missing page, in order, and stops at
   the first that is no good: it succeeds if and only if there are enough good ones, and page number i
   of the missing ones gets frame number i of those granted.
   */
  lemma {:induction false} GrowExactly(s: Space, page: nat, end: nat, grants: seq<Grant>) returns (k: nat)
    ensures GrewBy(s, Missing(s.pages.Keys, page, end), grants, k, Grow(s, page, end, grants))
    decreases end - page
  {
    k := 0;
    if page < end && page in s.pages {
      k := GrowExactly(s, page + PAGE, end, grants);
      assert [] + Missing(s.pages.Keys, page + PAGE, end) == Missing(s.pages.Keys, page + PAGE, end);
    } else if page < end {
      GrantedTail(grants, s.free, 1);
      var one := GrowPage(s, page, Next(grants));
      if one.ok {
        k := GrowExactly(one.space, page + PAGE, end, grants[1..]);
        MissingAbove(s.pages.Keys, one.space.pages.Keys, page + PAGE, end);
        GrewByMore(s, one.space, page, Missing(s.pages.Keys, page + PAGE, end), grants, k, Grow(s, page, end, grants));
        k := k + 1;
      }
    }
  }

  /** The first `k` missing pages were served, and no more could be. */
  ghost predicate GrewBy(s: Space, missing: seq<nat>, grants: seq<Grant>, k: nat, n: Grown) {
    && k <= |missing| && Granted(grants, s.free, k)
    && (n.ok <==> k == |missing|)
    && (k < |missing| ==> !Granted(grants, s.free, k + 1))
    && Received(s, n.space, missing, grants, k)
    && n.space.free <= s.free
  }

  lemma GrewByMore(s: Space, one: Space, page: nat, rest: seq<nat>, grants: seq<Grant>, k: nat, n: Grown)
    requires page !in s.pages && grants != [] && grants[0].Frame? && grants[0].frame in s.free && grants[0].mapSucceeds
    requires one.pages == s.pages[page := grants[0].frame] && one.free == s.free - {grants[0].frame}
    requires GrewBy(one, rest, grants[1..], k, n)
    ensures GrewBy(s, [page] + rest, grants, k + 1, n)
  {
    ReceivedTail(s, one, n.space, page, rest, grants, k);
    GrantedTail(grants, s.free, k + 2);
  }

  /** Without limits: succeeding is having enough good answers. */
  lemma GrowGranted(s: Space, page: nat, end: nat, grants: seq<Grant>)
    ensures var missing, n := Missing(s.pages.Keys, page, end), Grow(s, page, end, grants);
            && (n.ok <==> Granted(grants, s.free, |missing|))
            && (n.ok ==> Received(s, n.space, missing, grants, |missing|))
  {
    var k := GrowExactly(s, page, end, grants);
  }

  class AddressSpace {
    var task: Option<Task>
    var globalBrk: Address
    var pages: map<nat, nat>
    var bytes: map<nat, Contents>
    var free: set<nat>

    function State(): Space
      reads this
    {
      Space(task, globalBrk, pages, bytes, free)
    }

    /** Give one unmapped page a zeroed frame; false if the frame or the mapping is refused. */
    method MapZeroed(page: nat, g: Grant) returns (ok: bool)
      requires page !in pages
      modifies this`pages, this`bytes, this`free
      ensures Grown(State(), ok) == GrowPage(old(State()), page, g)
    {
      if g.NoFrame? || g.frame !in free {
        return false;
      }
      var f := g.frame;
      free := free - {f};
      bytes := bytes[f := ZeroPage()];
      if !g.mapSucceeds {
        return false;
      }
      pages := pages[page := f];
      return true;
    }

    /** The growth loop; stops at the first page that cannot be mapped. */
    method MapRange(first: nat, end: nat, grants: seq<Grant>) returns (ok: bool)
      modifies this`pages, this`bytes, this`free
      ensures Grown(State(), ok) == Grow(old(State()), first, end, grants)
    {
      var page, rest := first, grants;
      while page < end
        invariant Grow(State(), page, end, rest) == Grow(old(State()), first, end, grants)
        decreases end - page
      {
        if page !in pages {
          ok := MapZeroed(page, Next(rest));
          if !ok {
            return;
          }
          rest := Later(rest);
        }
        page := page + PAGE;
      }
      return true;
    }

    /** The task's own record, if it has one, and always the global one. */
    method SetBrk(addr: Address)
      requires addr != 0
      modifies this`task, this`globalBrk
      ensures CurrentBrk(State()) == addr && globalBrk == addr
      ensures task == if old(task.Some? && task.value.pid != 0 && task.value.brk != 0)
                      then Some(Task(old(task).value.pid, addr)) else old(task)
    {
      if PerProcess(State()) {
        task := Some(task.value.(brk := addr));
      }
      globalBrk := addr;
    }

    method Brk(addr: Address, grants: seq<Grant>) returns (r: Address)
      requires FramesOk(State())
      modifies this
      ensures FramesOk(State()) && BrkStep(old(State()), addr, State(), r)
      ensures addr > CurrentBrk(old(State())) ==>
                && var missing := ToMap(old(State()), addr);
                && (r == addr <==> Granted(grants, old(free), |missing|))
                && (r == addr ==> Received(old(State()), State(), missing, grants, |missing|))
    {
      var oldBrk := CurrentBrk(State());
      if addr == 0 {
        return oldBrk;
      }
      if addr > oldBrk {
        GrowMaps(State(), PageUp(oldBrk), PaddedEnd(oldBrk, addr), grants);
        GrowGranted(State(), PageUp(oldBrk), PaddedEnd(oldBrk, addr), grants);
        var mapped := MapRange(PageUp(oldBrk), PaddedEnd(oldBrk, addr), grants);
        if !mapped {
          return oldBrk;
        }
      }
      SetBrk(addr);
      return addr;
    }
  }

  /** Rounding up without wrap-around. */
  lemma RoundUp(a: Address)
    requires a + (PAGE - 1) < TWO64
    ensures Aligned(PageUp(a)) && a <= PageUp(a) < a + PAGE
  {
    assert PageUp(a) == (a + (PAGE - 1)) / PAGE * PAGE;
  }

  lemma RoundUpOrder(a: Address, b: Address)
    requires a <= b && b + (PAGE - 1) < TWO64
    ensures PageUp(a) <= PageUp(b)
  {
    assert (a + (PAGE - 1)) / PAGE <= (b + (PAGE - 1)) / PAGE;
  }

  lemma PageUpOrder(was: Address, addr: Address)
    requires addr > was && !Wraps(was, addr)
    ensures Aligned(PageUp(was)) && Aligned(PaddedEnd(was, addr))
    ensures was <= PageUp(was) <= PageUp(addr) <= PaddedEnd(was, addr) && addr <= PageUp(addr) < addr + PAGE
    ensures PageUp(was) < was + PAGE
  {
    RoundUp(was);
    RoundUp(addr);
    RoundUpOrder(was, addr);
    RoundUp(Plus(addr, Padding(was, addr)));
    RoundUpOrder(addr, Plus(addr, Padding(was, addr)));
  }

  lemma OnlyMapsTrans(a: Space, b: Space, c: Space, from: nat, mid: nat, to: nat)
    requires FramesOk(a) && from <= mid <= to && OnlyMaps(a, b, from, mid) && OnlyMaps(b, c, mid, to) && FramesOk(b)
    ensures OnlyMaps(a, c, from, to)
  {
  }

  // ---- Runs ----

  /** A brk call with its answer, or the program writing into its own pages. */
  datatype Event = Call(addr: Address, answer: Address) | ProgramWrites

  ghost predicate Step(s: Space, e: Event, n: Space) {
    match e
    case Call(addr, answer) => BrkStep(s, addr, n, answer)
    case ProgramWrites => n == s.(bytes := n.bytes) && n.bytes.Keys == s.bytes.Keys
  }

  ghost predicate IsRun(states: seq<Space>, events: seq<Event>) {
    |states| == |events| + 1 && forall i :: 0 <= i < |events| ==> Step(states[i], events[i], states[i + 1])
  }

  lemma GrowthKeepsRange(s: Space, addr: Address, n: Space, r: Address, start: nat)
    requires addr > CurrentBrk(s) ==> !Wraps(CurrentBrk(s), addr)
    requires Aligned(start) && MappedBetween(s, start, CurrentBrk(s)) && BrkStep(s, addr, n, r)
    ensures MappedBetween(n, start, CurrentBrk(n))
  {
    var was := CurrentBrk(s);
    if addr > was {
      PageUpOrder(was, addr);
      if r == addr {
        RangesJoin(s, n, start, was, PageUp(was), PaddedEnd(was, addr));
      }
    }
  }

  /** Two mapped ranges with no page between them. */
  lemma RangesJoin(s: Space, n: Space, start: int, mid: int, up: int, end: int)
    requires MappedBetween(s, start, mid) && MappedBetween(n, up, end) && s.pages.Keys <= n.pages.Keys
    requires Aligned(up) && mid <= up < mid + PAGE
    ensures MappedBetween(n, start, end)
  {
    assert forall p :: mid <= p < up ==> !Aligned(p);
  }

  /**
   Which pages a growth that does not wrap has to map: those between the old break and the new one
   without a frame, with a mebibyte more for a growth of at most 16 KiB.
   */
  lemma ToMapIs(s: Space, addr: Address, p: nat)
    requires addr > CurrentBrk(s)
    requires addr + (if addr - CurrentBrk(s) <= 16384 then 1048576 else 0) + 4095 < 0x1_0000_0000_0000_0000
    ensures p in ToMap(s, addr) <==>
              && p % 4096 == 0 && p !in s.pages && CurrentBrk(s) <= p
              && p < addr + (if addr - CurrentBrk(s) <= 16384 then 1048576 else 0)
  {
    var was := CurrentBrk(s);
    var end := Plus(addr, Padding(was, addr));
    RoundUp(was);
    RoundUp(end);
    MissingInside(s.pages.Keys, was, PageUp(was), end, PageUp(end), p);
  }

  lemma MissingInside(pages: set<nat>, was: nat, up: nat, end: nat, top: nat, p: nat)
    requires Aligned(up) && was <= up < was + PAGE && Aligned(top) && end <= top < end + PAGE
    ensures p in Missing(pages, up, top) <==> p % 4096 == 0 && p !in pages && was <= p < end
  {
    MissingIs(pages, up, top);
    if p % 4096 == 0 {
      NoPageBetween(was, up, p);
      NoPageBetween(end, top, p);
    }
  }

  lemma NoPageBetween(a: int, up: int, p: int)
    requires Aligned(up) && a <= up < a + PAGE && Aligned(p)
    ensures p < up <==> p < a
  {
  }

  /** Which record of the break counts: the task's own, unless there is no task, it is idle or its record is unset. */
  lemma CurrentBrkIs(s: Space)
    ensures s.task.None? ==> CurrentBrk(s) == s.globalBrk
    ensures s.task.Some? && (s.task.value.pid == 0 || s.task.value.brk == 0) ==> CurrentBrk(s) == s.globalBrk
    ensures s.task.Some? && s.task.value.pid > 0 && s.task.value.brk > 0 ==> CurrentBrk(s) == s.task.value.brk
  {
  }

  /**
   Over every run of brk calls from a page-aligned start none of which wraps, whatever the allocator
   and the mapper refuse: each page from the start up to the current break is mapped, and the answer
   of each call is the break after it.
   */
  lemma {:induction false} BreakStaysMapped(states: seq<Space>, events: seq<Event>, start: nat, k: nat)
    requires IsRun(states, events) && k < |states|
    requires Aligned(start) && CurrentBrk(states[0]) == start
    requires forall i :: 0 <= i < |events| && events[i].Call? && events[i].addr > CurrentBrk(states[i]) ==>
               !Wraps(CurrentBrk(states[i]), events[i].addr)
    ensures MappedBetween(states[k], start, CurrentBrk(states[k]))
    ensures k > 0 && events[k - 1].Call? ==> CurrentBrk(states[k]) == events[k - 1].answer
  {
    if k > 0 {
      BreakStaysMapped(states, events, start, k - 1);
      assert Step(states[k - 1], events[k - 1], states[k]);
      if events[k - 1].Call? {
        GrowthKeepsRange(states[k - 1], events[k - 1].addr, states[k], events[k - 1].answer, start);
      }
    }
  }

  /**
   A growth is backed by memory exactly when it does not wrap.  In every space, after a granted growth
   past the next page boundary every page up to the new break is mapped if and only if no sum wrapped
   or those pages were mapped before; one that wrapped has mapped none and moved the break all the same.
   */
  lemma BackedUnlessWrapped(s: Space, addr: Address, n: Space)
    requires BrkStep(s, addr, n, addr) && CurrentBrk(s) + PAGE <= addr
    ensures var was := CurrentBrk(s);
            var up := (was + PAGE - 1) / PAGE * PAGE;
            MappedBetween(n, up, addr) <==> !Wraps(was, addr) || MappedBetween(s, up, addr)
    ensures Wraps(CurrentBrk(s), addr) ==> n.pages == s.pages && CurrentBrk(n) == addr
  {
    var was := CurrentBrk(s);
    if !Wraps(was, addr) {
      PageUpOrder(was, addr);
    } else {
      WrappedEnd(was, addr);
      assert n.pages == s.pages;
    }
  }

  /** Sums wrap at 2^64, and these growths have one that does. */
  lemma WrapsIs(was: Address, addr: Address, n: nat)
    ensures Plus(addr, n) == (addr + n) % 0x1_0000_0000_0000_0000
    ensures Wraps(was, addr) <==>
              addr + (if addr - was <= 16384 then 1048576 else 0) + 4095 >= 0x1_0000_0000_0000_0000
  {
  }

  /** Such a call: a task with one page below its break asks for the last address there is, and gets no page. */
  lemma WrappingCall(code: Contents)
    ensures var last := TWO64 - 1;
            var s := Space(Some(Task(7, 3 * PAGE)), PAGE, map[2 * PAGE := 5], map[5 := code], {6});
            var n := s.(task := Some(Task(7, last)), globalBrk := last);
            && FramesOk(s) && CurrentBrk(s) == 3 * PAGE && BrkStep(s, last, n, last)
            && Wraps(3 * PAGE, last) && !MappedBetween(n, 3 * PAGE, last)
  {
    assert Aligned(3 * PAGE) && 3 * PAGE !in map[2 * PAGE := 5];
  }

  lemma WrappedEnd(was: Address, addr: Address)
    requires was + PAGE <= addr && Wraps(was, addr)
    ensures PageUp(was) == (was + PAGE - 1) / PAGE * PAGE && PaddedEnd(was, addr) <= PageUp(was) < addr
  {
  }

  /** A page keeps for the rest of the run the frame it once got. */
  lemma {:induction false} PagesKeepFrames(states: seq<Space>, events: seq<Event>, i: nat, k: nat)
    requires IsRun(states, events) && i <= k < |states|
    ensures forall p <- states[i].pages :: p in states[k].pages && states[k].pages[p] == states[i].pages[p]
    decreases k - i
  {
    if i < k {
      PagesKeepFrames(states, events, i, k - 1);
      assert Step(states[k - 1], events[k - 1], states[k]);
    }
  }
}
