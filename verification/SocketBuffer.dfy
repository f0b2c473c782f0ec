/**
 The network driver's sockets: messages from the proxy fill a list of chunks, and receive
 calls drain it.  The chunk list stands for a byte stream.
 */
module SocketBuffer {
  import opened LittleEndian

  datatype Phase = Created | Connected | Closed | Failed

  datatype Socket = Socket(phase: Phase, chunks: seq<seq<Byte>>)

  datatype Message = ConnectedMsg | DataMsg(bytes: seq<Byte>) | CloseMsg | ErrorMsg | UnknownMsg

  datatype Reply = Reply(count: int, data: seq<Byte>)

  datatype State = State(sockets: map<int, Socket>, nextId: int)

  const EAGAIN := -11

  /** Where `slice` cuts: a negative index counts from the end, and every index is clamped. */
  function SliceAt(i: int, length: nat): (at: nat)
    ensures at <= length
  {
    if i < 0 then if length + i < 0 then 0 else length + i
    else if i < length then i else length
  }

  // ---- What one message or call does ----

  function Received(s: Socket, m: Message): Socket {
    match m
    case ConnectedMsg => s.(phase := Connected)
    case DataMsg(bytes) => s.(chunks := s.chunks + [bytes])
    case CloseMsg => s.(phase := Closed)
    case ErrorMsg => s.(phase := Failed)
    case UnknownMsg => s
  }

  function Answer(d: State, h: int, max: int): Reply {
    if h !in d.sockets then Reply(0, [])
    else
      var s := d.sockets[h];
      if s.chunks == [] then Reply(if s.phase.Closed? then 0 else EAGAIN, [])
      else
        var chunk := s.chunks[0];
        if |chunk| <= max then Reply(|chunk|, chunk) else Reply(max, chunk[..SliceAt(max, |chunk|)])
  }

  function Drained(s: Socket, max: int): Socket {
    if s.chunks == [] then s
    else
      var chunk := s.chunks[0];
      if |chunk| <= max then s.(chunks := s.chunks[1..])
      else s.(chunks := [chunk[SliceAt(max, |chunk|)..]] + s.chunks[1..])
  }

  datatype Event = Open | Arrive(id: int, msg: Message) | Recv(handle: int, max: int) | Close(closing: int)

  function Step(d: State, e: Event): State {
    match e
    case Open => State(d.sockets[d.nextId := Socket(Created, [])], d.nextId + 1)
    case Arrive(id, m) =>
      if id in d.sockets then d.(sockets := d.sockets[id := Received(d.sockets[id], m)]) else d
    case Recv(h, max) =>
      if h in d.sockets then d.(sockets := d.sockets[h := Drained(d.sockets[h], max)]) else d
    case Close(h) => d.(sockets := d.sockets - {h})
  }

  // ---- The code ----

  class Driver {
    var sockets: map<int, Socket>
    var nextId: int

    function Current(): State
      reads this
    {
      State(sockets, nextId)
    }

    constructor ()
      ensures Current() == State(map[], 1)
    {
      sockets, nextId := map[], 1;
    }

    method OpenSocket() returns (h: int)
      modifies this
      ensures Current() == Step(old(Current()), Open)
      ensures h == old(nextId)
    {
      h := nextId;
      nextId := nextId + 1;
      sockets := sockets[h := Socket(Created, [])];
    }

    method HandleProxyMessage(id: int, m: Message)
      modifies this
      ensures Current() == Step(old(Current()), Arrive(id, m))
    {
      if id !in sockets {
        return;
      }
      var sock := sockets[id];
      match m {
        case ConnectedMsg => sock := sock.(phase := Connected);
        case DataMsg(bytes) => sock := sock.(chunks := sock.chunks + [bytes]);
        case CloseMsg => sock := sock.(phase := Closed);
        case ErrorMsg => sock := sock.(phase := Failed);
        case UnknownMsg =>
      }
      sockets := sockets[id := sock];
    }

    method Receive(h: int, max: int) returns (r: Reply)
      modifies this
      ensures Current() == Step(old(Current()), Recv(h, max))
      ensures r == Answer(old(Current()), h, max)
    {
      if h !in sockets {
        return Reply(0, []);
      }
      var sock := sockets[h];
      if |sock.chunks| == 0 {
        assert sockets == sockets[h := sock];
        if sock.phase == Closed {
          return Reply(0, []);
        }
        return Reply(EAGAIN, []);
      }
      var chunk := sock.chunks[0];
      sock := sock.(chunks := sock.chunks[1..]);
      sockets := sockets[h := sock];
      if |chunk| <= max {
        return Reply(|chunk|, chunk);
      }
      var cut := SliceAt(max, |chunk|);
      sock := sock.(chunks := [chunk[cut..]] + sock.chunks);
      sockets := sockets[h := sock];
      return Reply(max, chunk[..cut]);
    }

    method CloseSocket(h: int) returns (r: int)
      modifies this
      ensures Current() == Step(old(Current()), Close(h)) && r == 0
    {
      sockets := sockets - {h};
      r := 0;
    }
  }

  // ---- The byte stream ----

  function Flat(chunks: seq<seq<Byte>>): seq<Byte> {
    if chunks == [] then [] else chunks[0] + Flat(chunks[1..])
  }

  lemma {:induction false} FlatAppend(chunks: seq<seq<Byte>>, bytes: seq<Byte>)
    ensures Flat(chunks + [bytes]) == Flat(chunks) + bytes
  {
    if chunks == [] {
      assert chunks + [bytes] == [bytes];
    } else {
      FlatAppend(chunks[1..], bytes);
      assert (chunks + [bytes])[1..] == chunks[1..] + [bytes];
    }
  }

  /** The bytes waiting on a handle. */
  function Buffered(d: State, h: int): seq<Byte> {
    if h in d.sockets then Flat(d.sockets[h].chunks) else []
  }

  /** A receive takes a prefix of the stream, whatever size was asked for. */
  lemma ReceiveTakesPrefix(d: State, h: int, max: int)
    ensures Buffered(d, h) == Answer(d, h, max).data + Buffered(Step(d, Recv(h, max)), h)
  {
    if h in d.sockets && d.sockets[h].chunks != [] {
      var chunks := d.sockets[h].chunks;
      var cut := SliceAt(max, |chunks[0]|);
      assert chunks[0] == chunks[0][..cut] + chunks[0][cut..];
      assert ([chunks[0][cut..]] + chunks[1..])[1..] == chunks[1..];
    }
  }

  /** The count is the number of bytes handed over, unless EAGAIN or a negative size stands there. */
  lemma CountIsLength(d: State, h: int, max: int)
    ensures var r := Answer(d, h, max);
      r.count == |r.data| <==>
        h !in d.sockets
        || (if d.sockets[h].chunks == [] then d.sockets[h].phase.Closed? else max >= 0)
    ensures max >= 0 ==> |Answer(d, h, max).data| <= max
  {
  }

  /**
   What a receive on buffered bytes hands over: of the first chunk, as many bytes as asked for, or
   all of them.  A negative size -k stands in the count as it is, and leaves the last k bytes.
   */
  lemma AnswerIs(d: State, h: int, max: int)
    requires h in d.sockets && d.sockets[h].chunks != []
    ensures var chunk, r := d.sockets[h].chunks[0], Answer(d, h, max);
      && (0 <= max < |chunk| ==> r == Reply(max, chunk[..max]))
      && (max >= |chunk| ==> r == Reply(|chunk|, chunk))
      && (-|chunk| <= max < 0 ==> r == Reply(max, chunk[..|chunk| + max]))
      && (max < -|chunk| ==> r == Reply(max, []))
  {
  }

  /** Exactly when a receive answers zero. */
  lemma ZeroAnswer(d: State, h: int, max: int)
    ensures Answer(d, h, max).count == 0 <==>
      h !in d.sockets
      || (if d.sockets[h].chunks == [] then d.sockets[h].phase.Closed?
          else max == 0 || (max > 0 && d.sockets[h].chunks[0] == []))
  {
  }

  // ---- Whole runs ----

  function Run(d: State, es: seq<Event>): State
    decreases es
  {
    if es == [] then d else Run(Step(d, es[0]), es[1..])
  }

  /** The bytes an event brings to an open handle. */
  function Brought(d: State, e: Event, h: int): seq<Byte> {
    if h in d.sockets && e.Arrive? && e.id == h && e.msg.DataMsg? then e.msg.bytes else []
  }

  function Taken(d: State, e: Event, h: int): seq<Byte> {
    if e.Recv? && e.handle == h then Answer(d, h, e.max).data else []
  }

  function Thrown(d: State, e: Event, h: int): seq<Byte> {
    if e.Close? && e.closing == h then Buffered(d, h) else []
  }

  function Arrived(d: State, es: seq<Event>, h: int): seq<Byte>
    decreases es
  {
    if es == [] then [] else Brought(d, es[0], h) + Arrived(Step(d, es[0]), es[1..], h)
  }

  function Returned(d: State, es: seq<Event>, h: int): seq<Byte>
    decreases es
  {
    if es == [] then [] else Taken(d, es[0], h) + Returned(Step(d, es[0]), es[1..], h)
  }

  function Discarded(d: State, es: seq<Event>, h: int): seq<Byte>
    decreases es
  {
    if es == [] then [] else Thrown(d, es[0], h) + Discarded(Step(d, es[0]), es[1..], h)
  }

  /** Handles are issued in order and never again. */
  predicate Issued(d: State) { forall h <- d.sockets :: h < d.nextId }

  lemma IssuedStep(d: State, e: Event)
    requires Issued(d)
    ensures Issued(Step(d, e)) && d.nextId <= Step(d, e).nextId
  {
  }

  /** One event: what was waiting and what it brought is what it took, threw away and left. */
  lemma StreamStep(d: State, e: Event, h: int)
    requires Issued(d)
    ensures Buffered(d, h) + Brought(d, e, h) == Taken(d, e, h) + Thrown(d, e, h) + Buffered(Step(d, e), h)
  {
    match e
    case Open =>
    case Arrive(id, m) =>
      if h == id && h in d.sockets && m.DataMsg? {
        FlatAppend(d.sockets[h].chunks, m.bytes);
      }
    case Recv(k, max) =>
      if k == h {
        ReceiveTakesPrefix(d, h, max);
      }
    case Close(k) =>
  }

  /** A closed handle stays silent for the rest of the run. */
  lemma {:induction false} GoneStaysGone(d: State, es: seq<Event>, h: int)
    requires Issued(d) && h !in d.sockets && h < d.nextId
    ensures h !in Run(d, es).sockets
    ensures Arrived(d, es, h) == [] && Returned(d, es, h) == [] && Discarded(d, es, h) == []
    decreases es
  {
    if es != [] {
      IssuedStep(d, es[0]);
      GoneStaysGone(Step(d, es[0]), es[1..], h);
    }
  }

  /**
   Nothing is lost, doubled or reordered, on any handle and in any run over all handles:
   what was waiting and then arrived is what was returned, followed by what closing the
   handle threw away, followed by what is still waiting.
   */
  lemma {:induction false} StreamConserved(d: State, es: seq<Event>, h: int)
    requires Issued(d)
    ensures Buffered(d, h) + Arrived(d, es, h)
         == Returned(d, es, h) + Discarded(d, es, h) + Buffered(Run(d, es), h)
    decreases es
  {
    if es != [] {
      var e, rest := es[0], es[1..];
      var d1 := Step(d, e);
      IssuedStep(d, e);
      StreamStep(d, e, h);
      StreamConserved(d1, rest, h);
      if Thrown(d, e, h) != [] {
        GoneStaysGone(d1, rest, h);
      }
      Chain(Buffered(d, h), Brought(d, e, h), Arrived(d1, rest, h), Taken(d, e, h), Thrown(d, e, h),
            Buffered(d1, h), Returned(d1, rest, h), Discarded(d1, rest, h), Buffered(Run(d, es), h));
    }
  }

  /** Two conserved stretches in a row, where nothing follows a throwing away. */
  lemma Chain(b0: seq<Byte>, x: seq<Byte>, xs: seq<Byte>, y: seq<Byte>, t: seq<Byte>,
              b1: seq<Byte>, ys: seq<Byte>, z: seq<Byte>, b2: seq<Byte>)
    requires b0 + x == y + t + b1 && b1 + xs == ys + z + b2
    requires t == [] || (b1 == [] && xs == [] && ys == [] && z == [] && b2 == [])
    ensures b0 + (x + xs) == (y + ys) + (t + z) + b2
  {
    if t == [] {
      calc {
        b0 + (x + xs);
        (b0 + x) + xs;
        y + (b1 + xs);
        (y + ys) + z + b2;
      }
      assert t + z == z;
    } else {
      assert x + xs == x && y + ys == y && t + z == t;
      assert y + t + b1 == y + t && y + t + b2 == y + t;
    }
  }

  // ---- End of stream ----

  /** Non-empty data messages, the handle not closed by its owner. */
  predicate Ordinary(es: seq<Event>, h: int) {
    forall e <- es ::
      && (e.Arrive? && e.id == h && e.msg.DataMsg? ==> e.msg.bytes != [])
      && e != Close(h)
  }

  predicate NonEmptyChunks(d: State, h: int) {
    h in d.sockets ==> var cs := d.sockets[h].chunks; forall i :: 0 <= i < |cs| ==> cs[i] != []
  }

  lemma ChunksStayNonEmpty(d: State, e: Event, h: int)
    requires NonEmptyChunks(d, h) && Ordinary([e], h)
    ensures NonEmptyChunks(Step(d, e), h)
  {
  }

  predicate ClosedByPeer(d: State, h: int) { h in d.sockets && d.sockets[h].phase.Closed? }

  lemma {:induction false} OrdinaryRun(d: State, es: seq<Event>, h: int)
    requires NonEmptyChunks(d, h) && Ordinary(es, h)
    ensures NonEmptyChunks(Run(d, es), h) && Discarded(d, es, h) == []
    decreases es
  {
    if es != [] {
      var e, rest := es[0], es[1..];
      assert e in es && Ordinary([e], h) && (forall x <- rest :: x in es);
      ChunksStayNonEmpty(d, e, h);
      OrdinaryRun(Step(d, e), rest, h);
    }
  }

  // ---- The phase, from the history ----

  /** A message that takes the handle out of the closed phase. */
  predicate Overrides(e: Event, h: int) { e.Arrive? && e.id == h && (e.msg.ConnectedMsg? || e.msg.ErrorMsg?) }

  /** A close message came while the handle was open, and no connected or error message after it. */
  ghost predicate ClosedLast(d: State, es: seq<Event>, h: int) {
    exists k :: 0 <= k < |es| && ClosedAt(d, es, h, k)
  }

  ghost predicate ClosedAt(d: State, es: seq<Event>, h: int, k: nat)
    requires k < |es|
  {
    && es[k] == Arrive(h, CloseMsg) && h in Run(d, es[..k]).sockets
    && forall q :: k < q < |es| ==> !Overrides(es[q], h)
  }

  lemma {:induction false} RunSnoc(d: State, es: seq<Event>, e: Event)
    ensures Run(d, es + [e]) == Step(Run(d, es), e)
    decreases es
  {
    if es == [] {
      assert es + [e] == [e];
    } else {
      RunSnoc(Step(d, es[0]), es[1..], e);
      assert (es + [e])[1..] == es[1..] + [e];
    }
  }

  lemma {:induction false} IssuedRun(d: State, es: seq<Event>, k: nat)
    requires Issued(d) && k <= |es|
    ensures Issued(Run(d, es)) && Run(d, es[..k]).nextId <= Run(d, es).nextId
    decreases es
  {
    if es != [] {
      IssuedStep(d, es[0]);
      if k == 0 {
        IssuedRun(Step(d, es[0]), es[1..], 0);
      } else {
        IssuedRun(Step(d, es[0]), es[1..], k - 1);
        assert es[..k][1..] == es[1..][..k - 1];
      }
    }
  }

  /** One more event and the history. */
  lemma ClosedLastSnoc(d: State, es: seq<Event>, e: Event, h: int)
    ensures ClosedLast(d, es + [e], h) <==>
              (e == Arrive(h, CloseMsg) && h in Run(d, es).sockets) || (ClosedLast(d, es, h) && !Overrides(e, h))
  {
    var all, n := es + [e], |es|;
    assert all[..n] == es;
    forall k | 0 <= k < n
      ensures ClosedAt(d, all, h, k) <==> ClosedAt(d, es, h, k) && !Overrides(e, h)
    {
      assert all[..k] == es[..k] && all[n] == e;
      assert forall q :: k < q < n ==> all[q] == es[q];
    }
    assert ClosedAt(d, all, h, n) <==> e == Arrive(h, CloseMsg) && h in Run(d, es).sockets;
  }

  /** Once a close message was accepted the handle has been issued. */
  lemma ClosedWasIssued(d: State, es: seq<Event>, h: int)
    requires Issued(d) && ClosedLast(d, es, h)
    ensures h < Run(d, es).nextId
  {
    var k :| 0 <= k < |es| && ClosedAt(d, es, h, k);
    IssuedRun(d, es[..k], 0);
    IssuedRun(d, es, k);
  }

  /** On an open handle the closed phase is that history, in every run from the start. */
  lemma {:induction false} PhaseIsHistory(es: seq<Event>, h: int)
    requires h in Run(State(map[], 1), es).sockets
    ensures ClosedByPeer(Run(State(map[], 1), es), h) <==> ClosedLast(State(map[], 1), es, h)
  {
    var d0 := State(map[], 1);
    if es != [] {
      var before, e := es[..|es| - 1], es[|es| - 1];
      assert es == before + [e];
      RunSnoc(d0, before, e);
      ClosedLastSnoc(d0, before, e, h);
      IssuedRun(d0, before, 0);
      if h in Run(d0, before).sockets {
        PhaseIsHistory(before, h);
      } else if ClosedLast(d0, before, h) {
        ClosedWasIssued(d0, before, h);
      }
    }
  }

  /**
   End of stream is honest: on an open handle a positive-size receive answers zero exactly when a
   close message was the last of the messages that set the phase, and every byte that arrived has
   been returned.
   */
  lemma EndOfStream(es: seq<Event>, h: int, max: int)
    requires Ordinary(es, h) && max > 0 && h in Run(State(map[], 1), es).sockets
    ensures var d0 := State(map[], 1);
      Answer(Run(d0, es), h, max).count == 0 <==>
        ClosedLast(d0, es, h) && Returned(d0, es, h) == Arrived(d0, es, h)
  {
    var d0 := State(map[], 1);
    var d := Run(d0, es);
    PhaseIsHistory(es, h);
    OrdinaryRun(d0, es, h);
    ZeroAnswer(d, h, max);
    StreamConserved(d0, es, h);
    var a, r := Arrived(d0, es, h), Returned(d0, es, h);
    assert [] + a == a && r + [] == r;
    assert a == r + Buffered(d, h);
    assert Buffered(d, h) == [] <==> d.sockets[h].chunks == [];
    assert a == r <==> Buffered(d, h) == [] by {
      assert |a| == |r| + |Buffered(d, h)|;
    }
  }

  /**
   A close message alone is not enough: when an error message follows it, the peer has closed and
   every byte has been returned, and still each receive answers EAGAIN.
   */
  lemma ErrorHidesClose(max: int)
    requires max > 0
    ensures var d0, es := State(map[], 1), [Open, Arrive(1, CloseMsg), Arrive(1, ErrorMsg)];
      && Ordinary(es, 1) && 1 in Run(d0, es).sockets && Arrive(1, CloseMsg) in es
      && Returned(d0, es, 1) == Arrived(d0, es, 1) == [] && !ClosedLast(d0, es, 1)
      && Answer(Run(d0, es), 1, max) == Reply(-11, [])
  {
    var d0, es := State(map[], 1), [Open, Arrive(1, CloseMsg), Arrive(1, ErrorMsg)];
    var d1 := Step(d0, Open);
    var d2 := Step(d1, Arrive(1, CloseMsg));
    var d3 := Step(d2, Arrive(1, ErrorMsg));
    assert es[1..] == [Arrive(1, CloseMsg), Arrive(1, ErrorMsg)] && es[1..][1..] == [Arrive(1, ErrorMsg)];
    assert Run(d0, es) == Run(d1, es[1..]) == Run(d2, es[1..][1..]) == Run(d3, []);
    assert Returned(d0, es, 1) == Returned(d1, es[1..], 1) == Returned(d2, es[1..][1..], 1) == [];
    assert Arrived(d0, es, 1) == Arrived(d1, es[1..], 1) == Arrived(d2, es[1..][1..], 1) == [];
    assert es[1] == Arrive(1, CloseMsg);
    PhaseIsHistory(es, 1);
  }

  /** A receive of positive size makes progress: a non-empty stream gives at least one byte. */
  lemma ReceiveProgresses(es: seq<Event>, h: int, max: int)
    requires Ordinary(es, h) && max > 0
    ensures var d := Run(State(map[], 1), es);
      Buffered(d, h) != [] ==> 0 < Answer(d, h, max).count == |Answer(d, h, max).data| <= max
  {
    OrdinaryRun(State(map[], 1), es, h);
  }
}
