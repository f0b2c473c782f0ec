/**
 The two kinds of atomic words of `frame_ownership_chirho.rs`: the reference
 count of a physical frame and the owner word of an address space.

 `Decide` is what the code does with one observed word, bit tests included.
 `AtomicCall` is the reference: an atomic object with an abstract state and no
 encoding.  `DecideRefines` connects the two.
 */
module OwnershipSpec {
  import opened Wrappers

  const U32_MAX: nat := 0xFFFF_FFFF
  const UNMANAGED: nat := U32_MAX
  const MAX_MANAGED: nat := U32_MAX - 1
  const RETIRING_BIT: nat := 0x8000_0000_0000_0000

  datatype Addr = FrameSlot(frame: nat) | OwnerWord(space: nat)

  datatype Op =
    | RetainMapping(frame: nat)
    | ReleaseMapping(frame: nat)
    | MappingCount(frame: nat)
    | TryRetain(space: nat)
    | ReleaseOwner(space: nat)
    | BeginRetirement(space: nat)
    | CancelRetirement(space: nat)
    | FinishRetirement(space: nat)
    | OwnerCount(space: nat)

  datatype Result =
    | Unmanaged
    | Managed(references: nat)
    | RetainOverflow(frame: nat)
    | StillReferenced(references: nat)
    | LastReference
    | ReleaseUnderflow(frame: nat)
    | Count(count: Option<nat>)
    | Retained(owners: nat)
    | OwnersRemain(owners: nat)
    | LastOwner
    | ReleasedError
    | OwnerOverflow
    | OwnerUnderflow
    | Began
    | NotLive
    | SharedOwners(owners: nat)
    | Cancelled
    | Finished
    | Owners(owners: nat)

  predicate IsFrameOp(op: Op) {
    op.RetainMapping? || op.ReleaseMapping? || op.MappingCount?
  }

  function Target(op: Op): Addr {
    if IsFrameOp(op) then FrameSlot(op.frame) else OwnerWord(op.space)
  }

  /** Operations that retry a weak compare-exchange; the others access the word once. */
  predicate Retries(op: Op) {
    op.RetainMapping? || op.ReleaseMapping? || op.TryRetain? || op.ReleaseOwner?
  }

  /** What the code does about an observed word: answer at once, or try to swap in another word. */
  datatype Verdict = Answer(result: Result) | Swap(word: nat, result: Result)

  predicate HasRetiringBit(word: nat) { (word / RETIRING_BIT) % 2 == 1 }

  function OwnerBits(word: nat): nat { word % (U32_MAX + 1) }

  function Decide(op: Op, word: nat): Verdict {
    match op
    case RetainMapping(f) =>
      if word == UNMANAGED then Answer(Unmanaged)
      else if word == MAX_MANAGED then Answer(RetainOverflow(f))
      else Swap(word + 1, Managed(word + 1))
    case ReleaseMapping(f) =>
      if word == UNMANAGED then Answer(Unmanaged)
      else if word == 0 then Answer(ReleaseUnderflow(f))
      else Swap(word - 1, if word - 1 == 0 then LastReference else StillReferenced(word - 1))
    case MappingCount(_) =>
      Answer(Count(if word != UNMANAGED then Some(word) else None))
    case TryRetain(_) =>
      if word == 0 || HasRetiringBit(word) then Answer(ReleasedError)
      else if OwnerBits(word) == U32_MAX then Answer(OwnerOverflow)
      else Swap(word + 1, Retained(OwnerBits(word) + 1))
    case ReleaseOwner(_) =>
      if word == 0 then Answer(OwnerUnderflow)
      else if HasRetiringBit(word) then Answer(ReleasedError)
      else if OwnerBits(word) == 0 then Answer(OwnerUnderflow)
      else
        var remaining := OwnerBits(word) - 1;
        Swap(remaining, if remaining == 0 then LastOwner else OwnersRemain(remaining))
    case BeginRetirement(_) =>
      if word == 1 then Swap(RETIRING_BIT + 1, Began)
      else if word == 0 || HasRetiringBit(word) then Answer(NotLive)
      else Answer(SharedOwners(OwnerBits(word)))
    case CancelRetirement(_) =>
      if word == RETIRING_BIT + 1 then Swap(1, Cancelled) else Answer(ReleasedError)
    case FinishRetirement(_) =>
      if word == RETIRING_BIT + 1 then Swap(0, Finished) else Answer(ReleasedError)
    case OwnerCount(_) =>
      Answer(Owners(OwnerBits(word)))
  }

  /** The answer for a frame number beyond the end of the table. */
  function Absent(op: Op): Result {
    if op.MappingCount? then Count(None) else Unmanaged
  }

  /** Frames outside the table are nobody's: there is no count, and retaining or releasing says so. */
  lemma OutsideTable(f: nat)
    ensures Absent(MappingCount(f)) == Count(None)
    ensures Absent(RetainMapping(f)) == Unmanaged && Absent(ReleaseMapping(f)) == Unmanaged
  {
  }

  // ---- The atomic reference object ----

  /** A frame is a device or hole, or counts its mappings; an address space is live, retiring or gone. */
  datatype Cell = Device | References(n: nat) | Live(owners: nat) | Retiring | Gone

  datatype Reply = Reply(cell: Cell, result: Result)

  /** One indivisible call on the abstract object. */
  function AtomicCall(op: Op, c: Cell): Reply {
    match (op, c)
    case (RetainMapping(f), References(n)) =>
      if n < MAX_MANAGED then Reply(References(n + 1), Managed(n + 1)) else Reply(c, RetainOverflow(f))
    case (ReleaseMapping(f), References(n)) =>
      if n == 0 then Reply(c, ReleaseUnderflow(f))
      else if n == 1 then Reply(References(0), LastReference)
      else Reply(References(n - 1), StillReferenced(n - 1))
    case (MappingCount(_), References(n)) => Reply(c, Count(Some(n)))
    case (MappingCount(_), _) => Reply(c, Count(None))
    case (TryRetain(_), Live(n)) =>
      if n < U32_MAX then Reply(Live(n + 1), Retained(n + 1)) else Reply(c, OwnerOverflow)
    case (TryRetain(_), _) => Reply(c, ReleasedError)
    case (ReleaseOwner(_), Live(n)) =>
      if n <= 1 then Reply(Gone, LastOwner) else Reply(Live(n - 1), OwnersRemain(n - 1))
    case (ReleaseOwner(_), Gone) => Reply(c, OwnerUnderflow)
    case (ReleaseOwner(_), _) => Reply(c, ReleasedError)
    case (BeginRetirement(_), Live(n)) =>
      if n == 1 then Reply(Retiring, Began) else Reply(c, SharedOwners(n))
    case (BeginRetirement(_), _) => Reply(c, NotLive)
    case (CancelRetirement(_), Retiring) => Reply(Live(1), Cancelled)
    case (CancelRetirement(_), _) => Reply(c, ReleasedError)
    case (FinishRetirement(_), Retiring) => Reply(Gone, Finished)
    case (FinishRetirement(_), _) => Reply(c, ReleasedError)
    case (OwnerCount(_), Live(n)) => Reply(c, Owners(n))
    case (OwnerCount(_), Retiring) => Reply(c, Owners(1))
    case (OwnerCount(_), _) => Reply(c, Owners(0))
    case (_, _) => Reply(c, Unmanaged)
  }

  // ---- Encoding ----

  /** The only words the code ever stores: a u32 count, or "retiring with one owner". */
  predicate WordOk(a: Addr, word: nat) {
    word <= U32_MAX || (a.OwnerWord? && word == RETIRING_BIT + 1)
  }

  function CellOf(a: Addr, word: nat): Cell {
    match a
    case FrameSlot(_) => if word == UNMANAGED then Device else References(word)
    case OwnerWord(_) =>
      if word == 0 then Gone
      else if word == RETIRING_BIT + 1 then Retiring
      else Live(word)
  }

  function ApplyVerdict(word: nat, v: Verdict): nat { if v.Swap? then v.word else word }

  lemma RetiringBitOfWord(word: nat)
    requires word <= U32_MAX || word == RETIRING_BIT + 1
    ensures HasRetiringBit(word) <==> word == RETIRING_BIT + 1
    ensures OwnerBits(word) == if word == RETIRING_BIT + 1 then 1 else word
  {
  }

  /** On every word the code can store, the encoded step is the atomic call. */
  lemma DecideRefines(op: Op, word: nat)
    requires WordOk(Target(op), word)
    ensures var v := Decide(op, word);
            && WordOk(Target(op), ApplyVerdict(word, v))
            && AtomicCall(op, CellOf(Target(op), word))
               == Reply(CellOf(Target(op), ApplyVerdict(word, v)), v.result)
  {
    RetiringBitOfWord(word);
  }

  /**
   The calls in terms of the words themselves: what each stores and answers.  Frame counts end at
   2^32 - 2, below the sentinel; owner counts at 2^32 - 1; bit 63 with one owner is a retirement.
   */
  lemma CallsOnWords(op: Op, word: nat)
    requires WordOk(Target(op), word)
    ensures var retiring := word == 0x8000_0000_0000_0001;
            var stored, r := ApplyVerdict(word, Decide(op, word)), Decide(op, word).result;
            (Decide(op, word).Answer? ==> stored == word) &&
            match op
            case RetainMapping(f) =>
              if word == 0xFFFF_FFFF then stored == word && r == Unmanaged
              else if word == 0xFFFF_FFFE then stored == word && r == RetainOverflow(f)
              else stored == word + 1 && r == Managed(stored)
            case ReleaseMapping(f) =>
              if word == 0xFFFF_FFFF then stored == word && r == Unmanaged
              else if word == 0 then stored == 0 && r == ReleaseUnderflow(f)
              else stored == word - 1 && r == if stored == 0 then LastReference else StillReferenced(stored)
            case MappingCount(_) => stored == word && r == Count(if word == 0xFFFF_FFFF then None else Some(word))
            case TryRetain(_) =>
              if word == 0 || retiring then stored == word && r == ReleasedError
              else if word == 0xFFFF_FFFF then stored == word && r == OwnerOverflow
              else stored == word + 1 && r == Retained(stored)
            case ReleaseOwner(_) =>
              if word == 0 then stored == 0 && r == OwnerUnderflow
              else if retiring then stored == word && r == ReleasedError
              else stored == word - 1 && r == if stored == 0 then LastOwner else OwnersRemain(stored)
            case BeginRetirement(_) =>
              if word == 1 then stored == 0x8000_0000_0000_0001 && r == Began
              else stored == word && r == if word == 0 || retiring then NotLive else SharedOwners(word)
            case CancelRetirement(_) =>
              if retiring then stored == 1 && r == Cancelled else stored == word && r == ReleasedError
            case FinishRetirement(_) =>
              if retiring then stored == 0 && r == Finished else stored == word && r == ReleasedError
            case OwnerCount(_) => stored == word && r == Owners(if retiring then 1 else word)
  {
    RetiringBitOfWord(word);
  }
}
