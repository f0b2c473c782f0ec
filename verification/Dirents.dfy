/**
 `getdents64(2)`: the kernel's record writer, and the walk by `d_reclen` with which
 a reader takes its output apart again.
 */
module Dirents {
  import opened Wrappers
  import opened LittleEndian

  const NAME_OFFSET: nat := 19
  const MAX_BUFFER: nat := 65536

  /** What the directory stream delivers per entry. */
  datatype DirEntry = DirEntry(name: seq<Byte>, ino: nat, kind: Byte)

  datatype Outcome = Failed(errno: int) | Written(bytes: seq<Byte>)

  const EFAULT: int := -14
  const EBADF: int := -9

  function RecordLength(e: DirEntry): nat { (NAME_OFFSET + |e.name| + 1 + 7) / 8 * 8 }

  function Zeros(n: nat): seq<Byte> { seq(n, _ => 0) }

  function Header(ino: nat, next: nat, length: nat, kind: Byte): (h: seq<Byte>)
    ensures |h| == NAME_OFFSET
  {
    ToBytes(ino, 8) + ToBytes(next, 8) + ToBytes(length, 2) + [kind]
  }

  /** The name, its NUL and the padding. */
  function NameField(e: DirEntry): (f: seq<Byte>)
    ensures |f| == RecordLength(e) - NAME_OFFSET
  {
    e.name + Zeros(RecordLength(e) - NAME_OFFSET - |e.name|)
  }

  /** The record of `e` at offset `at`. */
  function Record(e: DirEntry, at: nat): (r: seq<Byte>)
    ensures |r| == RecordLength(e)
  {
    Header(e.ino, at + RecordLength(e), RecordLength(e), e.kind) + NameField(e)
  }

  function RecordList(es: seq<DirEntry>, at: nat): seq<seq<Byte>> {
    if es == [] then [] else [Record(es[0], at)] + RecordList(es[1..], at + RecordLength(es[0]))
  }

  function Flatten(rs: seq<seq<Byte>>): seq<Byte> {
    if rs == [] then [] else rs[0] + Flatten(rs[1..])
  }

  /** The records of `es`, one after the other from offset `at`. */
  function Records(es: seq<DirEntry>, at: nat): seq<Byte> { Flatten(RecordList(es, at)) }

  lemma RecordsHead(es: seq<DirEntry>, at: nat)
    requires es != []
    ensures Records(es, at) == Record(es[0], at) + Records(es[1..], at + RecordLength(es[0]))
  {
  }

  function TotalLength(es: seq<DirEntry>): nat {
    if es == [] then 0 else RecordLength(es[0]) + TotalLength(es[1..])
  }

  lemma {:induction false} RecordsLength(es: seq<DirEntry>, at: nat)
    ensures |Records(es, at)| == TotalLength(es)
  {
    if es != [] {
      RecordsHead(es, at);
      RecordsLength(es[1..], at + RecordLength(es[0]));
      assert |Record(es[0], at)| == RecordLength(es[0]);
    }
  }

  lemma {:induction false} TotalAppend(es: seq<DirEntry>, e: DirEntry)
    ensures TotalLength(es + [e]) == TotalLength(es) + RecordLength(e)
  {
    if es == [] {
      assert es + [e] == [e];
    } else {
      TotalAppend(es[1..], e);
      assert (es + [e])[1..] == es[1..] + [e];
    }
  }

  lemma {:induction false} FlattenAppend(rs: seq<seq<Byte>>, r: seq<Byte>)
    ensures Flatten(rs + [r]) == Flatten(rs) + r
  {
    if rs == [] {
      assert rs + [r] == [r];
    } else {
      FlattenAppend(rs[1..], r);
      assert (rs + [r])[1..] == rs[1..] + [r];
    }
  }

  lemma {:induction false} ListAppend(es: seq<DirEntry>, e: DirEntry, at: nat)
    ensures RecordList(es + [e], at) == RecordList(es, at) + [Record(e, at + TotalLength(es))]
  {
    if es == [] {
      assert es + [e] == [e];
    } else {
      ListAppend(es[1..], e, at + RecordLength(es[0]));
      assert (es + [e])[0] == es[0] && (es + [e])[1..] == es[1..] + [e];
    }
  }

  lemma NextRecord(es: seq<DirEntry>, i: nat)
    requires i < |es|
    ensures Records(es[..i + 1], 0) == Records(es[..i], 0) + Record(es[i], TotalLength(es[..i]))
    ensures TotalLength(es[..i + 1]) == TotalLength(es[..i]) + RecordLength(es[i])
  {
    ListAppend(es[..i], es[i], 0);
    FlattenAppend(RecordList(es[..i], 0), Record(es[i], TotalLength(es[..i])));
    TotalAppend(es[..i], es[i]);
    assert es[..i + 1] == es[..i] + [es[i]];
  }

  // ---- The code ----

  /** `copy_from_slice` into a part of the kernel buffer; `base` is where the current record starts. */
  method CopyInto(buf: array<Byte>, ghost base: nat, at: nat, bytes: seq<Byte>)
    requires base <= at && at + |bytes| <= buf.Length
    modifies buf
    ensures buf[..base] == old(buf[..base])
    ensures buf[base..at + |bytes|] == old(buf[base..at]) + bytes
  {
    for i := 0 to |bytes|
      invariant buf[..base] == old(buf[..base])
      invariant buf[base..at + i] == old(buf[base..at]) + bytes[..i]
    {
      buf[at + i] := bytes[i];
      assert buf[base..at + i + 1] == buf[base..at + i] + [bytes[i]];
    }
  }

  method PadZeros(buf: array<Byte>, ghost base: nat, from: nat, to: nat)
    requires base <= from <= to <= buf.Length
    modifies buf
    ensures buf[..base] == old(buf[..base])
    ensures buf[base..to] == old(buf[base..from]) + Zeros(to - from)
  {
    for i := from to to
      invariant buf[..base] == old(buf[..base])
      invariant buf[base..i] == old(buf[base..from]) + Zeros(i - from)
    {
      buf[i] := 0;
      assert buf[base..i + 1] == buf[base..i] + [0];
    }
  }

  method WriteHeader(buf: array<Byte>, at: nat, ino: nat, next: nat, length: nat, kind: Byte)
    requires at + NAME_OFFSET <= buf.Length
    modifies buf
    ensures buf[..at] == old(buf[..at]) && buf[at..at + NAME_OFFSET] == Header(ino, next, length, kind)
  {
    CopyInto(buf, at, at, ToBytes(ino, 8));
    CopyInto(buf, at, at + 8, ToBytes(next, 8));
    CopyInto(buf, at, at + 16, ToBytes(length, 2));
    CopyInto(buf, at, at + 18, [kind]);
  }

  method WriteName(buf: array<Byte>, ghost base: nat, at: nat, e: DirEntry)
    requires base <= at && at + RecordLength(e) - NAME_OFFSET <= buf.Length
    modifies buf
    ensures buf[..base] == old(buf[..base])
    ensures buf[base..at + RecordLength(e) - NAME_OFFSET] == old(buf[base..at]) + NameField(e)
  {
    var nul, end := at + |e.name|, at + RecordLength(e) - NAME_OFFSET;
    CopyInto(buf, base, at, e.name);
    CopyInto(buf, base, nul, [0]);
    PadZeros(buf, base, nul + 1, end);
    assert [0] + Zeros(end - nul - 1) == Zeros(end - nul);
  }

  /** The body of the readdir callback for an entry that fits. */
  method WriteRecord(buf: array<Byte>, at: nat, e: DirEntry)
    requires at + RecordLength(e) <= buf.Length
    modifies buf
    ensures buf[..at] == old(buf[..at]) && buf[at..at + RecordLength(e)] == Record(e, at)
  {
    WriteHeader(buf, at, e.ino, at + RecordLength(e), RecordLength(e), e.kind);
    WriteName(buf, at, at + NAME_OFFSET, e);
  }

  /** The longest prefix of the stream whose records fit. */
  function Accepted(es: seq<DirEntry>, capacity: nat): (k: nat)
    ensures k <= |es| && TotalLength(es[..k]) <= capacity
  {
    if es == [] || RecordLength(es[0]) > capacity then 0
    else
      var k := 1 + Accepted(es[1..], capacity - RecordLength(es[0]));
      assert es[..k][1..] == es[1..][..k - 1];
      k
  }

  function Min(a: nat, b: nat): nat { if a < b then a else b }

  /** The syscall; `dirError` is readdir's own failure, if any. */
  method GetDents(stream: seq<DirEntry>, nullBuffer: bool, count: nat, isOpen: bool, dirError: Option<int>,
                  copyFails: bool) returns (r: Outcome)
    ensures nullBuffer || count == 0 ==> r == Failed(-14)
    ensures !nullBuffer && count > 0 && !isOpen ==> r == Failed(-9)
    ensures !nullBuffer && count > 0 && isOpen && dirError.Some? ==> r == Failed(dirError.value)
    ensures !nullBuffer && count > 0 && isOpen && dirError.None? ==>
              var out := Records(stream[..Accepted(stream, if count < 65536 then count else 65536)], 0);
              r == if copyFails && out != [] then Failed(-14) else Written(out)
  {
    if nullBuffer || count == 0 {
      return Failed(EFAULT);
    }
    if !isOpen {
      return Failed(EBADF);
    }
    var out := Fill(stream, Min(count, MAX_BUFFER));
    if dirError.Some? {
      return Failed(dirError.value);
    }
    if |out| > 0 && copyFails {
      return Failed(EFAULT);
    }
    return Written(out);
  }

  /** readdir driving the callback until an entry does not fit. */
  method Fill(stream: seq<DirEntry>, capacity: nat) returns (out: seq<Byte>)
    ensures out == Records(stream[..Accepted(stream, capacity)], 0)
  {
    var buf := new Byte[capacity](_ => 0);
    var written, i := 0, 0;
    while i < |stream| && written + RecordLength(stream[i]) <= capacity
      invariant 0 <= i <= |stream| && written == TotalLength(stream[..i]) <= capacity
      invariant buf[..written] == Records(stream[..i], 0)
    {
      var next := written + RecordLength(stream[i]);
      WriteRecord(buf, written, stream[i]);
      NextRecord(stream, i);
      assert buf[..next] == buf[..written] + buf[written..next];
      written, i := next, i + 1;
    }
    AcceptedIs(stream, capacity, i);
    return buf[..written];
  }

  lemma {:induction false} AcceptedIs(es: seq<DirEntry>, capacity: nat, k: nat)
    requires k <= |es| && TotalLength(es[..k]) <= capacity
    requires k == |es| || TotalLength(es[..k]) + RecordLength(es[k]) > capacity
    ensures Accepted(es, capacity) == k
  {
    if k > 0 {
      assert es[..k][1..] == es[1..][..k - 1];
      AcceptedIs(es[1..], capacity - RecordLength(es[0]), k - 1);
    }
  }

  // ---- The reader ----

  datatype Parsed = Parsed(ino: nat, next: nat, kind: Byte, name: seq<Byte>)

  function UntilNul(s: seq<Byte>): seq<Byte> {
    if s == [] || s[0] == 0 then [] else [s[0]] + UntilNul(s[1..])
  }

  /** Step through the records by their length fields. */
  function Walk(bytes: seq<Byte>): seq<Parsed>
    decreases |bytes|
  {
    if |bytes| <= NAME_OFFSET then []
    else
      var length := Field(bytes, 16, 2);
      if length <= NAME_OFFSET || length > |bytes| then []
      else
        [Parsed(Field(bytes, 0, 8), Field(bytes, 8, 8), bytes[18], UntilNul(bytes[19..length]))]
        + Walk(bytes[length..])
  }

  /** What a reader should see: `next` is the offset of the following record. */
  function Expected(es: seq<DirEntry>, at: nat): seq<Parsed> {
    if es == [] then []
    else
      var next := at + RecordLength(es[0]);
      [Parsed(es[0].ino, next, es[0].kind, es[0].name)] + Expected(es[1..], next)
  }

  /** The entry's inode number fits, its name has no NUL, and its record length fits the 16-bit field. */
  predicate Representable(e: DirEntry) {
    e.ino < 0x1_0000_0000_0000_0000 && (forall b <- e.name :: b != 0) && RecordLength(e) < 0x1_0000
  }

  lemma {:induction false} NameEnds(name: seq<Byte>, zeros: seq<Byte>)
    requires (forall b <- name :: b != 0) && zeros != [] && zeros[0] == 0
    ensures UntilNul(name + zeros) == name
  {
    if name == [] {
      assert name + zeros == zeros;
    } else {
      assert (name + zeros)[1..] == name[1..] + zeros;
      assert name[0] in name && forall b <- name[1..] :: b in name;
      NameEnds(name[1..], zeros);
    }
  }

  lemma HeaderFields(ino: nat, next: nat, length: nat, kind: Byte, rest: seq<Byte>)
    requires ino < 0x1_0000_0000_0000_0000 && next < 0x1_0000_0000_0000_0000 && length < 0x1_0000
    ensures var bytes := Header(ino, next, length, kind) + rest;
            && Field(bytes, 0, 8) == ino && Field(bytes, 8, 8) == next
            && Field(bytes, 16, 2) == length && bytes[18] == kind
  {
    Widths();
    var bytes := Header(ino, next, length, kind) + rest;
    var a, b, c, d := ToBytes(ino, 8), ToBytes(next, 8), ToBytes(length, 2), [kind] + rest;
    assert bytes == [] + a + (b + c + d);
    FieldOf([], ino, 8, b + c + d);
    assert bytes == a + b + (c + d);
    FieldOf(a, next, 8, c + d);
    assert bytes == (a + b) + c + d;
    FieldOf(a + b, length, 2, d);
  }

  lemma RecordFields(e: DirEntry, at: nat, rest: seq<Byte>)
    requires Representable(e) && at + RecordLength(e) < 0x1_0000_0000_0000_0000
    ensures var bytes := Record(e, at) + rest;
            && Field(bytes, 0, 8) == e.ino && Field(bytes, 8, 8) == at + RecordLength(e)
            && Field(bytes, 16, 2) == RecordLength(e) && bytes[18] == e.kind
            && bytes[NAME_OFFSET..RecordLength(e)] == NameField(e)
            && bytes[RecordLength(e)..] == rest
  {
    var h := Header(e.ino, at + RecordLength(e), RecordLength(e), e.kind);
    HeaderFields(e.ino, at + RecordLength(e), RecordLength(e), e.kind, NameField(e) + rest);
    assert Record(e, at) + rest == h + (NameField(e) + rest);
  }

  /**
   Reading back: whatever was written, a walk by `d_reclen` recovers inode, type, name
   and next-record offset of every accepted entry, in order.
   */
  lemma {:induction false} WalkRecovers(es: seq<DirEntry>, at: nat)
    requires (forall e <- es :: Representable(e)) && at + TotalLength(es) < 0x1_0000_0000_0000_0000
    ensures Walk(Records(es, at)) == Expected(es, at)
  {
    if es != [] {
      var e := es[0];
      RecordsHead(es, at);
      RecordFields(e, at, Records(es[1..], at + RecordLength(e)));
      NameEnds(e.name, Zeros(RecordLength(e) - NAME_OFFSET - |e.name|));
      WalkRecovers(es[1..], at + RecordLength(e));
    }
  }

  /** A record is no longer than its 19 header bytes, its name and a NUL need, rounded up to a multiple of 8. */
  lemma PaddingIsMinimal(e: DirEntry)
    ensures RecordLength(e) % 8 == 0 && 20 + |e.name| <= RecordLength(e) < 28 + |e.name|
  {
  }

  /** Every record starts 8-byte aligned. */
  lemma {:induction false} Aligned(es: seq<DirEntry>)
    ensures TotalLength(es) % 8 == 0
  {
    if es != [] {
      Aligned(es[1..]);
    }
  }

  /** The output stays within the capped capacity, and only an entry that does not fit ends it early. */
  lemma OutputBounded(stream: seq<DirEntry>, capacity: nat)
    ensures var k := Accepted(stream, capacity);
            && |Records(stream[..k], 0)| <= capacity
            && (k < |stream| ==> |Records(stream[..k + 1], 0)| > capacity)
  {
    var k := Accepted(stream, capacity);
    RecordsLength(stream[..k], 0);
    NextRejected(stream, capacity);
    if k < |stream| { RecordsLength(stream[..k + 1], 0); }
  }

  lemma {:induction false} NextRejected(es: seq<DirEntry>, capacity: nat)
    ensures var k := Accepted(es, capacity); k < |es| ==> TotalLength(es[..k + 1]) > capacity
  {
    if es != [] {
      if RecordLength(es[0]) > capacity {
        assert es[..1][1..] == [];
      } else {
        NextRejected(es[1..], capacity - RecordLength(es[0]));
        var k := Accepted(es, capacity);
        if k < |es| { assert es[..k + 1][1..] == es[1..][..k]; }
      }
    }
  }

  /** Names of at most 255 bytes always fit the length field. */
  lemma ShortNamesFit(e: DirEntry)
    requires |e.name| <= 255 && e.ino < 0x1_0000_0000_0000_0000 && forall b <- e.name :: b != 0
    ensures Representable(e)
  {
  }
}
