/**
 The Multiple APIC Description Table: the parser's walk over variable-length entries
 (section 5.2.12 of ACPI 6.5) and the encoding it reads back.
 */
module Madt {
  import opened LittleEndian

  /** Physical memory from the table's first byte on: it may go on past the table. */
  type Memory = seq<Byte>

  /** Memory that is not there reads as zero. */
  function At(mem: Memory, i: nat): Byte { if i < |mem| then mem[i] else 0 }

  const HEADER := 44
  const MAX_CPUS := 256
  const MAX_IO_APICS := 8

  datatype Entry =
    | LocalApic(uid: Byte, id: Byte, flags: nat)
    | IoApic(ioId: Byte, reserved: Byte, addr: nat, gsi: nat)
    | AddressOverride(pad: nat, addr64: nat)
    | Other(kind: Byte, body: seq<Byte>)

  /** What the parser reports: fixed tables, filled from the front. */
  datatype MadtInfo = MadtInfo(
    localApic: nat,
    cpuCount: nat, apicIds: seq<Byte>,
    ioCount: nat, ioAddrs: seq<nat>, ioIds: seq<Byte>, ioGsis: seq<nat>)

  // ---- Reading memory ----

  function ReadLe(mem: Memory, at: nat, k: nat): nat
    decreases k
  {
    if k == 0 then 0 else At(mem, at) + 256 * ReadLe(mem, at + 1, k - 1)
  }

  function Bytes(mem: Memory, at: nat, k: nat): (s: seq<Byte>)
    ensures |s| == k && forall i :: 0 <= i < k ==> s[i] == At(mem, at + i)
  {
    if k == 0 then [] else Bytes(mem, at, k - 1) + [At(mem, at + k - 1)]
  }

  function TableLength(mem: Memory): nat { ReadLe(mem, 4, 4) }

  function HeaderAddress(mem: Memory): nat { ReadLe(mem, 36, 4) }

  /** The bytes of the entry at `at` as the parser interprets them. */
  function EntryAt(mem: Memory, at: nat): Entry {
    if At(mem, at) == 0 then LocalApic(At(mem, at + 2), At(mem, at + 3), ReadLe(mem, at + 4, 4))
    else if At(mem, at) == 1 then
      IoApic(At(mem, at + 2), At(mem, at + 3), ReadLe(mem, at + 4, 4), ReadLe(mem, at + 8, 4))
    else if At(mem, at) == 5 then AddressOverride(ReadLe(mem, at + 2, 2), ReadLe(mem, at + 4, 8))
    else Other(At(mem, at), Bytes(mem, at + 2, BodyLength(At(mem, at + 1))))
  }

  function BodyLength(length: Byte): nat { if length < 2 then 0 else length - 2 }

  /** Where the walk ends: no room for an entry header, or a length too small or too large. */
  predicate Stops(mem: Memory, at: nat, total: nat) {
    at + 2 > total || At(mem, at + 1) < 2 || at + At(mem, at + 1) > total
  }

  /** The offsets of the entries from `at` on, up to the first place where the walk stops. */
  function Offsets(mem: Memory, at: nat, total: nat): seq<nat>
    decreases total - at
  {
    if Stops(mem, at, total) then [] else [at] + Offsets(mem, at + At(mem, at + 1), total)
  }

  function EntriesAt(mem: Memory, offsets: seq<nat>): (es: seq<Entry>)
    ensures |es| == |offsets|
  {
    seq(|offsets|, i requires 0 <= i < |offsets| => EntryAt(mem, offsets[i]))
  }

  function Decoded(mem: Memory, at: nat, total: nat): seq<Entry> { EntriesAt(mem, Offsets(mem, at, total)) }

  // ---- What is to be reported about a list of entries ----

  predicate Usable(e: Entry) { e.LocalApic? && (e.flags % 2 == 1 || e.flags / 2 % 2 == 1) }

  /** The ids of the enabled or online-capable processors, in table order. */
  function Cpus(es: seq<Entry>): seq<Byte> {
    if es == [] then []
    else
      var n := |es| - 1;
      Cpus(es[..n]) + if Usable(es[n]) then [es[n].id] else []
  }

  function IoApics(es: seq<Entry>): (r: seq<Entry>)
    ensures forall e <- r :: e.IoApic?
  {
    if es == [] then []
    else
      var n := |es| - 1;
      IoApics(es[..n]) + if es[n].IoApic? then [es[n]] else []
  }

  /** The last override wins over the header's address. */
  function ApicAddress(header: nat, es: seq<Entry>): nat {
    if es == [] then header
    else
      var n := |es| - 1;
      if es[n].AddressOverride? then es[n].addr64 else ApicAddress(header, es[..n])
  }

  /** `table` holds the first `max` of `found`, `count` of them, and zeros behind. */
  predicate Filled(count: nat, table: seq<int>, max: nat, found: seq<int>) {
    && |table| == max
    && count == (if |found| < max then |found| else max)
    && (forall i :: 0 <= i < count ==> table[i] == found[i])
    && (forall i :: count <= i < max ==> table[i] == 0)
  }

  function Ids(ios: seq<Entry>): (r: seq<int>)
    requires forall e <- ios :: e.IoApic?
    ensures |r| == |ios|
  {
    seq(|ios|, i requires 0 <= i < |ios| => ios[i].ioId)
  }

  function Addrs(ios: seq<Entry>): (r: seq<int>)
    requires forall e <- ios :: e.IoApic?
    ensures |r| == |ios|
  {
    seq(|ios|, i requires 0 <= i < |ios| => ios[i].addr)
  }

  function Gsis(ios: seq<Entry>): (r: seq<int>)
    requires forall e <- ios :: e.IoApic?
    ensures |r| == |ios|
  {
    seq(|ios|, i requires 0 <= i < |ios| => ios[i].gsi)
  }

  /** The report says exactly what the entries say, up to the capacities. */
  predicate Reports(info: MadtInfo, header: nat, es: seq<Entry>) {
    match info
    case MadtInfo(localApic, cpuCount, apicIds, ioCount, ioAddrs, ioIds, ioGsis) =>
      var ios := IoApics(es);
      && localApic == ApicAddress(header, es)
      && Filled(cpuCount, apicIds, 256, Cpus(es))
      && Filled(ioCount, ioIds, 8, Ids(ios))
      && Filled(ioCount, ioAddrs, 8, Addrs(ios))
      && Filled(ioCount, ioGsis, 8, Gsis(ios))
  }

  /** One more found value: stored while there is room. */
  lemma FilledOneMore(count: nat, table: seq<int>, max: nat, found: seq<int>, x: int)
    requires Filled(count, table, max, found)
    ensures count < max ==> Filled(count + 1, table[count := x], max, found + [x])
    ensures count >= max ==> Filled(count, table, max, found + [x])
  {
  }

  lemma OneMore(es: seq<Entry>, e: Entry, header: nat)
    ensures Cpus(es + [e]) == Cpus(es) + if Usable(e) then [e.id] else []
    ensures IoApics(es + [e]) == IoApics(es) + if e.IoApic? then [e] else []
    ensures ApicAddress(header, es + [e]) == if e.AddressOverride? then e.addr64 else ApicAddress(header, es)
  {
  }

  lemma OneMoreIoApic(ios: seq<Entry>, e: Entry)
    requires e.IoApic? && forall x <- ios :: x.IoApic?
    ensures Ids(ios + [e]) == Ids(ios) + [e.ioId]
    ensures Addrs(ios + [e]) == Addrs(ios) + [e.addr]
    ensures Gsis(ios + [e]) == Gsis(ios) + [e.gsi]
  {
  }

  // ---- The code ----

  function EmptyInfo(header: nat): (info: MadtInfo)
    ensures Reports(info, header, [])
  {
    MadtInfo(header, 0, seq(MAX_CPUS, _ => 0),
             0, seq(MAX_IO_APICS, _ => 0), seq(MAX_IO_APICS, _ => 0), seq(MAX_IO_APICS, _ => 0))
  }

  /** One entry's case: what is recorded of it. */
  method Record(info: MadtInfo, mem: Memory, at: nat, ghost header: nat, ghost es: seq<Entry>) returns (r: MadtInfo)
    requires Reports(info, header, es)
    ensures Reports(r, header, es + [EntryAt(mem, at)])
  {
    r := info;
    ghost var e := EntryAt(mem, at);
    OneMore(es, e, header);
    if At(mem, at) == 0 {
      var flags := ReadLe(mem, at + 4, 4);
      if flags % 2 == 1 || flags / 2 % 2 == 1 {
        FilledOneMore(r.cpuCount, r.apicIds, MAX_CPUS, Cpus(es), e.id);
        if r.cpuCount < MAX_CPUS {
          r := r.(apicIds := r.apicIds[r.cpuCount := At(mem, at + 3)], cpuCount := r.cpuCount + 1);
        }
      }
    } else if At(mem, at) == 1 {
      r := RecordIoApic(r, At(mem, at + 2), ReadLe(mem, at + 4, 4), ReadLe(mem, at + 8, 4), header, es, e);
    } else if At(mem, at) == 5 {
      r := r.(localApic := ReadLe(mem, at + 4, 8));
    }
  }

  method RecordIoApic(info: MadtInfo, id: Byte, addr: nat, gsi: nat,
                      ghost header: nat, ghost es: seq<Entry>, ghost e: Entry) returns (r: MadtInfo)
    requires Reports(info, header, es) && e.IoApic? && e.ioId == id && e.addr == addr && e.gsi == gsi
    ensures Reports(r, header, es + [e])
  {
    r := info;
    ghost var ios := IoApics(es);
    OneMore(es, e, header);
    OneMoreIoApic(ios, e);
    FilledOneMore(r.ioCount, r.ioIds, MAX_IO_APICS, Ids(ios), id);
    FilledOneMore(r.ioCount, r.ioAddrs, MAX_IO_APICS, Addrs(ios), addr);
    FilledOneMore(r.ioCount, r.ioGsis, MAX_IO_APICS, Gsis(ios), gsi);
    if r.ioCount < MAX_IO_APICS {
      var i := r.ioCount;
      r := r.(ioIds := r.ioIds[i := id], ioAddrs := r.ioAddrs[i := addr], ioGsis := r.ioGsis[i := gsi],
              ioCount := i + 1);
    }
  }

  lemma EntriesOneMore(mem: Memory, offsets: seq<nat>, at: nat)
    ensures EntriesAt(mem, offsets + [at]) == EntriesAt(mem, offsets) + [EntryAt(mem, at)]
  {
  }

  method RecordAt(info: MadtInfo, mem: Memory, at: nat, ghost header: nat, ghost seen: seq<nat>) returns (r: MadtInfo)
    requires Reports(info, header, EntriesAt(mem, seen))
    ensures Reports(r, header, EntriesAt(mem, seen + [at]))
  {
    EntriesOneMore(mem, seen, at);
    r := Record(info, mem, at, header, EntriesAt(mem, seen));
  }

  lemma OffsetsNext(mem: Memory, at: nat, total: nat, all: seq<nat>, seen: seq<nat>)
    requires all == seen + Offsets(mem, at, total)
    ensures Stops(mem, at, total) ==> all == seen
    ensures !Stops(mem, at, total) ==> all == (seen + [at]) + Offsets(mem, at + At(mem, at + 1), total)
  {
  }

  /** The loop: it ends for every memory content and total, never past the table. */
  method Walk(mem: Memory, header: nat, total: nat) returns (info: MadtInfo, stop: nat)
    ensures Reports(info, header, Decoded(mem, HEADER, total))
    ensures stop == HEADER || stop <= total
    ensures Stops(mem, stop, total)
  {
    info, stop := EmptyInfo(header), HEADER;
    ghost var all, seen: seq<nat> := Offsets(mem, HEADER, total), [];
    assert EntriesAt(mem, seen) == [];
    while stop + 2 <= total
      invariant stop == HEADER || stop <= total
      invariant Reports(info, header, EntriesAt(mem, seen))
      invariant all == seen + Offsets(mem, stop, total)
      decreases total - stop
    {
      var length := At(mem, stop + 1);
      if length < 2 || stop + length > total {
        break;
      }
      OffsetsNext(mem, stop, total, all, seen);
      info := RecordAt(info, mem, stop, header, seen);
      seen := seen + [stop];
      stop := stop + length;
    }
    OffsetsNext(mem, stop, total, all, seen);
  }

  /** Parse the table; `stop` is the offset the walk ended at. */
  method ParseMadt(mem: Memory) returns (info: MadtInfo, stop: nat)
    ensures Reports(info, HeaderAddress(mem), Decoded(mem, HEADER, TableLength(mem)))
    ensures stop == HEADER || stop <= TableLength(mem)
    ensures Stops(mem, stop, TableLength(mem))
  {
    info, stop := Walk(mem, HeaderAddress(mem), TableLength(mem));
  }

  // ---- The encoding, and reading it back ----

  predicate WellFormed(e: Entry) {
    match e
    case LocalApic(_, _, flags) => flags < Pow256(4)
    case IoApic(_, _, addr, gsi) => addr < Pow256(4) && gsi < Pow256(4)
    case AddressOverride(pad, addr64) => pad < Pow256(2) && addr64 < Pow256(8)
    case Other(kind, body) => kind != 0 && kind != 1 && kind != 5 && |body| <= 253
  }

  function Encode(e: Entry): (r: seq<Byte>)
    requires WellFormed(e)
    ensures 2 <= |r| < 256 && r[1] == |r|
  {
    match e
    case LocalApic(uid, id, flags) => [0, 8, uid, id] + ToBytes(flags, 4)
    case IoApic(id, reserved, addr, gsi) => [1, 12, id, reserved] + ToBytes(addr, 4) + ToBytes(gsi, 4)
    case AddressOverride(pad, addr64) => [5, 12] + ToBytes(pad, 2) + ToBytes(addr64, 8)
    case Other(kind, body) => [kind, |body| + 2] + body
  }

  predicate AllWellFormed(es: seq<Entry>) { forall i :: 0 <= i < |es| ==> WellFormed(es[i]) }

  function EncodeAll(es: seq<Entry>): seq<Byte>
    requires AllWellFormed(es)
  {
    if es == [] then [] else Encode(es[0]) + EncodeAll(es[1..])
  }

  predicate Holds(mem: Memory, at: nat, bytes: seq<Byte>) {
    forall i :: 0 <= i < |bytes| ==> At(mem, at + i) == bytes[i]
  }

  lemma HoldsParts(mem: Memory, at: nat, a: seq<Byte>, b: seq<Byte>)
    requires Holds(mem, at, a + b)
    ensures Holds(mem, at, a) && Holds(mem, at + |a|, b)
  {
    assert forall i :: 0 <= i < |a| ==> (a + b)[i] == a[i];
    forall i | 0 <= i < |b| ensures At(mem, at + |a| + i) == b[i] {
      assert (a + b)[|a| + i] == b[i];
    }
  }

  lemma {:induction false} ReadsBack(mem: Memory, at: nat, n: nat, k: nat)
    requires n < Pow256(k) && Holds(mem, at, ToBytes(n, k))
    ensures ReadLe(mem, at, k) == n
    decreases k
  {
    if k > 0 {
      var rest := ToBytes(n / 256, k - 1);
      HoldsParts(mem, at, [n % 256], rest);
      assert At(mem, at + 0) == [n % 256][0];
      ReadsBack(mem, at + 1, n / 256, k - 1);
    }
  }

  lemma LocalApicReadsBack(mem: Memory, at: nat, e: Entry)
    requires e.LocalApic? && WellFormed(e) && Holds(mem, at, Encode(e))
    ensures At(mem, at + 1) == 8 && EntryAt(mem, at) == e
  {
    HoldsParts(mem, at, [0, 8, e.uid, e.id], ToBytes(e.flags, 4));
    FourBytes(mem, at, 0, 8, e.uid, e.id);
    ReadsBack(mem, at + 4, e.flags, 4);
  }

  lemma IoApicReadsBack(mem: Memory, at: nat, e: Entry)
    requires e.IoApic? && WellFormed(e) && Holds(mem, at, Encode(e))
    ensures At(mem, at + 1) == 12 && EntryAt(mem, at) == e
  {
    var front: seq<Byte> := [1, 12, e.ioId, e.reserved];
    HoldsParts(mem, at, front + ToBytes(e.addr, 4), ToBytes(e.gsi, 4));
    HoldsParts(mem, at, front, ToBytes(e.addr, 4));
    FourBytes(mem, at, 1, 12, e.ioId, e.reserved);
    ReadsBack(mem, at + 4, e.addr, 4);
    ReadsBack(mem, at + 8, e.gsi, 4);
  }

  lemma OverrideReadsBack(mem: Memory, at: nat, e: Entry)
    requires e.AddressOverride? && WellFormed(e) && Holds(mem, at, Encode(e))
    ensures At(mem, at + 1) == 12 && EntryAt(mem, at) == e
  {
    HoldsParts(mem, at, [5, 12] + ToBytes(e.pad, 2), ToBytes(e.addr64, 8));
    HoldsParts(mem, at, [5, 12], ToBytes(e.pad, 2));
    TwoBytes(mem, at, 5, 12);
    ReadsBack(mem, at + 2, e.pad, 2);
    ReadsBack(mem, at + 4, e.addr64, 8);
  }

  lemma OtherReadsBack(mem: Memory, at: nat, e: Entry)
    requires e.Other? && WellFormed(e) && Holds(mem, at, Encode(e))
    ensures At(mem, at + 1) == |e.body| + 2 && EntryAt(mem, at) == e
  {
    HoldsParts(mem, at, [e.kind, |e.body| + 2], e.body);
    TwoBytes(mem, at, e.kind, |e.body| + 2);
    assert EntryAt(mem, at).body == e.body;
  }

  /** One encoded entry is read back exactly. */
  lemma EntryReadsBack(mem: Memory, at: nat, e: Entry)
    requires WellFormed(e) && Holds(mem, at, Encode(e))
    ensures At(mem, at + 1) == |Encode(e)| && EntryAt(mem, at) == e
  {
    match e
    case LocalApic(_, _, _) => LocalApicReadsBack(mem, at, e);
    case IoApic(_, _, _, _) => IoApicReadsBack(mem, at, e);
    case AddressOverride(_, _) => OverrideReadsBack(mem, at, e);
    case Other(_, _) => OtherReadsBack(mem, at, e);
  }

  lemma TwoBytes(mem: Memory, at: nat, a: Byte, b: Byte)
    requires Holds(mem, at, [a, b])
    ensures At(mem, at) == a && At(mem, at + 1) == b
  {
    var s: seq<Byte> := [a, b];
    assert At(mem, at + 0) == s[0] && At(mem, at + 1) == s[1];
  }

  lemma FourBytes(mem: Memory, at: nat, a: Byte, b: Byte, c: Byte, d: Byte)
    requires Holds(mem, at, [a, b, c, d])
    ensures At(mem, at) == a && At(mem, at + 1) == b && At(mem, at + 2) == c && At(mem, at + 3) == d
  {
    var s: seq<Byte> := [a, b, c, d];
    assert At(mem, at + 0) == s[0] && At(mem, at + 1) == s[1] && At(mem, at + 2) == s[2] && At(mem, at + 3) == s[3];
  }

  lemma OneEncoded(mem: Memory, at: nat, e: Entry, next: nat, total: nat)
    requires WellFormed(e) && Holds(mem, at, Encode(e)) && next == at + |Encode(e)| <= total
    ensures Decoded(mem, at, total) == [e] + Decoded(mem, next, total)
  {
    EntryReadsBack(mem, at, e);
    assert Offsets(mem, at, total) == [at] + Offsets(mem, next, total);
  }

  /**
   Any list of well-formed entries is decoded back from its encoding, whatever bytes follow
   it, provided the walk stops behind it.
   */
  lemma {:induction false} DecodeEncode(mem: Memory, at: nat, es: seq<Entry>, bytes: seq<Byte>, total: nat)
    requires AllWellFormed(es) && bytes == EncodeAll(es)
    requires Holds(mem, at, bytes) && at + |bytes| <= total && Stops(mem, at + |bytes|, total)
    ensures Decoded(mem, at, total) == es
    decreases es
  {
    if es != [] {
      var one, rest := Encode(es[0]), EncodeAll(es[1..]);
      HoldsParts(mem, at, one, rest);
      OneEncoded(mem, at, es[0], at + |one|, total);
      DecodeEncode(mem, at + |one|, es[1..], rest, total);
    }
  }

  /** The table's header: signature, length, 28 bytes the parser does not look at, address and flags. */
  function EncodeHeader(signature: seq<Byte>, length: nat, skipped: seq<Byte>, address: nat, flags: nat): seq<Byte> {
    signature + ToBytes(length, 4) + skipped + ToBytes(address, 4) + ToBytes(flags, 4)
  }

  lemma HeaderReadsBack(mem: Memory, signature: seq<Byte>, length: nat, skipped: seq<Byte>, address: nat, flags: nat)
    requires |signature| == 4 && |skipped| == 28 && length < Pow256(4) && address < Pow256(4)
    requires Holds(mem, 0, EncodeHeader(signature, length, skipped, address, flags))
    ensures TableLength(mem) == length && HeaderAddress(mem) == address
  {
    var size, apic, rest := ToBytes(length, 4), ToBytes(address, 4), ToBytes(flags, 4);
    HoldsParts(mem, 0, signature + size + skipped + apic, rest);
    HoldsParts(mem, 0, signature + size + skipped, apic);
    HoldsParts(mem, 0, signature + size, skipped);
    HoldsParts(mem, 0, signature, size);
    ReadsBack(mem, 4, length, 4);
    ReadsBack(mem, 36, address, 4);
  }

  /**
   A whole table is read back: its length, the address in its header and its entries, whatever
   follows it in memory.
   */
  lemma TableReadsBack(mem: Memory, signature: seq<Byte>, skipped: seq<Byte>, address: nat, flags: nat,
                       es: seq<Entry>, bytes: seq<Byte>)
    requires |signature| == 4 && |skipped| == 28 && address < Pow256(4) && AllWellFormed(es)
    requires bytes == EncodeAll(es) && 44 + |bytes| < Pow256(4)
    requires Holds(mem, 0, EncodeHeader(signature, 44 + |bytes|, skipped, address, flags) + bytes)
    ensures TableLength(mem) == 44 + |bytes| && HeaderAddress(mem) == address
    ensures Decoded(mem, HEADER, 44 + |bytes|) == es
  {
    HoldsParts(mem, 0, EncodeHeader(signature, 44 + |bytes|, skipped, address, flags), bytes);
    HeaderReadsBack(mem, signature, 44 + |bytes|, skipped, address, flags);
    DecodeEncode(mem, HEADER, es, bytes, 44 + |bytes|);
  }

  // ---- Reads past the table ----

  /** How many bytes of an entry the parser reads, whatever length the entry claims. */
  function Need(kind: Byte): nat { if kind == 0 then 8 else if kind == 1 || kind == 5 then 12 else 2 }

  /** Every entry of the walk has its fields inside the table. */
  predicate FieldsInside(mem: Memory, at: nat, total: nat)
    decreases total - at
  {
    Stops(mem, at, total)
    || (at + Need(At(mem, at)) <= total && FieldsInside(mem, at + At(mem, at + 1), total))
  }

  predicate AgreeBelow(mem: Memory, mem': Memory, n: nat) { forall i :: 0 <= i < n ==> At(mem, i) == At(mem', i) }

  lemma {:induction false} SameRead(mem: Memory, mem': Memory, at: nat, k: nat, n: nat)
    requires AgreeBelow(mem, mem', n) && at + k <= n
    ensures ReadLe(mem, at, k) == ReadLe(mem', at, k)
    decreases k
  {
    if k > 0 {
      SameRead(mem, mem', at + 1, k - 1, n);
    }
  }

  lemma SameEntry(mem: Memory, mem': Memory, at: nat, n: nat)
    requires AgreeBelow(mem, mem', n) && at + Need(At(mem, at)) <= n && at + At(mem, at + 1) <= n
    ensures EntryAt(mem, at) == EntryAt(mem', at)
  {
    var k := At(mem, at);
    if k == 0 || k == 1 || k == 5 {
      SameRead(mem, mem', at + 2, 2, n);
      SameRead(mem, mem', at + 4, 4, n);
    }
    if k == 1 || k == 5 {
      SameRead(mem, mem', at + 8, 4, n);
      SameRead(mem, mem', at + 4, 8, n);
    }
  }

  /** The first decoded entry and the rest. */
  lemma DecodedHead(mem: Memory, at: nat, total: nat)
    requires !Stops(mem, at, total)
    ensures Decoded(mem, at, total) == [EntryAt(mem, at)] + Decoded(mem, at + At(mem, at + 1), total)
  {
    var rest := Offsets(mem, at + At(mem, at + 1), total);
    assert Offsets(mem, at, total) == [at] + rest;
    assert EntriesAt(mem, [at] + rest) == [EntryAt(mem, at)] + EntriesAt(mem, rest);
  }

  lemma {:induction false} SameDecoded(mem: Memory, mem': Memory, at: nat, total: nat)
    requires AgreeBelow(mem, mem', total) && FieldsInside(mem, at, total)
    ensures Decoded(mem, at, total) == Decoded(mem', at, total)
    decreases total - at
  {
    if !Stops(mem, at, total) {
      SameEntry(mem, mem', at, total);
      DecodedHead(mem, at, total);
      DecodedHead(mem', at, total);
      SameDecoded(mem, mem', at + At(mem, at + 1), total);
    }
  }

  /** `mem` with another byte at `p`. */
  function Flipped(mem: Memory, p: nat): (r: Memory)
    ensures forall i: nat :: i != p ==> At(r, i) == At(mem, i)
    ensures At(r, p) != At(mem, p)
  {
    Bytes(mem, 0, p) + [(At(mem, p) + 1) % 256] + if p < |mem| then mem[p + 1..] else []
  }

  lemma {:induction false} LastByteMatters(mem: Memory, mem': Memory, at: nat, k: nat)
    requires k > 0 && At(mem, at + k - 1) != At(mem', at + k - 1)
    ensures ReadLe(mem, at, k) != ReadLe(mem', at, k)
    decreases k
  {
    if k > 1 {
      LastByteMatters(mem, mem', at + 1, k - 1);
    }
  }

  lemma OtherEntry(mem: Memory, at: nat, mem': Memory)
    requires Need(At(mem, at)) > 2 && At(mem', at) == At(mem, at)
    requires At(mem', at + Need(At(mem, at)) - 1) != At(mem, at + Need(At(mem, at)) - 1)
    ensures EntryAt(mem, at) != EntryAt(mem', at)
  {
    var k := At(mem, at);
    LastByteMatters(mem, mem', if k == 1 then at + 8 else at + 4, if k == 5 then 8 else 4);
  }

  lemma Differ(x: Entry, r: seq<Entry>, y: Entry, q: seq<Entry>)
    requires x != y || r != q
    ensures [x] + r != [y] + q
  {
    assert ([x] + r)[0] == x && ([x] + r)[1..] == r;
    assert ([y] + q)[0] == y && ([y] + q)[1..] == q;
  }

  /** Entries that differ at one place, or behind it, make different lists. */
  lemma DecodedDiffers(mem: Memory, mem': Memory, at: nat, next: nat, total: nat)
    requires !Stops(mem, at, total) && !Stops(mem', at, total)
    requires next == at + At(mem, at + 1) == at + At(mem', at + 1)
    requires EntryAt(mem, at) != EntryAt(mem', at) || Decoded(mem, next, total) != Decoded(mem', next, total)
    ensures Decoded(mem, at, total) != Decoded(mem', at, total)
  {
    DecodedHead(mem, at, total);
    DecodedHead(mem', at, total);
    Differ(EntryAt(mem, at), Decoded(mem, next, total), EntryAt(mem', at), Decoded(mem', next, total));
  }

  /** An entry whose fields run out of the table makes what is read depend on the bytes behind it. */
  lemma {:induction false} OutsideMatters(mem: Memory, at: nat, total: nat) returns (mem': Memory)
    requires !FieldsInside(mem, at, total)
    ensures AgreeBelow(mem, mem', total) && Decoded(mem, at, total) != Decoded(mem', at, total)
    decreases total - at
  {
    var next, last := at + At(mem, at + 1), at + Need(At(mem, at)) - 1;
    if last >= total {
      mem' := Flipped(mem, last);
      OtherEntry(mem, at, mem');
    } else {
      mem' := OutsideMatters(mem, next, total);
    }
    DecodedDiffers(mem, mem', at, next, total);
  }

  /**
   What the parser reads is the table's own, whatever lies behind it, if and only if every entry
   of the walk has its fields inside the table; lengths of 8, 12 and 12 for the types 0, 1 and 5 are enough.
   */
  lemma TableOnly(mem: Memory)
    ensures var total := TableLength(mem);
            FieldsInside(mem, HEADER, total) <==>
              forall mem' :: AgreeBelow(mem, mem', total) ==>
                Decoded(mem', HEADER, total) == Decoded(mem, HEADER, total)
  {
    var total := TableLength(mem);
    if FieldsInside(mem, HEADER, total) {
      forall mem' | AgreeBelow(mem, mem', total)
        ensures Decoded(mem', HEADER, total) == Decoded(mem, HEADER, total)
      {
        SameDecoded(mem, mem', HEADER, total);
      }
    } else {
      var mem' := OutsideMatters(mem, HEADER, total);
    }
  }

  /** Then two memories with the same header and table give the same report. */
  lemma ReportIsTables(mem: Memory, mem': Memory, info: MadtInfo)
    requires AgreeBelow(mem, mem', HEADER) && AgreeBelow(mem, mem', TableLength(mem))
    requires FieldsInside(mem, HEADER, TableLength(mem))
    requires Reports(info, HeaderAddress(mem), Decoded(mem, HEADER, TableLength(mem)))
    ensures Reports(info, HeaderAddress(mem'), Decoded(mem', HEADER, TableLength(mem')))
  {
    SameRead(mem, mem', 4, 4, HEADER);
    SameRead(mem, mem', 36, 4, HEADER);
    SameDecoded(mem, mem', HEADER, TableLength(mem));
  }

  /** A 46-byte table that ends in a type 0 entry of length 2. */
  function ShortTable(): Memory {
    [65, 80, 73, 67, 46, 0, 0, 0] + Bytes([], 0, 36) + [0, 2]
  }

  /** The parser takes the processor behind it for one of the table's. */
  lemma ShortEntryReadsOn()
    ensures var mem := ShortTable();
            && TableLength(mem) == 46 == |mem| && TableLength(mem + [0, 7, 1]) == 46
            && Cpus(Decoded(mem, HEADER, 46)) == []
            && Cpus(Decoded(mem + [0, 7, 1], HEADER, 46)) == [7]
  {
    ShortTableRead(ShortTable(), [], 0);
    ShortTableRead(ShortTable() + [0, 7, 1], [0, 7, 1], 1);
  }

  lemma ShortTableRead(mem: Memory, behind: seq<Byte>, flags: Byte)
    requires mem == ShortTable() + behind
    requires (behind == [] && flags == 0) || behind == [0, 7, flags]
    ensures TableLength(mem) == 46 && Cpus(Decoded(mem, HEADER, 46)) == if flags % 4 == 0 then [] else [7]
  {
    ByteRead(mem, 4, 46);
    ByteRead(mem, 48, flags);
    DecodedHead(mem, 44, 46);
    var e := EntryAt(mem, 44);
    assert Decoded(mem, 44, 46) == [e];
    OneMore([], e, 0);
    assert [] + [e] == [e];
  }

  lemma ByteRead(mem: Memory, at: nat, b: Byte)
    requires At(mem, at) == b && At(mem, at + 1) == 0 && At(mem, at + 2) == 0 && At(mem, at + 3) == 0
    ensures ReadLe(mem, at, 4) == b
  {
    assert ReadLe(mem, at + 2, 2) == 0;
  }
}
