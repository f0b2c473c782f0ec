/**
 When the report of the MADT parser is the table's own: exactly when no byte behind the table can
 decide anything that is reported.
 */
module MadtReport {
  import opened LittleEndian
  import opened Madt

  // ---- Lists of entries with the same report ----

  /** The same values, or the same first `max` of them. */
  predicate SameFirst<T(==)>(a: seq<T>, b: seq<T>, max: nat) {
    a == b || (|a| >= max && |b| >= max && a[..max] == b[..max])
  }

  lemma SameFirstGrows<T>(a: seq<T>, b: seq<T>, x: seq<T>, y: seq<T>, max: nat)
    requires SameFirst(a, b, max) && (x == y || |a| >= max)
    ensures SameFirst(a + x, b + y, max)
  {
    if |a| >= max {
      assert (a + x)[..max] == a[..max] && (b + y)[..max] == b[..max];
    }
  }

  predicate SameKind(e: Entry, e': Entry) {
    && (e.LocalApic? <==> e'.LocalApic?) && (e.IoApic? <==> e'.IoApic?)
    && (e.AddressOverride? <==> e'.AddressOverride?)
  }

  predicate SameCpu(e: Entry, e': Entry) { (Usable(e) <==> Usable(e')) && (Usable(e) ==> e.id == e'.id) }

  /** Entry `i` reports the same in both lists, or comes too late to be reported. */
  predicate AlikeAt(es: seq<Entry>, es': seq<Entry>, i: nat)
    requires i < |es| && |es| == |es'|
  {
    && SameKind(es[i], es'[i])
    && (es[i].LocalApic? ==> SameCpu(es[i], es'[i]) || |Cpus(es[..i])| >= MAX_CPUS)
    && (es[i].IoApic? ==> es[i] == es'[i] || |IoApics(es[..i])| >= MAX_IO_APICS)
    && (es[i].AddressOverride? ==> es[i] == es'[i])
  }

  predicate Alike(es: seq<Entry>, es': seq<Entry>) {
    |es| == |es'| && forall i :: 0 <= i < |es| ==> AlikeAt(es, es', i)
  }

  lemma AlikePrefix(es: seq<Entry>, es': seq<Entry>)
    requires Alike(es, es') && es != []
    ensures Alike(es[..|es| - 1], es'[..|es| - 1])
  {
    var n := |es| - 1;
    forall i | 0 <= i < n
      ensures AlikeAt(es[..n], es'[..n], i)
    {
      assert AlikeAt(es, es', i);
      assert es[..n][..i] == es[..i];
    }
  }

  lemma {:induction false} AlikeCpus(es: seq<Entry>, es': seq<Entry>)
    requires Alike(es, es')
    ensures SameFirst(Cpus(es), Cpus(es'), MAX_CPUS)
  {
    if es != [] {
      var n := |es| - 1;
      AlikePrefix(es, es');
      AlikeCpus(es[..n], es'[..n]);
      assert AlikeAt(es, es', n);
      SameFirstGrows(Cpus(es[..n]), Cpus(es'[..n]), if Usable(es[n]) then [es[n].id] else [],
                     if Usable(es'[n]) then [es'[n].id] else [], MAX_CPUS);
    }
  }

  lemma {:induction false} AlikeIoApics(es: seq<Entry>, es': seq<Entry>)
    requires Alike(es, es')
    ensures SameFirst(IoApics(es), IoApics(es'), MAX_IO_APICS)
  {
    if es != [] {
      var n := |es| - 1;
      AlikePrefix(es, es');
      AlikeIoApics(es[..n], es'[..n]);
      assert AlikeAt(es, es', n);
      SameFirstGrows(IoApics(es[..n]), IoApics(es'[..n]), if es[n].IoApic? then [es[n]] else [],
                     if es'[n].IoApic? then [es'[n]] else [], MAX_IO_APICS);
    }
  }

  lemma {:induction false} AlikeAddress(header: nat, es: seq<Entry>, es': seq<Entry>)
    requires Alike(es, es')
    ensures ApicAddress(header, es) == ApicAddress(header, es')
  {
    if es != [] {
      AlikePrefix(es, es');
      AlikeAddress(header, es[..|es| - 1], es'[..|es| - 1]);
      assert AlikeAt(es, es', |es| - 1);
    }
  }

  lemma FilledSame(count: nat, table: seq<int>, max: nat, found: seq<int>, found': seq<int>)
    requires Filled(count, table, max, found) && SameFirst(found, found', max)
    ensures Filled(count, table, max, found')
  {
    if found != found' {
      forall i | 0 <= i < max
        ensures found[i] == found'[i]
      {
        assert found[..max][i] == found'[..max][i];
      }
    }
  }

  lemma ColumnsSame(ios: seq<Entry>, ios': seq<Entry>, max: nat)
    requires (forall e <- ios :: e.IoApic?) && (forall e <- ios' :: e.IoApic?) && SameFirst(ios, ios', max)
    ensures SameFirst(Ids(ios), Ids(ios'), max)
    ensures SameFirst(Addrs(ios), Addrs(ios'), max) && SameFirst(Gsis(ios), Gsis(ios'), max)
  {
    if ios != ios' {
      forall i | 0 <= i < max
        ensures ios[i] == ios'[i]
      {
        assert ios[..max][i] == ios'[..max][i];
      }
    }
  }

  lemma AlikeReports(info: MadtInfo, header: nat, es: seq<Entry>, es': seq<Entry>)
    requires Reports(info, header, es) && Alike(es, es')
    ensures Reports(info, header, es')
  {
    AlikeCpus(es, es');
    AlikeIoApics(es, es');
    AlikeAddress(header, es, es');
    var ios, ios' := IoApics(es), IoApics(es');
    ColumnsSame(ios, ios', MAX_IO_APICS);
    FilledSame(info.cpuCount, info.apicIds, MAX_CPUS, Cpus(es), Cpus(es'));
    FilledSame(info.ioCount, info.ioIds, MAX_IO_APICS, Ids(ios), Ids(ios'));
    FilledSame(info.ioCount, info.ioAddrs, MAX_IO_APICS, Addrs(ios), Addrs(ios'));
    FilledSame(info.ioCount, info.ioGsis, MAX_IO_APICS, Gsis(ios), Gsis(ios'));
  }

  // ---- Lists of entries with different reports ----

  lemma {:induction false} OneMoreCpu(es: seq<Entry>, es': seq<Entry>, i: nat)
    requires |es| == |es'| && (forall j :: 0 <= j < |es| && j != i ==> (Usable(es[j]) <==> Usable(es'[j])))
    requires i < |es| ==> !Usable(es[i]) && Usable(es'[i])
    ensures |Cpus(es')| == |Cpus(es)| + if i < |es| then 1 else 0
  {
    if es != [] {
      OneMoreCpu(es[..|es| - 1], es'[..|es| - 1], i);
    }
  }

  lemma {:induction false} FewerCpus(es: seq<Entry>, es': seq<Entry>, i: nat)
    requires |es| == |es'| && i <= |es'|
    requires forall j :: 0 <= j < |es| && Usable(es[j]) ==> j < i && Usable(es'[j])
    ensures |Cpus(es)| <= |Cpus(es'[..i])|
  {
    if es != [] {
      var n := |es| - 1;
      if i <= n {
        FewerCpus(es[..n], es'[..n], i);
        assert es'[..n][..i] == es'[..i];
      } else {
        FewerCpus(es[..n], es'[..n], n);
        assert es'[..n][..n] == es'[..n] && es'[..i] == es';
      }
    }
  }

  /** Where an I/O APIC entry stands among its like. */
  lemma {:induction false} IoApicAt(es: seq<Entry>, i: nat)
    requires i < |es| && es[i].IoApic?
    ensures |IoApics(es[..i])| < |IoApics(es)| && IoApics(es)[|IoApics(es[..i])|] == es[i]
  {
    var n := |es| - 1;
    if i < n {
      IoApicAt(es[..n], i);
      assert es[..n][..i] == es[..i];
    }
  }

  lemma {:induction false} SameIoCount(es: seq<Entry>, es': seq<Entry>)
    requires |es| == |es'| && forall j :: 0 <= j < |es| ==> SameKind(es[j], es'[j])
    ensures |IoApics(es)| == |IoApics(es')|
  {
    if es != [] {
      SameIoCount(es[..|es| - 1], es'[..|es| - 1]);
    }
  }

  lemma {:induction false} LastOverride(es: seq<Entry>, i: nat) returns (l: nat)
    requires i < |es| && es[i].AddressOverride?
    ensures i <= l < |es| && es[l].AddressOverride?
    ensures forall j :: l < j < |es| ==> !es[j].AddressOverride?
  {
    l := |es| - 1;
    if !es[l].AddressOverride? {
      var k := LastOverride(es[..l], i);
      l := k;
    }
  }

  lemma {:induction false} AddressIsLast(header: nat, es: seq<Entry>, l: nat)
    requires l < |es| && es[l].AddressOverride? && forall j :: l < j < |es| ==> !es[j].AddressOverride?
    ensures ApicAddress(header, es) == es[l].addr64
  {
    if l < |es| - 1 {
      AddressIsLast(header, es[..|es| - 1], l);
    }
  }

  // ---- The walk over two memories ----

  function TableEntries(mem: Memory): seq<Entry> { Decoded(mem, HEADER, TableLength(mem)) }

  /** The same header and the same table. */
  predicate SameTable(mem: Memory, mem': Memory) {
    AgreeBelow(mem, mem', HEADER) && AgreeBelow(mem, mem', TableLength(mem))
  }

  lemma {:induction false} SameOffsets(mem: Memory, mem': Memory, at: nat, total: nat)
    requires AgreeBelow(mem, mem', total)
    ensures Offsets(mem, at, total) == Offsets(mem', at, total)
    decreases total - at
  {
    if !Stops(mem, at, total) {
      SameOffsets(mem, mem', at + At(mem, at + 1), total);
    }
  }

  lemma SameWalk(mem: Memory, mem': Memory, os: seq<nat>)
    requires SameTable(mem, mem') && os == Offsets(mem, HEADER, TableLength(mem))
    ensures HeaderAddress(mem') == HeaderAddress(mem) && TableLength(mem') == TableLength(mem)
    ensures TableEntries(mem) == EntriesAt(mem, os) && TableEntries(mem') == EntriesAt(mem', os)
  {
    SameRead(mem, mem', 4, 4, HEADER);
    SameRead(mem, mem', 36, 4, HEADER);
    SameOffsets(mem, mem', HEADER, TableLength(mem));
  }

  /** Entry headers lie in the table, at least two bytes apart. */
  predicate Spread(os: seq<nat>, at: nat, total: nat) {
    && (forall i :: 0 <= i < |os| ==> at <= os[i] && os[i] + 2 <= total)
    && (forall i, j :: 0 <= i < j < |os| ==> os[i] + 2 <= os[j])
  }

  lemma {:induction false} OffsetsSpread(mem: Memory, at: nat, total: nat)
    ensures Spread(Offsets(mem, at, total), at, total)
    decreases total - at
  {
    if !Stops(mem, at, total) {
      var next := at + At(mem, at + 1);
      OffsetsSpread(mem, next, total);
      SpreadMore(at, Offsets(mem, next, total), next, total);
    }
  }

  lemma SpreadMore(at: nat, os: seq<nat>, next: nat, total: nat)
    requires at + 2 <= next <= total && Spread(os, next, total)
    ensures Spread([at] + os, at, total)
  {
  }

  lemma LowBits(mem: Memory, at: nat)
    ensures ReadLe(mem, at, 4) % 4 == At(mem, at) % 4
  {
    var rest := ReadLe(mem, at + 1, 3);
    assert ReadLe(mem, at, 4) == At(mem, at) + 4 * (64 * rest);
  }

  /** A processor is usable by the two low bits of one byte. */
  lemma UsableByte(mem: Memory, at: nat)
    ensures Usable(EntryAt(mem, at)) <==> At(mem, at) == 0 && At(mem, at + 4) % 4 != 0
  {
    LowBits(mem, at + 4);
    TwoBits(ReadLe(mem, at + 4, 4));
  }

  lemma TwoBits(flags: nat)
    ensures flags % 2 == 1 || flags / 2 % 2 == 1 <==> flags % 4 != 0
  {
  }

  // ---- The condition ----

  /** Nothing reported about entry `i` lies behind the table. */
  predicate EntryInside(mem: Memory, os: seq<nat>, i: nat, total: nat)
    requires i < |os|
  {
    var kind, es := At(mem, os[i]), EntriesAt(mem, os);
    && (kind == 0 ==> os[i] + 5 <= total || |Cpus(es[..i])| >= MAX_CPUS)
    && (kind == 1 ==> os[i] + 12 <= total || |IoApics(es[..i])| >= MAX_IO_APICS)
    && (kind == 5 ==> os[i] + 12 <= total)
  }

  /**
   Every processor entry among those that are reported has its id and flag byte in the table,
   every reported I/O APIC all its fields, and every override its address.
   */
  predicate ReportInside(mem: Memory) {
    var total := TableLength(mem);
    var os := Offsets(mem, HEADER, total);
    forall i :: 0 <= i < |os| ==> EntryInside(mem, os, i, total)
  }

  lemma InsideIsAlike(mem: Memory, mem': Memory, os: seq<nat>, i: nat, total: nat)
    requires AgreeBelow(mem, mem', total) && i < |os| && os[i] + 2 <= total && EntryInside(mem, os, i, total)
    ensures AlikeAt(EntriesAt(mem, os), EntriesAt(mem', os), i)
  {
    var at := os[i];
    assert At(mem, at) == At(mem', at);
    if At(mem, at) == 0 && at + 5 <= total {
      CpuInside(mem, mem', at, total);
    } else if (At(mem, at) == 1 || At(mem, at) == 5) && at + 12 <= total {
      SameFields(mem, mem', at, total);
    }
  }

  lemma CpuInside(mem: Memory, mem': Memory, at: nat, total: nat)
    requires AgreeBelow(mem, mem', total) && At(mem, at) == 0 && at + 5 <= total
    ensures SameCpu(EntryAt(mem, at), EntryAt(mem', at))
  {
    UsableByte(mem, at);
    UsableByte(mem', at);
  }

  lemma SameFields(mem: Memory, mem': Memory, at: nat, total: nat)
    requires AgreeBelow(mem, mem', total) && (At(mem, at) == 1 || At(mem, at) == 5) && at + 12 <= total
    ensures EntryAt(mem, at) == EntryAt(mem', at)
  {
    SameRead(mem, mem', at + 2, 2, total);
    SameRead(mem, mem', at + 4, 4, total);
    SameRead(mem, mem', at + 8, 4, total);
    SameRead(mem, mem', at + 4, 8, total);
  }

  lemma InsideSame(mem: Memory, mem': Memory, info: MadtInfo)
    requires SameTable(mem, mem') && ReportInside(mem) && Reports(info, HeaderAddress(mem), TableEntries(mem))
    ensures Reports(info, HeaderAddress(mem'), TableEntries(mem'))
  {
    var total := TableLength(mem);
    var os := Offsets(mem, HEADER, total);
    SameWalk(mem, mem', os);
    OffsetsSpread(mem, HEADER, total);
    forall i | 0 <= i < |os|
      ensures AlikeAt(EntriesAt(mem, os), EntriesAt(mem', os), i)
    {
      InsideIsAlike(mem, mem', os, i, total);
    }
    AlikeReports(info, HeaderAddress(mem), EntriesAt(mem, os), EntriesAt(mem', os));
  }

  // ---- Two memories with the same table and different reports ----

  /** Memory that is zero behind the table. */
  function Cut(mem: Memory): (r: Memory)
    ensures AgreeBelow(mem, r, TableLength(mem)) && forall i :: i >= TableLength(mem) ==> At(r, i) == 0
  {
    Bytes(mem, 0, TableLength(mem))
  }

  lemma Kinds(mem: Memory, mem': Memory, os: seq<nat>, total: nat)
    requires AgreeBelow(mem, mem', total) && forall i :: 0 <= i < |os| ==> os[i] + 2 <= total
    ensures forall i :: 0 <= i < |os| ==> SameKind(EntriesAt(mem, os)[i], EntriesAt(mem', os)[i])
  {
    forall i | 0 <= i < |os|
      ensures SameKind(EntriesAt(mem, os)[i], EntriesAt(mem', os)[i])
    {
      assert At(mem, os[i]) == At(mem', os[i]);
    }
  }

  /** The walk of `mem`, of `mem` cut off, and of the latter with one byte `p` behind the table. */
  ghost predicate Compared(mem: Memory, cut: Memory, other: Memory, os: seq<nat>, p: nat, total: nat) {
    && total == TableLength(mem) >= HEADER && os == Offsets(mem, HEADER, total)
    && Spread(os, HEADER, total)
    && AgreeBelow(mem, cut, total) && (forall i :: i >= total ==> At(cut, i) == 0)
    && p >= total && At(other, p) == 1 && (forall i: nat :: i != p ==> At(other, i) == At(cut, i))
  }

  lemma Compare(mem: Memory, p: nat) returns (cut: Memory, other: Memory)
    requires p >= TableLength(mem) >= HEADER
    ensures Compared(mem, cut, other, Offsets(mem, HEADER, TableLength(mem)), p, TableLength(mem))
    ensures SameTable(mem, cut) && SameTable(mem, other)
  {
    cut := Cut(mem);
    other := Flipped(cut, p);
    assert At(other, p) == 1;
    OffsetsSpread(mem, HEADER, TableLength(mem));
  }

  /** Whichever of the two memories does not have that report. */
  lemma Pick(mem: Memory, cut: Memory, other: Memory, es0: seq<Entry>, es1: seq<Entry>, info: MadtInfo)
    returns (mem': Memory)
    requires SameTable(mem, cut) && SameTable(mem, other) && es0 == TableEntries(cut) && es1 == TableEntries(other)
    requires !(Reports(info, HeaderAddress(mem), es0) && Reports(info, HeaderAddress(mem), es1))
    ensures SameTable(mem, mem') && !Reports(info, HeaderAddress(mem'), TableEntries(mem'))
  {
    SameRead(mem, cut, 36, 4, HEADER);
    SameRead(mem, other, 36, 4, HEADER);
    mem' := if Reports(info, HeaderAddress(mem), es0) then other else cut;
  }

  /** The byte behind the table that says whether entry `i` is usable. */
  lemma UsableElsewhere(mem: Memory, cut: Memory, other: Memory, os: seq<nat>, i: nat, j: nat, total: nat)
    requires i < |os| && j < |os| && Compared(mem, cut, other, os, os[i] + 4, total) && At(mem, os[i]) == 0
    ensures Usable(EntryAt(cut, os[j])) ==> j < i && Usable(EntryAt(mem, os[j]))
    ensures Usable(EntryAt(other, os[j])) <==> j == i || Usable(EntryAt(cut, os[j]))
  {
    UsableByte(mem, os[j]);
    UsableByte(cut, os[j]);
    UsableByte(other, os[j]);
  }

  lemma CpuLists(mem: Memory, cut: Memory, other: Memory, os: seq<nat>, i: nat, total: nat)
    requires i < |os| && Compared(mem, cut, other, os, os[i] + 4, total) && At(mem, os[i]) == 0
    ensures |Cpus(EntriesAt(other, os))| == |Cpus(EntriesAt(cut, os))| + 1
    ensures |Cpus(EntriesAt(cut, os))| <= |Cpus(EntriesAt(mem, os)[..i])|
  {
    forall j | 0 <= j < |os|
      ensures Usable(EntryAt(cut, os[j])) ==> j < i && Usable(EntryAt(mem, os[j]))
      ensures Usable(EntryAt(other, os[j])) <==> j == i || Usable(EntryAt(cut, os[j]))
    {
      UsableElsewhere(mem, cut, other, os, i, j, total);
    }
    FewerCpus(EntriesAt(cut, os), EntriesAt(mem, os), i);
    OneMoreCpu(EntriesAt(cut, os), EntriesAt(other, os), i);
  }

  lemma CountsDiffer(info: MadtInfo, h: nat, es: seq<Entry>, es': seq<Entry>)
    requires |Cpus(es)| < MAX_CPUS && |Cpus(es')| == |Cpus(es)| + 1
    ensures !(Reports(info, h, es) && Reports(info, h, es'))
  {
  }

  lemma CpuOutside(mem: Memory, os: seq<nat>, i: nat, total: nat, info: MadtInfo, h: nat)
    returns (cut: Memory, other: Memory)
    requires total == TableLength(mem) && os == Offsets(mem, HEADER, total) && i < |os| && total >= HEADER
    requires At(mem, os[i]) == 0 && os[i] + 5 > total && |Cpus(EntriesAt(mem, os)[..i])| < MAX_CPUS
    ensures SameTable(mem, cut) && SameTable(mem, other)
    ensures !(Reports(info, h, EntriesAt(cut, os)) && Reports(info, h, EntriesAt(other, os)))
  {
    cut, other := Compare(mem, os[i] + 4);
    CpuLists(mem, cut, other, os, i, total);
    CountsDiffer(info, h, EntriesAt(cut, os), EntriesAt(other, os));
  }

  lemma GsiReported(info: MadtInfo, h: nat, es: seq<Entry>, i: nat, k: nat)
    requires Reports(info, h, es) && i < |es| && es[i].IoApic? && k == |IoApics(es[..i])| < MAX_IO_APICS
    ensures k < |info.ioGsis| && info.ioGsis[k] == es[i].gsi
  {
    IoApicAt(es, i);
    assert Gsis(IoApics(es))[k] == es[i].gsi;
  }

  lemma GsisDiffer(info: MadtInfo, h: nat, es: seq<Entry>, es': seq<Entry>, i: nat)
    requires |es| == |es'| && i < |es| && es[i].IoApic? && es'[i].IoApic? && es[i].gsi != es'[i].gsi
    requires |IoApics(es[..i])| == |IoApics(es'[..i])| < MAX_IO_APICS
    ensures !(Reports(info, h, es) && Reports(info, h, es'))
  {
    if Reports(info, h, es) && Reports(info, h, es') {
      GsiReported(info, h, es, i, |IoApics(es[..i])|);
      GsiReported(info, h, es', i, |IoApics(es[..i])|);
      assert false;
    }
  }

  /** The last byte of an entry's fields differs, so the field does. */
  lemma FieldDiffers(cut: Memory, other: Memory, at: nat)
    requires At(cut, at + 11) != At(other, at + 11) && At(cut, at) == At(other, at)
    ensures At(cut, at) == 1 ==> EntryAt(cut, at).gsi != EntryAt(other, at).gsi
    ensures At(cut, at) == 5 ==> EntryAt(cut, at).addr64 != EntryAt(other, at).addr64
  {
    LastByteMatters(cut, other, at + 8, 4);
    LastByteMatters(cut, other, at + 4, 8);
  }

  lemma SamePrefixCount(mem: Memory, mem': Memory, os: seq<nat>, i: nat, total: nat)
    requires AgreeBelow(mem, mem', total) && i <= |os| && forall j :: 0 <= j < |os| ==> os[j] + 2 <= total
    ensures |IoApics(EntriesAt(mem', os)[..i])| == |IoApics(EntriesAt(mem, os)[..i])|
  {
    Kinds(mem, mem', os, total);
    SameIoCount(EntriesAt(mem, os)[..i], EntriesAt(mem', os)[..i]);
  }

  lemma GsiOutside(mem: Memory, os: seq<nat>, i: nat, total: nat, info: MadtInfo, h: nat)
    returns (cut: Memory, other: Memory)
    requires total == TableLength(mem) && os == Offsets(mem, HEADER, total) && i < |os| && total >= HEADER
    requires At(mem, os[i]) == 1 && os[i] + 12 > total && |IoApics(EntriesAt(mem, os)[..i])| < MAX_IO_APICS
    ensures SameTable(mem, cut) && SameTable(mem, other)
    ensures !(Reports(info, h, EntriesAt(cut, os)) && Reports(info, h, EntriesAt(other, os)))
  {
    cut, other := Compare(mem, os[i] + 11);
    SamePrefixCount(mem, cut, os, i, total);
    SamePrefixCount(mem, other, os, i, total);
    FieldDiffers(cut, other, os[i]);
    GsisDiffer(info, h, EntriesAt(cut, os), EntriesAt(other, os), i);
  }

  lemma AddressOutside(mem: Memory, os: seq<nat>, l: nat, total: nat, info: MadtInfo, h: nat)
    returns (cut: Memory, other: Memory)
    requires total == TableLength(mem) && os == Offsets(mem, HEADER, total) && l < |os| && total >= HEADER
    requires At(mem, os[l]) == 5 && os[l] + 12 > total
    requires forall j :: l < j < |os| ==> !EntriesAt(mem, os)[j].AddressOverride?
    ensures SameTable(mem, cut) && SameTable(mem, other)
    ensures !(Reports(info, h, EntriesAt(cut, os)) && Reports(info, h, EntriesAt(other, os)))
  {
    cut, other := Compare(mem, os[l] + 11);
    Kinds(mem, cut, os, total);
    Kinds(mem, other, os, total);
    FieldDiffers(cut, other, os[l]);
    AddressIsLast(h, EntriesAt(cut, os), l);
    AddressIsLast(h, EntriesAt(other, os), l);
  }

  lemma ReportsApart(mem: Memory, os: seq<nat>, i: nat, total: nat, info: MadtInfo, h: nat)
    returns (cut: Memory, other: Memory)
    requires total == TableLength(mem) && os == Offsets(mem, HEADER, total) && i < |os|
    requires !EntryInside(mem, os, i, total)
    ensures SameTable(mem, cut) && SameTable(mem, other)
    ensures !(Reports(info, h, EntriesAt(cut, os)) && Reports(info, h, EntriesAt(other, os)))
  {
    OffsetsSpread(mem, HEADER, total);
    if At(mem, os[i]) == 0 {
      cut, other := CpuOutside(mem, os, i, total, info, h);
    } else if At(mem, os[i]) == 1 {
      cut, other := GsiOutside(mem, os, i, total, info, h);
    } else {
      var l := LastOverride(EntriesAt(mem, os), i);
      cut, other := AddressOutside(mem, os, l, total, info, h);
    }
  }

  /** If something reported lies behind the table, bytes there change the report. */
  lemma OutsideChanges(mem: Memory, os: seq<nat>, i: nat, total: nat, info: MadtInfo) returns (mem': Memory)
    requires total == TableLength(mem) && os == Offsets(mem, HEADER, total) && i < |os|
    requires !EntryInside(mem, os, i, total)
    ensures SameTable(mem, mem') && !Reports(info, HeaderAddress(mem'), TableEntries(mem'))
  {
    var cut, other := ReportsApart(mem, os, i, total, info, HeaderAddress(mem));
    SameWalk(mem, cut, os);
    SameWalk(mem, other, os);
    mem' := Pick(mem, cut, other, EntriesAt(cut, os), EntriesAt(other, os), info);
  }

  /**
   The report is the table's own, whatever lies behind it, if and only if nothing that is reported
   lies behind it.
   */
  lemma ReportOnly(mem: Memory, info: MadtInfo)
    requires Reports(info, HeaderAddress(mem), TableEntries(mem))
    ensures ReportInside(mem) <==>
              forall mem' :: SameTable(mem, mem') ==> Reports(info, HeaderAddress(mem'), TableEntries(mem'))
  {
    if ReportInside(mem) {
      forall mem' | SameTable(mem, mem')
        ensures Reports(info, HeaderAddress(mem'), TableEntries(mem'))
      {
        InsideSame(mem, mem', info);
      }
    } else {
      var total := TableLength(mem);
      var os := Offsets(mem, HEADER, total);
      var i :| 0 <= i < |os| && !EntryInside(mem, os, i, total);
      var mem' := OutsideChanges(mem, os, i, total, info);
    }
  }
}
