/**
  The MBR read back from the output: its slots list the partitions that have an
  entry, in their order, and nothing else.
 */
module MbrRead {
  import opened Bytes
  import opened Model
  import opened HdLayout
  import opened HdOverlap
  import opened HdShape
  import opened Records
  import opened HdWriter
  import opened HdContent
  import opened EbrChain
  import opened GptRead
  import opened HdGenerate

  const MBR_TABLE: nat := 446

  // Slot number i of the table in the first sector.
  function SlotAt(disk: seq<byte>, i: nat): Slot
    requires i < 4 && SECTOR <= |disk|
  {
    ReadSlot(disk[MBR_TABLE + 16 * i..MBR_TABLE + 16 * i + 16])
  }

  // The partitions that have an entry: those of the table, without the logical ones
  // and, in a hybrid table, without those that have no type for the MBR.
  function Entered(table: TableType, parts: seq<Part>): seq<Part> {
    if parts == [] then []
    else
      var p := parts[0];
      (if p.inTable && !p.logical && !(table.Hybrid? && p.partitionType == 0) then [p] else []) + Entered(table, parts[1..])
  }

  lemma NothingEntered(table: TableType)
    ensures Entered(table, []) == []
  {
  }

  lemma EnteredCons(table: TableType, parts: seq<Part>)
    requires parts != []
    ensures Entered(table, parts) == (if HasEntry(table, parts[0]) then [parts[0]] else []) + Entered(table, parts[1..])
  {
  }

  lemma {:induction false} EnteredCount(table: TableType, parts: seq<Part>)
    ensures |MbrEntries(table, parts)| == |Entered(table, parts)|
    decreases |parts|
  {
    hide HasEntry, Entered, MbrEntryOf;
    if parts == [] {
      NothingEntered(table);
    } else {
      EnteredCons(table, parts);
      EnteredCount(table, parts[1..]);
    }
  }

  // Entry number i is that of partition number i of those that have one.
  lemma {:induction false} EntryIsEntered(table: TableType, parts: seq<Part>, i: nat)
    requires i < |Entered(table, parts)|
    ensures i < |MbrEntries(table, parts)|
    ensures var p := Entered(table, parts)[i];
            p in parts && HasEntry(table, p) && MbrEntries(table, parts)[i] == MbrEntryOf(p)
    decreases |parts|
  {
    hide HasEntry, Entered, MbrEntryOf;
    if parts == [] {
      NothingEntered(table);
    }
    EnteredCons(table, parts);
    var rest := parts[1..];
    if !HasEntry(table, parts[0]) {
      EntryIsEntered(table, rest, i);
    } else if i > 0 {
      EntryIsEntered(table, rest, i - 1);
    }
  }

  // The bytes that are written, as a reader sees them.
  lemma SlotsOfMbr(disk: seq<byte>, signature: nat, entries: seq<MbrEntry>, i: nat)
    requires i < 4 && SECTOR <= |disk| && disk[440..SECTOR] == MbrBytes(signature, entries)
    ensures SlotAt(disk, i) == if i < |entries| then SlotOf(entries[i]) else EMPTY
    ensures Num(disk[440..444]) == U32(signature) && disk[444..446] == [0, 0] && disk[510..SECTOR] == [0x55, 0xaa]
  {
    hide Le, TableBytes, EntryBytes, ReadSlot, SlotOf, U32, Num;
    var table := TableBytes(entries, 4);
    var b := MbrBytes(signature, entries);
    assert b[..4] == Le(U32(signature), 4) && b[4..6] == [0, 0] && b[6..70] == table && b[70..72] == [0x55, 0xaa];
    Num32(signature);
    SubSlice(disk, 440, SECTOR, 0, 4);
    SubSlice(disk, 440, SECTOR, 4, 6);
    SubSlice(disk, 440, SECTOR, 70, 72);
    SubSlice(disk, 440, SECTOR, 6 + 16 * i, 22 + 16 * i);
    SubSlice(b, 6, 70, 16 * i, 16 * i + 16);
    SlotOfTable(entries, 4, i);
    if i < |entries| {
      SlotOfEntry(entries[i]);
    } else {
      SlotOfNothing();
    }
  }

  // The MBR is in the output.
  lemma MbrStays(options: Config, children: Children, parts: seq<Part>, l: Layout)
    requires Accepted(options, children, parts, l) && !options.table.NoTable?
    ensures SECTOR <= |Output(children, l)|
    ensures Output(children, l)[440..SECTOR]
         == MbrBytes(l.cfg.signature.Value(), MbrTable(l))
  {
    hide Setup, Output, GptWrites, MbrBytes, MbrTable;
    ListedWhenSetup(options, children, parts);
    var v := |TableWrites(l)| - 1;
    assert TableWrites(l)[v] == MbrWrite(l);
    TableStays(options, children, parts, l, v);
  }

  // A slot for partition p: its type, its sectors as numbers and as cylinder,
  // head and sector, and whether it can be booted.
  ghost predicate Locates(s: Slot, p: Part) {
    && s.partitionType == p.partitionType
    && s.active == (if p.flags.bootable then 0x80 else 0x00)
    && SECTOR * s.start == p.offset && s.sectors == p.size / SECTOR
    && (!p.kind.Extended? ==> SECTOR * s.sectors == p.size)
    && Addresses(s.first, s.start) && Addresses(s.last, s.start + s.sectors - 1)
  }

  // A slot over sectors with 32-bit numbers
  lemma SlotNumbers(e: MbrEntry)
    requires 0 <= e.start && 0 <= e.sectors && e.base == 0
    requires e.start < 0x1_0000_0000 && e.sectors < 0x1_0000_0000 && e.start + e.sectors <= 0x1_0000_0000
    ensures var s := SlotOf(e);
            && s.partitionType == e.partitionType && s.start == e.start && s.sectors == e.sectors
            && s.active == (if e.bootable then 0x80 else 0x00)
            && Addresses(s.first, s.start) && Addresses(s.last, s.start + s.sectors - 1)
  {
    hide LbaToChs, ChsToLba;
    ChsAddresses(FirstSector(e));
    ChsAddresses(LastSector(e));
    assert e.start + e.sectors > 0 ==> LastSector(e) == e.start + e.sectors - 1;
  }

  lemma EndsInImage(options: Config, children: Children, parts: seq<Part>, l: Layout, i: nat)
    requires Accepted(options, children, parts, l) && i < |l.parts|
    ensures l.parts[i].End() <= l.imageSize
  {
    hide Setup, OverlapSafe;
    SetupIsSafe(options, children, parts);
  }

  lemma EntryLocates(options: Config, children: Children, parts: seq<Part>, l: Layout, p: Part)
    requires Accepted(options, children, parts, l) && !options.table.NoTable?
    requires Aligned(Normalise(options), parts) && l.imageSize < 0x200_0000_0000
    requires p in l.parts && p.inTable
    ensures Locates(SlotOf(MbrEntryOf(p)), p)
  {
    hide Accepted, Aligned, OverlapSafe, Setup, SlotOf, Addresses;
    var i :| 0 <= i < |l.parts| && l.parts[i] == p;
    WholeSectors(options, children, parts, l, i);
    EndsInImage(options, children, parts, l, i);
    SlotNumbers(MbrEntryOf(p));
  }

  // The entry over the GPT of a hybrid table: from sector 1 to the end of the array.
  ghost predicate Covers(s: Slot, gptLocation: nat) {
    && s.partitionType == 0xee && s.active == 0
    && s.start == 1 && s.start + s.sectors == (gptLocation + GPT_ARRAY_SIZE) / SECTOR
    && Addresses(s.first, 1) && Addresses(s.last, s.sectors)
  }

  // What is in slot i, for the partitions that have an entry.
  ghost predicate SlotIs(l: Layout, s: Slot, listed: seq<Part>, i: nat) {
    if i < |listed| then Locates(s, listed[i])
    else if l.cfg.table.Hybrid? && i == |listed| then Covers(s, l.cfg.gptLocation)
    else s == EMPTY
  }

  // The same for any disk with the MBR of a layout.
  lemma SlotOfParts(disk: seq<byte>, l: Layout, i: nat)
    requires i < 4 && SECTOR <= |disk| && disk[440..SECTOR] == MbrBytes(l.cfg.signature.Value(), MbrTable(l))
    requires l.cfg.table.HasMbr() && |MbrEntries(l.cfg.table, l.parts)| <= (if l.cfg.table.Mbr? then 4 else 3)
    requires i < |Entered(l.cfg.table, l.parts)| ==>
               var p := Entered(l.cfg.table, l.parts)[i]; Locates(SlotOf(MbrEntryOf(p)), p)
    requires l.cfg.table.Hybrid? ==> l.cfg.gptLocation + GPT_ARRAY_SIZE < 0x200_0000_0000
    ensures SlotIs(l, SlotAt(disk, i), Entered(l.cfg.table, l.parts), i)
  {
    hide Entered, MbrEntries, SlotAt, SlotOf, Locates, HasEntry, MbrBytes, Addresses, MbrEntryOf;
    var listed := Entered(l.cfg.table, l.parts);
    EnteredCount(l.cfg.table, l.parts);
    SlotsOfMbr(disk, l.cfg.signature.Value(), MbrTable(l), i);
    if i < |listed| {
      EntryIsEntered(l.cfg.table, l.parts, i);
    } else if l.cfg.table.Hybrid? {
      SlotNumbers(CoverEntry(l.cfg.gptLocation));
    }
  }

  lemma EntryIsInTable(table: TableType, p: Part)
    requires HasEntry(table, p)
    ensures p.inTable
  {
  }

  lemma ArrayInImage(options: Config, children: Children, parts: seq<Part>, l: Layout)
    requires Accepted(options, children, parts, l) && options.table.HasGpt()
    ensures l.cfg.gptLocation + GPT_ARRAY_SIZE <= l.imageSize
  {
    hide Setup;
    ListedWhenSetup(options, children, parts);
    AreasInPlace(options, children, parts, l);
    EndsInImage(options, children, parts, l, AreaIndex(l, 2));
  }

  lemma Counted(options: Config, children: Children, parts: seq<Part>, l: Layout)
    requires Accepted(options, children, parts, l) && options.table.HasMbr()
    ensures l.cfg.table == options.table && l.cfg.signature == options.signature
    ensures |MbrEntries(options.table, l.parts)| <= (if options.table.Mbr? then 4 else 3)
    ensures options.table.Hybrid? ==> l.cfg.gptLocation + GPT_ARRAY_SIZE <= l.imageSize
  {
    hide Setup;
    ListedWhenSetup(options, children, parts);
    MbrHasRoom(options, children, parts);
    CountIsLength(options.table, l.parts);
    if options.table.Hybrid? {
      ArrayInImage(options, children, parts, l);
    }
  }

  lemma OneSlot(options: Config, children: Children, parts: seq<Part>, l: Layout, i: nat)
    requires Accepted(options, children, parts, l) && options.table.HasMbr()
    requires Aligned(Normalise(options), parts) && l.imageSize < 0x200_0000_0000
    requires i < 4 && SECTOR <= |Output(children, l)|
    ensures SlotIs(l, SlotAt(Output(children, l), i), Entered(options.table, l.parts), i)
  {
    hide Accepted, Output, Entered, MbrEntries, SlotAt, SlotIs, Locates, Aligned, Setup, CountEntries, SlotOf;
    hide HasEntry, MbrTable, MbrBytes, MbrEntryOf;
    MbrStays(options, children, parts, l);
    Counted(options, children, parts, l);
    var listed := Entered(options.table, l.parts);
    if i < |listed| {
      EntryIsEntered(options.table, l.parts, i);
      EntryIsInTable(options.table, listed[i]);
      EntryLocates(options, children, parts, l, listed[i]);
    }
    SlotOfParts(Output(children, l), l, i);
  }

  // A reader of the MBR finds the signature of the disk, all partitions that
  // have an entry, at most four, and behind them only the entry that covers the
  // GPT, if there is one.
  lemma MbrReadBack(options: Config, children: Children, parts: seq<Part>, l: Layout)
    requires Accepted(options, children, parts, l) && options.table.HasMbr()
    requires Aligned(Normalise(options), parts) && l.imageSize < 0x200_0000_0000
    ensures var o, listed := Output(children, l), Entered(options.table, l.parts);
            && SECTOR <= |o| && o[444..446] == [0, 0] && o[510..SECTOR] == [0x55, 0xaa]
            && Num(o[440..444]) == U32(options.signature.Value())
            && |listed| <= (if options.table.Mbr? then 4 else 3)
            && forall i | 0 <= i < 4 :: SlotIs(l, SlotAt(o, i), listed, i)
  {
    hide Accepted, Output, Entered, MbrEntries, SlotAt, SlotIs, Aligned, Setup, MbrBytes, MbrTable, U32, Num;
    MbrStays(options, children, parts, l);
    EnteredCount(options.table, l.parts);
    Counted(options, children, parts, l);
    SlotsOfMbr(Output(children, l), l.cfg.signature.Value(), MbrTable(l), 0);
    forall i | 0 <= i < 4
      ensures SlotIs(l, SlotAt(Output(children, l), i), Entered(options.table, l.parts), i)
    {
      OneSlot(options, children, parts, l, i);
    }
  }

  // From sector 1 to the end of the image
  ghost predicate Protects(s: Slot, imageSize: nat) {
    && s.partitionType == 0xee && s.active == 0
    && s.start == 1 && s.start + s.sectors == imageSize / SECTOR
    && Addresses(s.first, 1) && Addresses(s.last, s.sectors)
  }

  lemma GptTableOf(options: Config, children: Children, parts: seq<Part>, l: Layout)
    requires Accepted(options, children, parts, l) && options.table.Gpt?
    ensures l.cfg.table.Gpt? && l.imageSize >= 2 * SECTOR && l.cfg.signature == options.signature
  {
    hide Setup, OverlapSafe;
    ListedWhenSetup(options, children, parts);
    BackupInPlace(options, children, parts, l);
  }

  // With a GPT alone, the one entry protects the whole image.
  lemma ProtectiveReadBack(options: Config, children: Children, parts: seq<Part>, l: Layout)
    requires Accepted(options, children, parts, l) && options.table.Gpt? && l.imageSize < 0x200_0000_0000
    ensures var o := Output(children, l);
            && SECTOR <= |o| && o[444..446] == [0, 0] && o[510..SECTOR] == [0x55, 0xaa]
            && Num(o[440..444]) == U32(options.signature.Value())
            && Protects(SlotAt(o, 0), l.imageSize)
            && forall i | 1 <= i < 4 :: SlotAt(o, i) == EMPTY
  {
    hide Accepted, Output, SlotAt, SlotOf, Setup, U32, MbrBytes, Addresses, Num;
    GptTableOf(options, children, parts, l);
    MbrStays(options, children, parts, l);
    var o, table, signature := Output(children, l), MbrTable(l), l.cfg.signature.Value();
    SmallU64(l.imageSize - SECTOR);
    SlotNumbers(table[0]);
    SlotsOfMbr(o, signature, table, 0);
    SlotsOfMbr(o, signature, table, 1);
    SlotsOfMbr(o, signature, table, 2);
    SlotsOfMbr(o, signature, table, 3);
  }

  lemma ExtendedIsEntered(cfg: Config, first: Part, r: Part)
    requires SameOptions(cfg, ExtendedPartition(cfg, first), r) && cfg.table == Mbr
    ensures HasEntry(Mbr, r) && r.partitionType == EXTENDED_TYPE
  {
  }

  lemma ExtendedHasEntry(options: Config, children: Children, parts: seq<Part>, l: Layout, e: nat)
    requires Accepted(options, children, parts, l) && options.table == Mbr && HasChain(l.parts, e)
    ensures e < |l.parts| && HasEntry(Mbr, l.parts[e]) && l.parts[e].partitionType == EXTENDED_TYPE
  {
    hide Setup, Listed, Sound, Predicted, Plain, Divided, ExtendedPartition, SameOptions, HasChain;
    ListedWhenSetup(options, children, parts);
    SetupIsComplete(options, children, parts);
    var todo := Listed(l.cfg, parts).value;
    var k := ListedShape(l.cfg, parts);
    ChainIsDivided(l.cfg, todo, l.parts, k, e);
    DividedParts(l.cfg, todo, k);
    ChainFacts(l.parts, e);
    assert SameOptions(l.cfg, todo[e], l.parts[e]);
    ExtendedIsEntered(l.cfg, todo[e + 1], l.parts[e]);
  }

  lemma {:induction false} EnteredAt(table: TableType, parts: seq<Part>, e: nat) returns (i: nat)
    requires e < |parts| && HasEntry(table, parts[e])
    ensures i < |Entered(table, parts)| && Entered(table, parts)[i] == parts[e]
    decreases e
  {
    if e == 0 {
      i := 0;
    } else {
      i := EnteredAt(table, parts[1..], e - 1);
      i := if HasEntry(table, parts[0]) then i + 1 else i;
    }
  }

  // Reading on from the entry of `[Extended]`: the MBR leads to the chain of
  // boot records, if the chain works at all.
  lemma MbrLeadsToChain(options: Config, children: Children, parts: seq<Part>, l: Layout, e: nat) returns (i: nat)
    requires Chained(options, children, parts, l, e)
    requires ChainWorks(children, l, e)
    ensures SECTOR <= |Output(children, l)| && i < 4
    ensures var o := Output(children, l);
            var slot := SlotAt(o, i);
            && slot.partitionType == 0x0f
            && forall fuel: nat | fuel >= |Logicals(l.parts, 0)| ::
                 Walk(o, SECTOR * slot.start, SECTOR * slot.start, fuel) == Logicals(l.parts, 0)
  {
    hide Output, Accepted, Aligned, Entered, SlotAt, Walk, Logicals, InOrder;
    MbrReadBack(options, children, parts, l);
    ExtendedHasEntry(options, children, parts, l, e);
    i := EnteredAt(Mbr, l.parts, e);
    assert Locates(SlotAt(Output(children, l), i), l.parts[e]);
  }
}
