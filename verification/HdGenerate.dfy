/**
  `hdimage_generate` of `image-hd.c` and the functions it calls, on the list of
  partition objects that `hdimage_setup` leaves behind. The methods are proved
  to write what HdWriter says, or to fail.
 */
module HdGenerate {
  import opened Bytes
  import opened Files
  import opened Arith
  import opened Model
  import opened HdLayout
  import opened HdOverlap
  import opened HdShape
  import opened HdSetup
  import opened Records
  import opened HdWriter
  import opened HdContent
  import opened GptEntries
  import Crc32

  // The image object has the layout l.
  ghost predicate Matches(hd: HdImage, l: Layout)
    reads hd, hd.partitions
  {
    && Values(hd.partitions) == l.parts && hd.Cfg() == l.cfg
    && hd.imageSize == l.imageSize && hd.fileSize == l.fileSize
    && hd.PointsToExtended()
  }

  // ------------------------------------------------- slots of a table

  // The bytes of a table of equal slots.
  function Flatten(slots: seq<seq<byte>>): seq<byte> {
    if slots == [] then [] else slots[0] + Flatten(slots[1..])
  }

  lemma {:induction false} FlattenTable(entries: seq<MbrEntry>, slots: seq<seq<byte>>)
    requires |entries| <= |slots|
    requires forall j | 0 <= j < |slots| :: slots[j] == if j < |entries| then EntryBytes(entries[j]) else Fill(16, 0)
    ensures Flatten(slots) == TableBytes(entries, |slots|)
    decreases |slots|
  {
    hide EntryBytes;
    if slots == [] {
    } else {
      var rest := if entries == [] then [] else entries[1..];
      FlattenTable(rest, slots[1..]);
    }
  }

  lemma MbrEntriesCons(table: TableType, p: Part, rest: seq<Part>)
    ensures MbrEntries(table, [p] + rest) == (if HasEntry(table, p) then [MbrEntryOf(p)] else []) + MbrEntries(table, rest)
  {
    hide HasEntry, MbrEntryOf;
    assert ([p] + rest)[1..] == rest;
  }

  lemma NoMbrEntries(table: TableType)
    ensures MbrEntries(table, []) == []
  {
  }

  lemma {:induction false} MbrEntriesConcat(table: TableType, a: seq<Part>, b: seq<Part>)
    ensures MbrEntries(table, a + b) == MbrEntries(table, a) + MbrEntries(table, b)
    decreases |a|
  {
    hide MbrEntries, HasEntry, MbrEntryOf;
    if a == [] {
      assert a + b == b;
      NoMbrEntries(table);
    } else {
      var rest := a[1..];
      assert a == [a[0]] + rest && a + b == [a[0]] + (rest + b);
      MbrEntriesCons(table, a[0], rest);
      MbrEntriesCons(table, a[0], rest + b);
      MbrEntriesConcat(table, rest, b);
    }
  }

  lemma {:induction false} CountIsLength(table: TableType, parts: seq<Part>)
    ensures |MbrEntries(table, parts)| == CountEntries(table, parts)
    decreases |parts|
  {
    if parts == [] {
    } else {
      CountIsLength(table, parts[1..]);
    }
  }

  // The entry of the next partition, and that there is a slot for it.
  lemma NextEntry(table: TableType, parts: seq<Part>, n: nat)
    requires n < |parts|
    ensures var p := parts[n];
            MbrEntries(table, parts[..n + 1]) == MbrEntries(table, parts[..n])
              + if HasEntry(table, p) then [MbrEntryOf(p)] else []
    ensures |MbrEntries(table, parts[..n + 1])| <= CountEntries(table, parts)
  {
    assert parts[..n + 1] == parts[..n] + [parts[n]];
    MbrEntriesConcat(table, parts[..n], [parts[n]]);
    CountIsLength(table, parts[..n + 1]);
    CountEntriesConcat(table, parts[..n + 1], parts[n + 1..]);
    assert parts == parts[..n + 1] + parts[n + 1..];
  }

  // ------------------------------------------------- the MBR

  // The entries of `hdimage_insert_mbr`, with the one that covers the GPT of a hybrid table.
  function WithCover(table: TableType, gptLocation: nat, parts: seq<Part>): seq<MbrEntry> {
    MbrEntries(table, parts)
    + if table.Hybrid? then [CoverEntry(gptLocation)] else []
  }

  lemma NothingYet(table: TableType, parts: seq<Part>)
    ensures MbrEntries(table, parts[..0]) == [] && CountEntries(table, parts) >= 0
  {
  }

  // The loop body of `hdimage_insert_mbr`
  method EntryOf(part: Partition, table: TableType) returns (entry: Option<MbrEntry>)
    ensures var p := part.Value();
            entry == if HasEntry(table, p) then Some(MbrEntryOf(p)) else None
  {
    if !part.inTable || part.logical {
      return None;
    }
    if table.Hybrid? && part.partitionType == 0 {
      return None;
    }
    entry := Some(MbrEntry(part.flags.bootable, part.partitionType, part.offset / SECTOR, part.size / SECTOR, 0));
  }

  // The part of `hdimage_insert_mbr` that fills the four slots of the table.
  method FillTable(table: TableType, gptLocation: nat, list: seq<Partition>) returns (bytes: seq<byte>)
    requires CountEntries(table, Values(list)) + (if table.Hybrid? then 1 else 0) <= 4
    ensures bytes == TableBytes(WithCover(table, gptLocation, Values(list)), 4)
  {
    hide Partition.Value, EntryBytes, CountEntries, MbrEntries, MbrEntryOf, Flatten, TableBytes, Fill;
    var slots := new seq<byte>[4](_ => Fill(16, 0));
    var i := 0;
    ghost var parts := Values(list);
    NothingYet(table, parts);
    for n := 0 to |list|
      invariant i == |MbrEntries(table, parts[..n])| <= CountEntries(table, parts)
      invariant forall j | 0 <= j < 4 :: slots[j] == if j < i then EntryBytes(MbrEntries(table, parts[..n])[j]) else Fill(16, 0)
    {
      NextEntry(table, parts, n);
      var entry := EntryOf(list[n], table);
      if entry.Some? {
        slots[i] := EntryBytes(entry.value);
        i := i + 1;
      }
    }
    assert parts[..|list|] == parts;
    if table.Hybrid? {
      slots[i] := EntryBytes(MbrEntry(false, 0xee, 1, gptLocation / SECTOR + GPT_SECTORS - 2, 0));
    }
    FlattenTable(WithCover(table, gptLocation, parts), slots[..]);
    bytes := Flatten(slots[..]);
  }

  // `hdimage_insert_mbr`
  method InsertMbr(hd: HdImage, out: OutFile, list: seq<Partition>) returns (ok: bool)
    requires CountEntries(hd.options.table, Values(list)) + (if hd.options.table.Hybrid? then 1 else 0) <= 4
    modifies out
    ensures out.reliable ==> ok && out.lost == old(out.lost)
    ensures out.created && (old(out.lost) ==> out.lost)
    ensures ok && !out.lost ==> var entries := WithCover(hd.options.table, hd.gptLocation, Values(list));
                   out.data == Overwrite(old(out.data), 440,
                     MbrBytes(hd.options.signature.Value(), entries))
  {
    hide Partition.Value, WithCover, Overwrite, CountEntries;
    var entries := FillTable(hd.options.table, hd.gptLocation, list);
    var signature := hd.options.signature.Value();
    ok := out.InsertData(Le(U32(signature), 4) + Fill(2, 0) + entries + [0x55, 0xaa], 440);
  }

  lemma ProtectiveEntry(gptLocation: nat, p: Part)
    requires p.inTable && !p.logical && p.offset == SECTOR && !p.flags.bootable
    ensures WithCover(Gpt, gptLocation, [p]) == [MbrEntry(false, p.partitionType, 1, p.size / SECTOR, 0)]
    ensures CountEntries(Gpt, [p]) == 1
  {
    assert [p][1..] == [];
    assert MbrEntries(Gpt, [p]) == [MbrEntry(false, p.partitionType, 1, p.size / SECTOR, 0)] + MbrEntries(Gpt, []);
    assert CountEntries(Gpt, [p]) == 1 + CountEntries(Gpt, []);
  }

  // `hdimage_insert_protective_mbr`
  method InsertProtectiveMbr(hd: HdImage, out: OutFile) returns (ok: bool)
    requires hd.options.table.Gpt?
    modifies out
    ensures out.reliable ==> ok && out.lost == old(out.lost)
    ensures out.created && (old(out.lost) ==> out.lost)
    ensures ok && !out.lost ==> out.data == Overwrite(old(out.data), 440,
                     MbrBytes(hd.options.signature.Value(),
                              [MbrEntry(false, 0xee, 1, U64(hd.imageSize - SECTOR) / SECTOR, 0)]))
  {
    hide EntryBytes, MbrBytes, Overwrite;
    var p := FakePartition("", Configured, SECTOR, U64(hd.imageSize - SECTOR)).(inTable := true, partitionType := 0xee);
    var mbr := new Partition(p);
    assert Values([mbr]) == [p];
    ProtectiveEntry(hd.gptLocation, p);
    ok := InsertMbr(hd, out, [mbr]);
  }

  // ------------------------------------------------- the extended boot records

  lemma LogicalOfValue(part: Partition)
    ensures part.Value().logical == part.logical
  {
  }

  // The loop of `hdimage_insert_ebr`: the next logical partition
  method FindNext(list: seq<Partition>, n: nat) returns (next: Option<nat>)
    requires n < |list|
    ensures next == NextLogical(Values(list), n)
  {
    hide Partition.Value;
    ghost var parts := Values(list);
    var p := n + 1;
    while p < |list|
      invariant n < p <= |list|
      invariant NextLogical(parts, n) == NextLogical(parts, p - 1)
    {
      LogicalOfValue(list[p]);
      if list[p].logical {
        return Some(p);
      }
      p := p + 1;
    }
    return None;
  }

  // The part of `hdimage_insert_ebr` that fills the boot record.
  method FillEbr(first: MbrEntry, second: Option<MbrEntry>) returns (ebr: seq<byte>)
    ensures ebr == EbrBytes([first] + if second.Some? then [second.value] else [])
  {
    hide EntryBytes;
    var slots := new seq<byte>[4](_ => Fill(16, 0));
    slots[0] := EntryBytes(first);
    if second.Some? {
      slots[1] := EntryBytes(second.value);
    }
    FlattenTable([first] + if second.Some? then [second.value] else [], slots[..]);
    ebr := Flatten(slots[..]) + [0x55, 0xaa];
  }

  method EbrPlace(part: Partition, align: nat) returns (r: nat)
    ensures r == U64(part.Value().offset - align + 446)
  {
    r := U64(part.offset - align + 446);
  }

  // The entry of the logical partition itself
  method EbrFirst(part: Partition, align: nat) returns (e: MbrEntry)
    ensures e == LogicalEntry(align, part.Value())
  {
    e := MbrEntry(false, part.partitionType, align / SECTOR, part.size / SECTOR, (part.offset - align) / SECTOR);
  }

  // The entry of the next boot record
  method EbrSecond(part: Partition, align: nat, ext: nat) returns (e: MbrEntry)
    ensures e == LinkEntry(align, ext, part.Value())
  {
    e := MbrEntry(false, EXTENDED_TYPE, (part.offset - align - ext) / SECTOR, (part.size + align) / SECTOR, ext / SECTOR);
  }

  // `hdimage_insert_ebr` for logical partition n
  method InsertEbr(hd: HdImage, out: OutFile, n: nat) returns (ok: bool)
    requires n < |hd.partitions| && hd.extended != null
    requires ExtendedOffset(Values(hd.partitions)) == hd.extended.offset
    modifies out
    ensures out.reliable ==> ok && out.lost == old(out.lost)
    ensures out.created && (old(out.lost) ==> out.lost)
    ensures ok && !out.lost ==> var w := EbrWrite(hd.align, Values(hd.partitions), n);
                   out.data == Overwrite(old(out.data), w.offset, w.data)
  {
    hide Partition.Value, EbrBytes, Overwrite, ExtendedOffset, NextLogical, LogicalEntry, LinkEntry;
    var next := FindNext(hd.partitions, n);
    var first := EbrFirst(hd.partitions[n], hd.align);
    var second := None;
    if next.Some? {
      var e := EbrSecond(hd.partitions[next.value], hd.align, hd.extended.offset);
      second := Some(e);
    }
    var ebr := FillEbr(first, second);
    var ebrOffset := EbrPlace(hd.partitions[n], hd.align);
    ok := out.InsertData(ebr, ebrOffset);
  }

  // ------------------------------------------------- the GPT

  lemma InTableCons(p: Part, rest: seq<Part>)
    ensures InTable([p] + rest) == (if p.inTable then [p] else []) + InTable(rest)
  {
    assert ([p] + rest)[1..] == rest;
  }

  lemma NoneInTable()
    ensures InTable([]) == []
  {
  }

  lemma {:induction false} InTableConcat(a: seq<Part>, b: seq<Part>)
    ensures InTable(a + b) == InTable(a) + InTable(b)
    decreases |a|
  {
    hide InTable;
    if a == [] {
      assert a + b == b;
      NoneInTable();
    } else {
      var rest := a[1..];
      assert a == [a[0]] + rest && a + b == [a[0]] + (rest + b);
      InTableCons(a[0], rest);
      InTableCons(a[0], rest + b);
      InTableConcat(rest, b);
    }
  }

  // The next entry of the array, and that there is a slot for it.
  lemma NextListed(parts: seq<Part>, n: nat)
    requires n < |parts|
    ensures InTable(parts[..n + 1]) == if parts[n].inTable then InTable(parts[..n]) + [parts[n]] else InTable(parts[..n])
    ensures |InTable(parts[..n + 1])| <= |InTable(parts)|
  {
    assert parts[..n + 1] == parts[..n] + [parts[n]];
    InTableConcat(parts[..n], [parts[n]]);
    InTableConcat(parts[..n + 1], parts[n + 1..]);
    assert parts == parts[..n + 1] + parts[n + 1..];
  }

  // Slots with the entries of some partitions, and then empty ones.
  ghost predicate Filled(slots: seq<seq<byte>>, listed: seq<Part>) {
    && |listed| <= |slots|
    && forall j | 0 <= j < |slots| ::
         slots[j] == if j < |listed| then GptEntryBytes(GptEntryOf(listed[j])) else Fill(GPT_ENTRY_SIZE, 0)
  }

  // Writing the first empty slot.
  lemma FillNext(slots: seq<seq<byte>>, listed: seq<Part>, p: Part)
    requires Filled(slots, listed) && |listed| < |slots|
    ensures Filled(slots[|listed| := GptEntryBytes(GptEntryOf(p))], listed + [p])
  {
    hide GptEntryBytes, GptEntryOf;
  }

  lemma FillSum(m: nat, n: nat)
    ensures Fill(m, 0) + Fill(n, 0) == Fill(m + n, 0)
  {
  }

  lemma {:induction false} FlattenEmpty(slots: seq<seq<byte>>)
    requires forall j | 0 <= j < |slots| :: slots[j] == Fill(GPT_ENTRY_SIZE, 0)
    ensures Flatten(slots) == Fill(GPT_ENTRY_SIZE * |slots|, 0)
    decreases |slots|
  {
    if slots == [] {
    } else {
      FlattenEmpty(slots[1..]);
      FillSum(GPT_ENTRY_SIZE, GPT_ENTRY_SIZE * (|slots| - 1));
    }
  }

  // The entries of some partitions.
  function EntriesOf(listed: seq<Part>): seq<byte> {
    if listed == [] then [] else GptEntryBytes(GptEntryOf(listed[0])) + EntriesOf(listed[1..])
  }

  lemma {:induction false} EntriesOfTable(parts: seq<Part>)
    ensures EntriesOf(InTable(parts)) == GptArrayBytes(parts)
    decreases |parts|
  {
    hide GptEntryBytes, GptEntryOf;
    if parts == [] {
    } else {
      EntriesOfTable(parts[1..]);
      if parts[0].inTable {
        assert ([parts[0]] + InTable(parts[1..]))[1..] == InTable(parts[1..]);
      } else {
        assert [] + InTable(parts[1..]) == InTable(parts[1..]);
      }
    }
  }

  lemma {:induction false} FlattenEntries(slots: seq<seq<byte>>, listed: seq<Part>)
    requires Filled(slots, listed)
    ensures Flatten(slots) == EntriesOf(listed) + Fill(GPT_ENTRY_SIZE * (|slots| - |listed|), 0)
    decreases |listed|
  {
    hide GptEntryBytes, GptEntryOf;
    if listed == [] {
      FlattenEmpty(slots);
    } else {
      FlattenEntries(slots[1..], listed[1..]);
      assert slots[0] + (EntriesOf(listed[1..]) + Fill(GPT_ENTRY_SIZE * (|slots| - |listed|), 0))
          == slots[0] + EntriesOf(listed[1..]) + Fill(GPT_ENTRY_SIZE * (|slots| - |listed|), 0);
    }
  }

  lemma FlattenArray(slots: seq<seq<byte>>, parts: seq<Part>)
    requires Filled(slots, InTable(parts))
    ensures Flatten(slots) == GptArrayBytes(parts) + Fill(GPT_ENTRY_SIZE * (|slots| - |InTable(parts)|), 0)
  {
    hide Flatten, GptArrayBytes, InTable, Filled, EntriesOf, GptEntryBytes, GptEntryOf, Fill;
    FlattenEntries(slots, InTable(parts));
    EntriesOfTable(parts);
  }

  lemma FieldsOfValue(part: Partition)
    ensures part.Value().inTable == part.inTable && part.Value().offset == part.offset
  {
  }

  lemma NothingListed(parts: seq<Part>, slots: seq<seq<byte>>)
    requires forall j | 0 <= j < |slots| :: slots[j] == Fill(GPT_ENTRY_SIZE, 0)
    ensures InTable(parts[..0]) == [] && Filled(slots, [])
    ensures parts[0..] == parts
  {
  }

  lemma NoneSmaller(bound: nat)
    ensures SmallestOffset([], bound) == bound
  {
  }

  lemma NextSmallest(parts: seq<Part>, n: nat, bound: nat)
    requires n < |parts|
    ensures SmallestOffset(parts[n..], bound)
         == SmallestOffset(parts[n + 1..], if parts[n].inTable then Min(bound, parts[n].offset) else bound)
  {
    assert parts[n..][1..] == parts[n + 1..];
  }

  // An entry of the array
  method ListedEntry(part: Partition) returns (entry: seq<byte>)
    ensures entry == GptEntryBytes(GptEntryOf(part.Value()))
  {
    hide GptEntryBytes, UuidBytes, U64;
    var flags := (if part.flags.bootable then 0x4 else 0)
               + (if part.flags.readOnly then 0x1000_0000_0000_0000 else 0)
               + (if part.flags.hidden then 0x4000_0000_0000_0000 else 0)
               + (if part.flags.noAutomount then 0x8000_0000_0000_0000 else 0);
    entry := GptEntryBytes(GptEntry(UuidBytes(part.typeUuid), UuidBytes(part.uuid), part.offset / SECTOR,
                                    U64((part.offset + part.size) / SECTOR - 1), flags, part.name));
  }

  // The first loop of `hdimage_insert_gpt`: the array, and the smallest offset
  // of a partition of the table. The array has 128 slots.
  method FillArray(list: seq<Partition>) returns (table: seq<byte>, smallest: nat)
    requires |InTable(Values(list))| <= GPT_ENTRIES
    ensures table == GptTable(Values(list))
    ensures smallest == SmallestOffset(Values(list), NO_OFFSET)
  {
    hide Partition.Value, GptEntryBytes, InTable, Filled, SmallestOffset;
    ghost var parts := Values(list);
    var slots := seq(GPT_ENTRIES, _ => Fill(GPT_ENTRY_SIZE, 0));
    var i := 0;
    smallest := NO_OFFSET;
    NothingListed(parts, slots);
    for n := 0 to |list|
      invariant i == |InTable(parts[..n])| && |slots| == GPT_ENTRIES && Filled(slots, InTable(parts[..n]))
      invariant SmallestOffset(parts[n..], smallest) == SmallestOffset(parts, NO_OFFSET)
    {
      NextListed(parts, n);
      NextSmallest(parts, n, smallest);
      FieldsOfValue(list[n]);
      if list[n].inTable {
        if list[n].offset < smallest {
          smallest := list[n].offset;
        }
        var entry := ListedEntry(list[n]);
        FillNext(slots, InTable(parts[..n]), parts[n]);
        assert parts[n] == list[n].Value();
        slots := slots[i := entry];
        i := i + 1;
      }
    }
    assert parts[..|list|] == parts && parts[|list|..] == [];
    NoneSmaller(smallest);
    FlattenArray(slots, parts);
    ArraySize(parts);
    table := Flatten(slots);
  }

  lemma NextUsable(parts: seq<Part>, n: nat, offset: nat, end: nat)
    requires n < |parts|
    ensures var p := parts[n];
            FirstUsable(parts[n..], offset, end)
            == FirstUsable(parts[n + 1..], offset,
                 if !p.inTable && !Contains(p.name, "GPT backup") && p.End() <= offset then Max(end, p.End()) else end)
  {
    assert parts[n..][1..] == parts[n + 1..];
  }

  lemma NoneUsable(offset: nat, end: nat)
    ensures FirstUsable([], offset, end) == end
  {
  }

  // The second loop of `hdimage_insert_gpt`
  method FindFirstUsable(list: seq<Partition>, smallest: nat) returns (first: nat)
    ensures first == FirstUsable(Values(list), smallest, 0)
  {
    hide Contains, FirstUsable;
    ghost var parts := Values(list);
    first := 0;
    assert parts[0..] == parts;
    for n := 0 to |list|
      invariant FirstUsable(parts[n..], smallest, first) == FirstUsable(parts, smallest, 0)
    {
      NextUsable(parts, n, smallest, first);
      assert parts[n] == list[n].Value();
      if list[n].inTable {
        continue;
      }
      if Contains(list[n].name, "GPT backup") {
        continue;
      }
      var end := list[n].offset + list[n].size;
      if end <= smallest && end > first {
        first := end;
      }
    }
    NoneUsable(smallest, first);
    assert parts[|list|..] == [];
  }

  // One more write behind others.
  lemma RenderOne(f: seq<byte>, done: seq<Write>, w: Write)
    ensures Render(f, done + [w]) == Overwrite(Render(f, done), w.offset, w.data)
  {
    hide Overwrite;
    RenderConcat(f, done, [w]);
    assert [w][1..] == [];
  }

  // A header with its checksum: the field is zero while the checksum is computed.
  method Seal(h: GptHeader) returns (bytes: seq<byte>)
    requires |h.diskUuid| == 16
    ensures bytes == SealedHeader(h)
  {
    hide HeaderBytes, Crc32.Crc;
    var crc := Crc32.Crc32(HeaderBytes(h, 0));
    bytes := HeaderBytes(h, crc as nat);
  }

  lemma SameDisk(hd: HdImage)
    ensures DiskUuid(hd.Cfg()) == DiskUuid(hd.options)
  {
  }

  // The header for sector 1
  method FillHeader(hd: HdImage, table: seq<byte>, smallest: nat, ghost l: Layout) returns (h: GptHeader)
    requires Matches(hd, l)
    requires table == GptTable(l.parts) && smallest == SmallestOffset(l.parts, NO_OFFSET)
    ensures h == PrimaryHeader(l)
  {
    hide GptTable, SmallestOffset, FirstUsable, Crc32.Crc, HdImage.PointsToExtended, DiskUuid, U64, Roundup, Values;
    SameDisk(hd);
    var first := FindFirstUsable(hd.partitions, smallest);
    var tableCrc := Crc32.Crc32(table);
    h := GptHeader(1, if hd.options.gptNoBackup then 1 else U64(hd.imageSize / SECTOR - 1), Roundup(first, SECTOR) / SECTOR,
                   U64(hd.imageSize / SECTOR - 1 - GPT_SECTORS), DiskUuid(hd.options), hd.gptLocation / SECTOR, tableCrc as nat);
  }

  lemma RenderTwo(f: seq<byte>, v: Write, w: Write)
    ensures Render(f, [v, w]) == Overwrite(Overwrite(f, v.offset, v.data), w.offset, w.data)
    ensures Render(f, [v]) == Overwrite(f, v.offset, v.data)
  {
    hide Overwrite;
    assert [v, w][1..] == [w] && [w][1..] == [] && [v][1..] == [];
    var g := Overwrite(f, v.offset, v.data);
    assert Render(g, [w]) == Render(Overwrite(g, w.offset, w.data), []);
    assert Render(f, [v]) == Render(g, []);
  }

  function BackWrites(l: Layout): seq<Write> {
    [Write(U64(l.imageSize - GptBackupSize()), GptTable(l.parts)),
     Write(U64(l.imageSize - SECTOR), SealedHeader(BackupHeader(l)))]
  }

  // The backup at the end of the image, for a file that reaches to there already.
  method InsertBackup(hd: HdImage, out: OutFile, table: seq<byte>, primary: GptHeader, ghost l: Layout)
    returns (ok: bool)
    requires Matches(hd, l)
    requires table == GptTable(l.parts) && primary == PrimaryHeader(l)
    requires out.lost || |out.data| >= l.imageSize
    modifies out
    ensures out.reliable ==> out.lost == old(out.lost) && (|old(out.data)| <= l.imageSize ==> ok)
    ensures out.created && (old(out.lost) ==> out.lost)
    ensures ok && !out.lost ==> out.data == Render(old(out.data), BackWrites(l))
  {
    hide GptTable, PrimaryHeader, SealedHeader, Overwrite, HdImage.PointsToExtended, Values, Render;
    ghost var f := out.data;
    ok := out.ExtendFile(hd.imageSize);
    if !ok {
      return;
    }
    SameBytes(Truncate(f, |f|), f);
    var sectors := hd.imageSize / SECTOR;
    var backup := primary.(currentLba := U64(sectors - 1), backupLba := 1, startingLba := U64(sectors - GPT_SECTORS));
    var bytes := Seal(backup);
    ok := out.InsertData(table, U64(hd.imageSize - GptBackupSize()));
    if !ok {
      return;
    }
    ok := out.InsertData(bytes, U64(hd.imageSize - SECTOR));
    RenderTwo(f, Write(U64(hd.imageSize - GptBackupSize()), table), Write(U64(hd.imageSize - SECTOR), bytes));
  }

  lemma TableIsCover(l: Layout)
    requires l.cfg.table.HasMbr()
    ensures MbrTable(l) == WithCover(l.cfg.table, l.cfg.gptLocation, l.parts)
  {
    if l.cfg.table.Mbr? {
      assert MbrEntries(Mbr, l.parts) + [] == MbrEntries(Mbr, l.parts);
    }
  }

  // The MBR that goes with a table
  method InsertAnyMbr(hd: HdImage, out: OutFile, ghost l: Layout) returns (ok: bool)
    requires Matches(hd, l) && !l.cfg.table.NoTable?
    requires l.cfg.table.Mbr? ==> CountEntries(Mbr, l.parts) <= 4
    requires l.cfg.table.Hybrid? ==> CountEntries(Hybrid, l.parts) <= 3
    modifies out
    ensures out.reliable ==> ok && out.lost == old(out.lost)
    ensures out.created && (old(out.lost) ==> out.lost)
    ensures ok && !out.lost ==> out.data == Overwrite(old(out.data), MbrWrite(l).offset, MbrWrite(l).data)
  {
    hide Overwrite, MbrBytes, CountEntries, MbrEntries, HdImage.PointsToExtended;
    if hd.options.table.Gpt? {
      ok := InsertProtectiveMbr(hd, out);
    } else {
      TableIsCover(l);
      ok := InsertMbr(hd, out, hd.partitions);
    }
  }

  lemma HasTable(hd: HdImage, l: Layout)
    requires Matches(hd, l)
    ensures Values(hd.partitions) == l.parts && hd.gptLocation == l.cfg.gptLocation
    ensures hd.options.gptNoBackup == l.cfg.gptNoBackup && !(l.cfg.table.HasGpt() && l.cfg.table.NoTable?)
  {
  }

  // The writes of `hdimage_insert_gpt` at the front, and at the end of the image.
  function FrontWrites(l: Layout): seq<Write> {
    [Write(SECTOR, SealedHeader(PrimaryHeader(l))), Write(l.cfg.gptLocation, GptTable(l.parts))]
  }

  // The first half of `hdimage_insert_gpt`: the header in sector 1, and the array.
  method InsertFront(hd: HdImage, out: OutFile, ghost l: Layout)
    returns (ok: bool, table: seq<byte>, primary: GptHeader)
    requires Matches(hd, l) && |InTable(l.parts)| <= GPT_ENTRIES
    modifies out
    ensures table == GptTable(l.parts) && primary == PrimaryHeader(l)
    ensures ok && !out.lost ==> out.data == Render(old(out.data), FrontWrites(l)) && |out.data| >= |old(out.data)|
    ensures out.reliable ==> ok && out.lost == old(out.lost)
    ensures out.created && (old(out.lost) ==> out.lost)
  {
    HasTable(hd, l);
    hide GptTable, PrimaryHeader, SealedHeader, Overwrite, InTable, Matches, Render, SmallestOffset;
    ghost var f := out.data;
    var smallest;
    table, smallest := FillArray(hd.partitions);
    primary := FillHeader(hd, table, smallest, l);
    var bytes := Seal(primary);
    ok := out.InsertData(bytes, SECTOR);
    if !ok {
      return;
    }
    ok := out.InsertData(table, hd.gptLocation);
    RenderTwo(f, FrontWrites(l)[0], FrontWrites(l)[1]);
  }

  lemma GptWritesAre(l: Layout)
    requires l.cfg.table.HasGpt()
    ensures TableWrites(l) == (if l.cfg.gptNoBackup then FrontWrites(l) else FrontWrites(l) + BackWrites(l)) + [MbrWrite(l)]
  {
    hide GptTable, PrimaryHeader, BackupHeader, SealedHeader, MbrWrite;
    assert FrontWrites(l) + [] == FrontWrites(l);
  }

  // The effect of the writes, in three steps.
  lemma GptRender(f: seq<byte>, l: Layout)
    requires l.cfg.table.HasGpt()
    ensures var front := Render(f, FrontWrites(l));
            var both := if l.cfg.gptNoBackup then front else Render(front, BackWrites(l));
            Render(f, TableWrites(l)) == Overwrite(both, MbrWrite(l).offset, MbrWrite(l).data)
  {
    hide FrontWrites, BackWrites, TableWrites, MbrWrite, Render, Overwrite;
    GptWritesAre(l);
    RenderConcat(f, FrontWrites(l), BackWrites(l));
    RenderOne(f, if l.cfg.gptNoBackup then FrontWrites(l) else FrontWrites(l) + BackWrites(l), MbrWrite(l));
  }

  // The file does not get shorter behind the first writes.
  lemma FrontIsShorter(f: seq<byte>, l: Layout)
    requires l.cfg.table.HasGpt()
    ensures |Render(f, FrontWrites(l))| <= |Render(f, TableWrites(l))|
  {
    hide FrontWrites, BackWrites, TableWrites, MbrWrite, Render;
    GptWritesAre(l);
    var rest := (if l.cfg.gptNoBackup then [] else BackWrites(l)) + [MbrWrite(l)];
    assert TableWrites(l) == FrontWrites(l) + rest;
    RenderConcat(f, FrontWrites(l), rest);
    RenderLength(Render(f, FrontWrites(l)), rest);
  }

  // `hdimage_insert_gpt`; the array has room for 128 partitions.
  method InsertGpt(hd: HdImage, out: OutFile, ghost l: Layout) returns (ok: bool)
    requires Matches(hd, l) && l.cfg.table.HasGpt() && |InTable(l.parts)| <= GPT_ENTRIES
    requires l.cfg.table.Hybrid? ==> CountEntries(Hybrid, l.parts) <= 3
    requires !l.cfg.gptNoBackup ==> out.lost || |out.data| >= l.imageSize
    modifies out
    ensures out.created && (old(out.lost) ==> out.lost)
    ensures ok && !out.lost ==> out.data == Render(old(out.data), TableWrites(l))
    ensures out.reliable ==> out.lost == old(out.lost)
    ensures out.reliable && !out.lost && (l.cfg.gptNoBackup || |Render(old(out.data), TableWrites(l))| <= l.imageSize) ==> ok
  {
    hide GptTable, PrimaryHeader, FrontWrites, BackWrites, Overwrite, InTable, CountEntries, Matches, MbrWrite;
    hide Render, TableWrites;
    HasTable(hd, l);
    FrontIsShorter(out.data, l);
    GptRender(out.data, l);
    var table, primary;
    ok, table, primary := InsertFront(hd, out, l);
    if !ok {
      return;
    }
    if !hd.options.gptNoBackup {
      ok := InsertBackup(hd, out, table, primary, l);
      if !ok {
        return;
      }
    }
    ok := InsertAnyMbr(hd, out, l);
  }

  // ------------------------------------------------- the whole image

  datatype Result = Done | IoError | TooBig | UnexpectedSize

  // `fill` asks for bytes behind the end of an empty image.
  predicate Unfit(children: Children, p: Part) {
    && p.image.Some? && p.image.value in children && p.fill
    && children[p.image.value].size == 0 && p.imageoffset > 0
  }

  // The extents of the image can be found.
  predicate CanMap(children: Children, p: Part) {
    p.image.Some? && p.image.value in children ==> children[p.image.value].file.fiemap != Failed
  }

  // What `hdimage_generate` needs of each partition.
  ghost predicate Ready(hd: HdImage, p: Part)
    reads hd
  {
    && HoldsImage(hd.children, p)
    && (p.logical ==> hd.extended != null)
    && (p.image.Some? && p.image.value in hd.children ==> hd.children[p.image.value].file.Valid())
  }

  // The part of the loop body of `hdimage_generate` that copies the image.
  method CopyImage(hd: HdImage, out: OutFile, part: Partition) returns (r: Result)
    requires Ready(hd, part.Value())
    modifies out
    ensures (out.created || out.created == old(out.created)) && out.lost == old(out.lost)
    ensures r == Done ==> var p := part.Value();
              out.data == if WritesImage(hd.children, p)
                          then Overwrite(old(out.data), p.offset, ImageWrite(hd.children, p).data)
                          else old(out.data)
    ensures r == TooBig ==> Unfit(hd.children, part.Value())
    ensures r != UnexpectedSize
    ensures out.reliable && CanMap(hd.children, part.Value()) ==> r != IoError
  {
    hide Overwrite, Inserted, Source.Valid;
    if part.image == None {
      return Done;
    }
    var child := hd.children[part.image.value];
    if child.size == 0 && !part.fill {
      return Done;
    }
    if part.imageoffset > child.size {
      return TooBig;
    }
    var dataSize := child.size - part.imageoffset;
    if dataSize > part.size {
      return TooBig;
    }
    var ok := out.InsertImage(Some(child.file), if part.fill then part.size else dataSize, part.offset,
                              part.imageoffset, 0, part.sparse);
    r := if ok then Done else IoError;
  }

  lemma {:induction false} ExtendedIs(parts: seq<Part>, offset: nat)
    requires exists e | 0 <= e < |parts| :: parts[e].kind.Extended?
    requires forall e | 0 <= e < |parts| && parts[e].kind.Extended? :: parts[e].offset == offset
    ensures ExtendedOffset(parts) == offset
    decreases |parts|
  {
    if parts[0].kind.Extended? {
    } else {
      var e :| 0 <= e < |parts| && parts[e].kind.Extended?;
      assert parts[1..][e - 1].kind.Extended?;
      ExtendedIs(parts[1..], offset);
    }
  }

  // A list that can be written: what a layout from `hdimage_setup` guarantees.
  ghost predicate Writable(hd: HdImage, l: Layout)
    reads hd, hd.partitions, if hd.extended != null then {hd.extended} else {}
  {
    && Matches(hd, l)
    && (forall i | 0 <= i < |l.parts| :: Ready(hd, l.parts[i]))
    && (forall i | 0 <= i < |l.parts| && l.parts[i].logical ::
          hd.extended != null && ExtendedOffset(l.parts) == hd.extended.offset)
  }

  lemma HasContainer(options: Config, children: Children, parts: seq<Part>, l: Layout, i: nat)
    requires Accepted(options, children, parts, l) && i < |l.parts| && l.parts[i].logical
    ensures exists e | 0 <= e < |l.parts| :: l.parts[e].kind.Extended?
  {
    hide Setup, Compatible;
    SetupIsSafe(options, children, parts);
  }

  lemma SetupIsWritable(hd: HdImage, options: Config, parts: seq<Part>, l: Layout)
    requires Accepted(options, hd.children, parts, l) && Matches(hd, l)
    requires forall name | name in hd.children :: hd.children[name].file.Valid()
    ensures Writable(hd, l)
  {
    hide Setup, Accepted, Compatible, HoldsImage, Source.Valid;
    forall i | 0 <= i < |l.parts|
      ensures Ready(hd, l.parts[i])
      ensures l.parts[i].logical ==> hd.extended != null && ExtendedOffset(l.parts) == hd.extended.offset
    {
      PartFacts(options, hd.children, parts, l, i);
      if l.parts[i].logical {
        HasContainer(options, hd.children, parts, l, i);
        var e :| 0 <= e < |l.parts| && l.parts[e].kind.Extended?;
        assert l.parts[e] == hd.partitions[e].Value();
        forall j | 0 <= j < |l.parts| && l.parts[j].kind.Extended?
          ensures l.parts[j].offset == hd.extended.offset
        {
          assert l.parts[j] == hd.partitions[j].Value();
        }
        ExtendedIs(l.parts, hd.extended.offset);
      }
    }
  }

  lemma ImageOffset(children: Children, p: Part)
    requires WritesImage(children, p)
    ensures ImageWrite(children, p).offset == p.offset
  {
  }

  lemma RenderNothing(f: seq<byte>)
    ensures Render(f, []) == f
  {
  }

  // The loop body of `hdimage_generate`
  method InsertPartition(hd: HdImage, out: OutFile, n: nat, ghost l: Layout) returns (r: Result)
    requires Writable(hd, l) && n < |hd.partitions|
    modifies out
    ensures r == Done && !out.lost ==> out.data == Render(old(out.data), PartWrites(hd.children, l.cfg.align, l.parts, n))
    ensures r == TooBig ==> Unfit(hd.children, l.parts[n])
    ensures r != UnexpectedSize
    ensures (old(out.created) ==> out.created) && (old(out.lost) ==> out.lost)
    ensures out.reliable ==> out.lost == old(out.lost)
    ensures out.reliable && CanMap(hd.children, l.parts[n]) ==> r != IoError
  {
    hide Overwrite, Partition.Value, EbrWrite, ImageWrite, Unfit, WritesImage, ExtendedOffset, HoldsImage;
    hide Source.Valid, Render;
    var part := hd.partitions[n];
    ghost var f := out.data;
    assert l.parts[n] == part.Value();
    LogicalOfValue(part);
    ghost var done := [];
    RenderNothing(f);
    if part.logical {
      var ok := InsertEbr(hd, out, n);
      if !ok {
        return IoError;
      }
      done := [EbrWrite(hd.align, l.parts, n)];
      RenderTwo(f, done[0], done[0]);
    }
    r := CopyImage(hd, out, part);
    if r == Done && WritesImage(hd.children, l.parts[n]) {
      ImageOffset(hd.children, l.parts[n]);
      RenderOne(f, done, ImageWrite(hd.children, l.parts[n]));
    }
    assert done + [] == done;
  }

  // What the writers of the tables rely on.
  ghost predicate TablesFit(l: Layout) {
    && (l.cfg.table.Mbr? ==> CountEntries(Mbr, l.parts) <= 4)
    && (l.cfg.table.Hybrid? ==> CountEntries(Hybrid, l.parts) <= 3)
    && (l.cfg.table.HasGpt() ==> |InTable(l.parts)| <= GPT_ENTRIES)
  }

  // The file is extended to the size of the image.
  predicate EndsWithImage(l: Layout) {
    l.cfg.fill || (l.cfg.table.HasGpt() && !l.cfg.gptNoBackup)
  }

  lemma SetupFits(options: Config, children: Children, parts: seq<Part>, l: Layout)
    requires Accepted(options, children, parts, l)
    requires options.table.HasGpt() ==> |InTable(l.parts)| <= GPT_ENTRIES
    ensures TablesFit(l) && (EndsWithImage(l) ==> l.fileSize == l.imageSize)
  {
    hide Setup, CountEntries, InTable;
    ListedWhenSetup(options, children, parts);
    MbrHasRoom(options, children, parts);
    if options.fill || (options.table.HasGpt() && !options.gptNoBackup) {
      FilledSize(options, children, parts);
    }
  }

  // The rest of `hdimage_generate` behind its loop, except for the check of the size
  method InsertTables(hd: HdImage, out: OutFile, ghost l: Layout) returns (ok: bool)
    requires Matches(hd, l) && TablesFit(l) && (EndsWithImage(l) ==> out.lost || |out.data| >= l.imageSize)
    modifies out
    ensures (old(out.created) ==> out.created) && (old(out.lost) ==> out.lost)
    ensures out.reliable ==> out.lost == old(out.lost)
    ensures ok && !out.lost ==> out.data == Render(old(out.data), TableWrites(l))
    ensures out.reliable && !out.lost && (EndsWithImage(l) ==> |Render(old(out.data), TableWrites(l))| <= l.imageSize) ==> ok
  {
    hide Overwrite, Render, GptWrites, MbrWrite, CountEntries, InTable, HdImage.PointsToExtended, Values;
    ghost var f := out.data;
    RenderNothing(f);
    if !hd.options.table.NoTable? {
      if hd.options.table.HasGpt() {
        ok := InsertGpt(hd, out, l);
      } else {
        ok := InsertAnyMbr(hd, out, l);
        RenderOne(f, [], MbrWrite(l));
        assert [] + [MbrWrite(l)] == TableWrites(l);
      }
      if !ok {
        return;
      }
    }
    ok := true;
    if hd.options.fill {
      RenderLength(f, TableWrites(l));
      ok := out.ExtendFile(hd.imageSize);
      SameBytes(Truncate(Render(f, TableWrites(l)), |Render(f, TableWrites(l))|), Render(f, TableWrites(l)));
    }
  }

  lemma NextWrites(children: Children, align: nat, parts: seq<Part>, n: nat)
    requires n < |parts|
    ensures PartsWrites(children, align, parts, n + 1)
         == PartsWrites(children, align, parts, n) + PartWrites(children, align, parts, n)
  {
    hide PartWrites;
  }

  // The loop of `hdimage_generate`
  method InsertPartitions(hd: HdImage, out: OutFile, ghost l: Layout) returns (r: Result)
    requires Writable(hd, l)
    modifies out
    ensures r == Done && !out.lost ==>
              out.data == Render(old(out.data), PartsWrites(hd.children, l.cfg.align, l.parts, |l.parts|))
    ensures r == TooBig ==> exists i | 0 <= i < |l.parts| :: Unfit(hd.children, l.parts[i])
    ensures r != UnexpectedSize
    ensures (old(out.created) ==> out.created) && (old(out.lost) ==> out.lost)
    ensures out.reliable ==> out.lost == old(out.lost)
    ensures out.reliable && (forall i | 0 <= i < |l.parts| :: CanMap(hd.children, l.parts[i])) ==> r != IoError
  {
    hide CanMap, Overwrite, Render, PartsWrites, PartWrites, Unfit, Ready, Partition.Value, ExtendedOffset;
    hide HdImage.PointsToExtended;
    NoWritesYet(hd.children, l.cfg.align, l.parts);
    ghost var f := out.data;
    RenderNothing(f);
    for n := 0 to |hd.partitions|
      invariant out.lost || out.data == Render(f, PartsWrites(hd.children, l.cfg.align, l.parts, n))
      invariant (old(out.created) ==> out.created) && (old(out.lost) ==> out.lost)
      invariant out.reliable ==> out.lost == old(out.lost)
    {
      ghost var before := PartsWrites(hd.children, l.cfg.align, l.parts, n);
      r := InsertPartition(hd, out, n, l);
      if r != Done {
        return;
      }
      RenderConcat(f, before, PartWrites(hd.children, l.cfg.align, l.parts, n));
      NextWrites(hd.children, l.cfg.align, l.parts, n);
    }
    r := Done;
  }

  // Both passes together give the output, and its size is known.
  lemma AllWrites(options: Config, children: Children, parts: seq<Part>, l: Layout, parted: seq<byte>)
    requires Accepted(options, children, parts, l)
    requires parted == Render(Fill(l.fileSize, 0), PartsWrites(children, l.cfg.align, l.parts, |l.parts|))
    ensures Render(parted, TableWrites(l)) == Output(children, l)
    ensures |parted| >= l.fileSize
    ensures |Output(children, l)| != l.fileSize ==> exists i | 0 <= i < |l.parts| :: FillsBeyond(children, l, l.parts[i])
  {
    hide Accepted, Render, PartsWrites, TableWrites, FillsBeyond;
    var f, writes := Fill(l.fileSize, 0), PartsWrites(children, l.cfg.align, l.parts, |l.parts|);
    RenderConcat(f, writes, TableWrites(l));
    RenderLength(f, writes);
    SizeIsExact(options, children, parts, l);
  }

  // If the file is extended to the size of the image, it has this size already.
  lemma FilledOutput(options: Config, children: Children, parts: seq<Part>, l: Layout)
    requires Accepted(options, children, parts, l)
    ensures EndsWithImage(l) ==> |Output(children, l)| == l.imageSize
  {
    hide Setup, Output;
    ListedWhenSetup(options, children, parts);
    if EndsWithImage(l) {
      SizeIsExactWhenFilled(options, children, parts, l);
      FilledSize(options, children, parts);
    }
  }

  lemma SizeOf(hd: HdImage, l: Layout)
    requires Matches(hd, l)
    ensures hd.fileSize == l.fileSize
  {
  }

  // `hdimage_generate` for a regular output file: it writes the output of the
  // layout, with the predicted size, or fails.
  method HdimageGenerate(hd: HdImage, out: OutFile, ghost parts: seq<Part>, ghost l: Layout) returns (r: Result)
    requires Accepted(hd.options, hd.children, parts, l) && Matches(hd, l)
    requires hd.options.table.HasGpt() ==> |InTable(l.parts)| <= GPT_ENTRIES
    requires forall name | name in hd.children :: hd.children[name].file.Valid()
    modifies out
    ensures r == Done ==> |out.data| == l.fileSize && (!out.lost ==> out.data == Output(hd.children, l))
    ensures r == TooBig ==> exists i | 0 <= i < |l.parts| :: Unfit(hd.children, l.parts[i])
    ensures r == UnexpectedSize && !out.lost ==> exists i | 0 <= i < |l.parts| :: FillsBeyond(hd.children, l, l.parts[i])
    ensures out.reliable && r != IoError ==> !out.lost
    ensures out.reliable && l.fileSize > 0 && (forall i | 0 <= i < |l.parts| :: CanMap(hd.children, l.parts[i])) ==> r != IoError
  {
    hide CanMap, EndsWithImage, Accepted, Matches, Render, PartsWrites, TableWrites, Unfit, FillsBeyond;
    hide InTable, Source.Valid, Writable, TablesFit, Output;
    SetupIsWritable(hd, hd.options, parts, l);
    SizeOf(hd, l);
    var ok := out.PrepareImage(hd.fileSize);
    if !ok {
      return IoError;
    }
    r := InsertPartitions(hd, out, l);
    if r != Done {
      return;
    }
    if !out.lost {
      AllWrites(hd.options, hd.children, parts, l, out.data);
    }
    FilledOutput(hd.options, hd.children, parts, l);
    SetupFits(hd.options, hd.children, parts, l);
    ok := InsertTables(hd, out, l);
    if !ok || !out.created {
      return IoError;
    }
    if hd.fileSize != |out.data| {
      return UnexpectedSize;
    }
    return Done;
  }

  // Setup does not list more partitions in the GPT than the configuration.
  lemma SameRoom(options: Config, children: Children, parts: seq<Part>, l: Layout)
    requires Accepted(options, children, parts, l) && options.table.HasGpt()
    ensures |InTable(l.parts)| == |InTable(parts)|
  {
    hide Accepted, InTable, SameOptions, Identified;
    ConfiguredParts(options, children, parts, l);
    forall i | 0 <= i < |parts|
      ensures parts[i].inTable == l.parts[i].inTable
    {
      StaysInTable(l.cfg, parts[i], l.parts[i]);
    }
    SameTable(parts, l.parts);
  }

  // Nothing in a layout keeps its file from being written.
  ghost predicate Buildable(children: Children, l: Layout) {
    forall i | 0 <= i < |l.parts| ::
      CanMap(children, l.parts[i]) && !Unfit(children, l.parts[i]) && !FillsBeyond(children, l, l.parts[i])
  }

  // Both handlers of an image, one after the other, on the partitions of the
  // configuration: setup refuses it (then there is no result), or the file is
  // generated. What is written is a function of the configuration alone.
  method HdimageBuild(hd: HdImage, out: OutFile) returns (r: Option<Result>)
    requires Distinct(hd.partitions) && Fresh(Values(hd.partitions)) && hd.extended == null
    requires hd.imageSize == hd.options.imageSize && hd.align == hd.options.align && hd.gptLocation == hd.options.gptLocation
    requires hd.options.table.HasGpt() ==> |InTable(Values(hd.partitions))| <= GPT_ENTRIES
    requires var l := Setup(hd.options, hd.children, Values(hd.partitions)); l.Some? ==> l.value.imageSize < TWO_TO_THE_64
    requires forall name | name in hd.children :: hd.children[name].file.Valid()
    modifies hd, hd.partitions, out
    ensures var l := Setup(hd.options, hd.children, old(Values(hd.partitions)));
            && (r.Some? <==> l.Some?)
            && (r == Some(Done) ==> |out.data| == l.value.fileSize && (!out.lost ==> out.data == Output(hd.children, l.value)))
            && (r == Some(TooBig) ==> exists i | 0 <= i < |l.value.parts| :: Unfit(hd.children, l.value.parts[i]))
            && (r == Some(UnexpectedSize) && !out.lost ==>
                  exists i | 0 <= i < |l.value.parts| :: FillsBeyond(hd.children, l.value, l.value.parts[i]))
            && (out.reliable && l.Some? && l.value.fileSize > 0 && Buildable(hd.children, l.value) ==>
                  r == Some(Done) && !out.lost)
  {
    hide Setup, InTable, Source.Valid, Output, Unfit, FillsBeyond, Partition.Value, Fresh, Distinct, CanMap;
    ghost var parts := Values(hd.partitions);
    ghost var l := Setup(hd.options, hd.children, parts);
    var ok := hd.HdimageSetup();
    if !ok {
      return None;
    }
    if hd.options.table.HasGpt() {
      SameRoom(hd.options, hd.children, parts, l.value);
    }
    var result := HdimageGenerate(hd, out, parts, l.value);
    r := Some(result);
  }
}
