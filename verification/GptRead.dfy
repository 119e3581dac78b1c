/**
  Reading the GPT back from the output, as sections 5.3.2 and 5.3.3 of the UEFI
  Specification describe it: a header is accepted if its checksum, computed with
  the checksum field set to zero, and the checksum of its array are right.
 */
module GptRead {
  import opened Bytes
  import opened Arith
  import opened Model
  import opened HdLayout
  import opened HdOverlap
  import opened HdShape
  import opened Records
  import opened HdWriter
  import opened HdContent
  import opened EbrChain
  import Crc32

  // ------------------------------------------------- the reader

  datatype HeaderView = HeaderView(
    currentLba: nat, backupLba: nat, firstUsable: nat, lastUsable: nat,
    diskUuid: seq<byte>, startingLba: nat, entries: nat, entrySize: nat, tableCrc: nat)

  function ViewHeader(b: seq<byte>): HeaderView
    requires |b| == GPT_HEADER_SIZE
  {
    HeaderView(Num(b[24..32]), Num(b[32..40]), Num(b[40..48]), Num(b[48..56]),
               b[56..72], Num(b[72..80]), Num(b[80..84]), Num(b[84..88]), Num(b[88..92]))
  }

  // The signature "EFI PART", revision 1.0, a header of 92 bytes and entries of 128.
  predicate GoodHeader(b: seq<byte>)
    requires |b| == GPT_HEADER_SIZE
  {
    && b[..16] == [0x45, 0x46, 0x49, 0x20, 0x50, 0x41, 0x52, 0x54, 0, 0, 1, 0, 92, 0, 0, 0]
    && Num(b[16..20]) == Crc32.Crc(b[..16] + Fill(4, 0) + b[20..]) as nat
    && b[20..24] == [0, 0, 0, 0] && Num(b[84..88]) == 128
  }

  function TableOf(disk: seq<byte>, h: HeaderView): Option<seq<byte>> {
    var start, size := SECTOR * h.startingLba, h.entries * h.entrySize;
    if start + size > |disk| then None
    else if Crc32.Crc(disk[start..start + size]) as nat != h.tableCrc then None
    else Some(disk[start..start + size])
  }

  // The header at a sector, if it and its array are to be accepted.
  function ReadHeader(disk: seq<byte>, lba: nat): Option<HeaderView> {
    var pos := SECTOR * lba;
    if pos + GPT_HEADER_SIZE > |disk| then None
    else
      var b := disk[pos..pos + GPT_HEADER_SIZE];
      var h := ViewHeader(b);
      if GoodHeader(b) && h.currentLba == lba && TableOf(disk, h).Some? then Some(h) else None
  }

  datatype EntryView = EntryView(typeUuid: seq<byte>, uuid: seq<byte>, first: nat, last: nat, flags: nat,
                                 name: seq<byte>)

  function ViewEntry(b: seq<byte>): EntryView
    requires |b| == GPT_ENTRY_SIZE
  {
    EntryView(b[0..16], b[16..32], Num(b[32..40]), Num(b[40..48]), Num(b[48..56]), b[56..128])
  }

  // ------------------------------------------------- headers

  lemma TailSlices(h: GptHeader)
    requires |h.diskUuid| == 16
    ensures var t := HeaderTail(h);
            && t[0..4] == Le(0, 4) && t[4..12] == Le(U64(h.currentLba), 8) && t[12..20] == Le(U64(h.backupLba), 8)
            && t[20..28] == Le(U64(h.firstUsable), 8) && t[28..36] == Le(U64(h.lastUsable), 8)
  {
    hide Le, U32, U64;
  }

  lemma TailSlicesRest(h: GptHeader)
    requires |h.diskUuid| == 16
    ensures var t := HeaderTail(h);
            && t[36..52] == h.diskUuid && t[52..60] == Le(U64(h.startingLba), 8)
            && t[60..64] == Le(128, 4) && t[64..68] == Le(GPT_ENTRY_SIZE, 4) && t[68..72] == Le(U32(h.tableCrc), 4)
  {
    hide Le, U32, U64;
  }

  lemma {:induction false} LeZero(k: nat)
    ensures Le(0, k) == Fill(k, 0)
    decreases k
  {
    if k == 0 {
    } else {
      LeZero(k - 1);
      assert Fill(k, 0) == [0] + Fill(k - 1, 0);
    }
  }

  lemma HeadIs()
    ensures GPT_HEAD == [0x45, 0x46, 0x49, 0x20, 0x50, 0x41, 0x52, 0x54, 0, 0, 1, 0, 92, 0, 0, 0]
  {
    assert Le(GPT_REVISION, 4) == [0, 0, 1, 0] by {
      assert Le(0x1_0000, 4) == [0] + Le(0x100, 3);
      assert Le(0x100, 3) == [0] + Le(1, 2);
      assert Le(1, 2) == [1] + Le(0, 1);
    }
    assert Le(GPT_HEADER_SIZE, 4) == [92, 0, 0, 0] by {
      assert Le(92, 4) == [92] + Le(0, 3);
      LeZero(3);
    }
  }

  lemma ThreePieces(head: seq<byte>, crc: seq<byte>, tail: seq<byte>)
    requires |head| == 16 && |crc| == 4
    ensures var b := head + crc + tail;
            b[..16] == head && b[16..20] == crc && b[20..] == tail
  {
  }

  lemma SmallU32(n: nat)
    requires n < 0x1_0000_0000
    ensures U32(n) == n
  {
  }

  // The checksum field, and what the other fields are without it.
  lemma ZeroedHeader(h: GptHeader, crc: nat)
    requires |h.diskUuid| == 16
    ensures var b := HeaderBytes(h, crc);
            && b[16..20] == Le(U32(crc), 4)
            && b[..16] + Fill(4, 0) + b[20..] == HeaderBytes(h, 0)
            && b[..16] == GPT_HEAD && b[20..] == HeaderTail(h)
  {
    hide Le, U32, HeaderTail, Fill;
    HeadIs();
    LeZero(4);
    SmallU32(0);
    ThreePieces(GPT_HEAD, Le(U32(crc), 4), HeaderTail(h));
  }

  lemma WordFits(v: bv32)
    ensures v as nat < 0x1_0000_0000
  {
  }

  lemma CrcFits(data: seq<byte>)
    ensures U32(Crc32.Crc(data) as nat) == Crc32.Crc(data) as nat
  {
    WordFits(Crc32.Crc(data));
    hide *;
    SmallU32(Crc32.Crc(data) as nat);
  }

  lemma BehindSlices(b: seq<byte>, t: seq<byte>)
    requires |b| == 92 && |t| == 72 && b[20..] == t
    ensures b[20..24] == t[0..4] && b[24..32] == t[4..12] && b[32..40] == t[12..20] && b[40..48] == t[20..28] && b[48..56] == t[28..36]
    ensures b[56..72] == t[36..52] && b[72..80] == t[52..60] && b[80..84] == t[60..64]
    ensures b[84..88] == t[64..68] && b[88..92] == t[68..72]
  {
    SubSlice(b, 20, 92, 0, 4);
    SubSlice(b, 20, 92, 4, 12);
    SubSlice(b, 20, 92, 12, 20);
    SubSlice(b, 20, 92, 20, 28);
    SubSlice(b, 20, 92, 28, 36);
    SubSlice(b, 20, 92, 36, 52);
    SubSlice(b, 20, 92, 52, 60);
    SubSlice(b, 20, 92, 60, 64);
    SubSlice(b, 20, 92, 64, 68);
    SubSlice(b, 20, 92, 68, 72);
    assert b[20..92] == b[20..];
  }

  // What a reader makes of a sealed header.
  lemma SealedIsGood(h: GptHeader)
    requires |h.diskUuid| == 16
    ensures GoodHeader(SealedHeader(h))
  {
    hide Le, U32, HeaderTail, Num, HeaderBytes, Crc32.Crc;
    var crc := Crc32.Crc(HeaderBytes(h, 0)) as nat;
    var b := SealedHeader(h);
    ZeroedHeader(h, crc);
    HeadIs();
    CrcFits(HeaderBytes(h, 0));
    Num32(crc);
    var t := HeaderTail(h);
    TailSlices(h);
    TailSlicesRest(h);
    BehindSlices(b, t);
    LeZero(4);
    Num32(128);
    SmallU32(128);
  }

  lemma SealedIsViewed(h: GptHeader)
    requires |h.diskUuid| == 16
    ensures ViewHeader(SealedHeader(h))
         == HeaderView(U64(h.currentLba), U64(h.backupLba), U64(h.firstUsable), U64(h.lastUsable),
                       h.diskUuid, U64(h.startingLba), 128, GPT_ENTRY_SIZE, U32(h.tableCrc))
  {
    hide Le, U32, U64, HeaderTail, Num, HeaderBytes, Crc32.Crc;
    var crc := Crc32.Crc(HeaderBytes(h, 0)) as nat;
    var b := SealedHeader(h);
    ZeroedHeader(h, crc);
    var t := HeaderTail(h);
    TailSlices(h);
    TailSlicesRest(h);
    BehindSlices(b, t);
    Num64(h.currentLba);
    Num64(h.backupLba);
    Num64(h.firstUsable);
    Num64(h.lastUsable);
    Num64(h.startingLba);
    Num32(h.tableCrc);
    Num32(128);
    Num32(GPT_ENTRY_SIZE);
    SmallU32(128);
    SmallU32(GPT_ENTRY_SIZE);
  }

  // ------------------------------------------------- the tables in the output

  lemma TablesFilled(l: Layout, w: nat)
    requires w < |TableWrites(l)|
    ensures TableWrites(l)[w].data != []
  {
    hide GptTable, SealedHeader, MbrBytes, PrimaryHeader, BackupHeader, MbrTable;
  }

  lemma SafeAreas(children: Children, align: nat, parts: seq<Part>, i: nat, j: nat)
    requires OverlapSafe(children, align, parts) && i < |parts| && j < |parts| && i != j
    requires parts[i].image == None && parts[j].image == None && !parts[i].kind.Extended? && !parts[j].kind.Extended?
    ensures Apart(parts[i].offset, parts[i].End(), parts[j].offset, parts[j].End())
  {
    if i < j {
      assert Compatible(children, parts[i], parts[j]);
    } else {
      assert Compatible(children, parts[j], parts[i]);
    }
  }

  lemma SameArea(options: Config, children: Children, parts: seq<Part>, l: Layout, v: nat, w: nat)
    requires Accepted(options, children, parts, l) && v < w < |TableWrites(l)|
    requires AreaOf(l, v) == AreaOf(l, w)
    ensures var a, b := TableWrites(l)[v], TableWrites(l)[w];
            Apart(a.offset, a.offset + |a.data|, b.offset, b.offset + |b.data|)
  {
    hide Setup, GptTable, SealedHeader, MbrBytes, PrimaryHeader, BackupHeader, MbrTable;
    assert v == 2 && w == 3;
    BackupInPlace(options, children, parts, l);
    assert TableWrites(l)[2] == GptWrites(l)[2] && TableWrites(l)[3] == GptWrites(l)[3];
  }

  // Two table writes do not overlap.
  lemma TablesApart(options: Config, children: Children, parts: seq<Part>, l: Layout, v: nat, w: nat)
    requires Accepted(options, children, parts, l) && v < w < |TableWrites(l)|
    ensures var a, b := TableWrites(l)[v], TableWrites(l)[w];
            Apart(a.offset, a.offset + |a.data|, b.offset, b.offset + |b.data|)
  {
    hide Setup, TableWrites, OverlapSafe;
    var i := TableWriteInArea(options, children, parts, l, v);
    var j := TableWriteInArea(options, children, parts, l, w);
    TablesFilled(l, v);
    TablesFilled(l, w);
    if i == j {
      SameArea(options, children, parts, l, v, w);
    } else {
      SetupIsSafe(options, children, parts);
      SafeAreas(children, l.cfg.align, l.parts, i, j);
    }
  }

  // What is written for the tables is what the output holds in the end.
  lemma TableStays(options: Config, children: Children, parts: seq<Part>, l: Layout, v: nat)
    requires Accepted(options, children, parts, l) && v < |TableWrites(l)|
    ensures var o, w := Output(children, l), TableWrites(l)[v];
            w.offset + |w.data| <= |o| && o[w.offset..w.offset + |w.data|] == w.data
  {
    hide Setup, PartsWrites, TableWrites, Overwrite, Render, Accepted;
    TablesFilled(l, v);
    var tables := TableWrites(l);
    var w, after := tables[v], tables[v + 1..];
    var before := PartsWrites(children, l.cfg.align, l.parts, |l.parts|) + tables[..v];
    assert Writes(children, l) == before + [w] + after by {
      assert tables == tables[..v] + [w] + after;
    }
    var o := Output(children, l);
    forall k | 0 <= k < |w.data|
      ensures w.offset + k < |o| && o[w.offset + k] == w.data[k]
    {
      forall u | 0 <= u < |after|
        ensures Misses(after[u], w.offset + k)
      {
        TablesApart(options, children, parts, l, v, v + 1 + u);
      }
      WrittenByteStays(Fill(l.fileSize, 0), before, w, after, k);
    }
    RenderLength(Fill(l.fileSize, 0), Writes(children, l));
    assert Writes(children, l)[|before|] == w;
    SameBytes(o[w.offset..w.offset + |w.data|], w.data);
  }

  // ------------------------------------------------- both headers are accepted

  // The layouts whose tables hold all their numbers: whole sectors, and no more
  // partitions than entries.
  ghost predicate InSectors(options: Config, parts: seq<Part>, l: Layout) {
    && options.table.HasGpt()
    && Aligned(Normalise(options), parts)
    && l.imageSize % SECTOR == 0 && l.cfg.gptLocation % SECTOR == 0
    && |GptArrayBytes(l.parts)| <= GPT_ARRAY_SIZE
  }

  // What the headers depend on.
  ghost predicate Roomy(l: Layout) {
    && l.cfg.table.HasGpt()
    && l.cfg.gptLocation > 0 && l.cfg.gptLocation % SECTOR == 0
    && l.cfg.gptLocation + GPT_ARRAY_SIZE + GptBackupSize() <= l.imageSize < TWO_TO_THE_64
    && l.imageSize % SECTOR == 0
  }

  lemma SmallU64(n: int)
    requires 0 <= n < 0x1_0000_0000_0000_0000
    ensures U64(n) == n
  {
  }

  // The array and the backup are areas of their own.
  lemma GptPlaces(options: Config, children: Children, parts: seq<Part>, l: Layout)
    requires Accepted(options, children, parts, l) && InSectors(options, parts, l)
    ensures Roomy(l) && l.cfg.gptNoBackup == options.gptNoBackup
  {
    hide Setup, OverlapSafe, GptArrayBytes, Aligned;
    ListedWhenSetup(options, children, parts);
    BackupInPlace(options, children, parts, l);
    AreasInPlace(options, children, parts, l);
    SetupIsSafe(options, children, parts);
    assert !l.parts[AreaIndex(l, 2)].kind.Extended? && !l.parts[AreaIndex(l, 3)].kind.Extended?;
    SafeAreas(children, l.cfg.align, l.parts, AreaIndex(l, 2), AreaIndex(l, 3));
  }

  // What a reader should get from a header of the source.
  function Viewed(h: GptHeader): HeaderView {
    HeaderView(h.currentLba, h.backupLba, h.firstUsable, h.lastUsable, h.diskUuid, h.startingLba, 128, GPT_ENTRY_SIZE, h.tableCrc)
  }

  ghost predicate FitsHeader(h: GptHeader) {
    && h.currentLba < TWO_TO_THE_64 && h.backupLba < TWO_TO_THE_64 && h.firstUsable < TWO_TO_THE_64
    && h.lastUsable < TWO_TO_THE_64 && h.startingLba < TWO_TO_THE_64
  }

  lemma ReadSealed(disk: seq<byte>, h: GptHeader, table: seq<byte>)
    requires |h.diskUuid| == 16 && |table| == GPT_ARRAY_SIZE && FitsHeader(h)
    requires h.tableCrc == Crc32.Crc(table) as nat
    requires var pos := SECTOR * h.currentLba;
             pos + GPT_HEADER_SIZE <= |disk| && disk[pos..pos + GPT_HEADER_SIZE] == SealedHeader(h)
    requires var pos := SECTOR * h.startingLba;
             pos + GPT_ARRAY_SIZE <= |disk| && disk[pos..pos + GPT_ARRAY_SIZE] == table
    ensures ReadHeader(disk, h.currentLba) == Some(Viewed(h))
    ensures TableOf(disk, Viewed(h)) == Some(table)
  {
    hide ViewHeader, GoodHeader, SealedHeader, Crc32.Crc, U64;
    SealedIsGood(h);
    SealedIsViewed(h);
    CrcFits(table);
    SmallU64(h.currentLba);
    SmallU64(h.backupLba);
    SmallU64(h.firstUsable);
    SmallU64(h.lastUsable);
    SmallU64(h.startingLba);
  }

  lemma FirstUsableFits(parts: seq<Part>)
    ensures Roundup(FirstUsable(parts, SmallestOffset(parts, NO_OFFSET), 0), SECTOR) / SECTOR < TWO_TO_THE_64
  {
    var n := FirstUsable(parts, SmallestOffset(parts, NO_OFFSET), 0);
    if n > 0 {
      RoundupIsLeastMultiple(n, SECTOR);
    }
  }

  lemma PrimaryFits(l: Layout)
    requires Roomy(l)
    ensures var h := PrimaryHeader(l);
            && FitsHeader(h)
            && h.tableCrc == Crc32.Crc(GptTable(l.parts)) as nat
            && h.currentLba == 1
            && SECTOR * h.startingLba == l.cfg.gptLocation
            && h.lastUsable == l.imageSize / SECTOR - 1 - GPT_SECTORS
            && h.backupLba == (if l.cfg.gptNoBackup then 1 else l.imageSize / SECTOR - 1)
  {
    hide GptTable, Crc32.Crc, DiskUuid, U64, FirstUsable, SmallestOffset;
    var h := PrimaryHeader(l);
    SmallU64(l.imageSize / SECTOR - 1);
    SmallU64(l.imageSize / SECTOR - 1 - GPT_SECTORS);
    FirstUsableFits(l.parts);
  }

  lemma BackupFits(l: Layout)
    requires Roomy(l)
    ensures var h := BackupHeader(l);
            && FitsHeader(h)
            && h.tableCrc == Crc32.Crc(GptTable(l.parts)) as nat
            && h.currentLba == l.imageSize / SECTOR - 1
            && SECTOR * h.startingLba == l.imageSize - GptBackupSize()
            && SECTOR * h.currentLba == l.imageSize - SECTOR
  {
    hide GptTable, PrimaryHeader, U64, Crc32.Crc;
    PrimaryFits(l);
    SmallU64(l.imageSize / SECTOR - 1);
    SmallU64(l.imageSize / SECTOR - GPT_SECTORS);
  }

  lemma TableList(l: Layout)
    requires Roomy(l)
    ensures |TableWrites(l)| == (if l.cfg.gptNoBackup then 3 else 5)
    ensures TableWrites(l)[0] == Write(SECTOR, SealedHeader(PrimaryHeader(l)))
    ensures TableWrites(l)[1] == Write(l.cfg.gptLocation, GptTable(l.parts))
    ensures !l.cfg.gptNoBackup ==>
              && TableWrites(l)[2] == Write(l.imageSize - GptBackupSize(), GptTable(l.parts))
              && TableWrites(l)[3] == Write(l.imageSize - SECTOR, SealedHeader(BackupHeader(l)))
  {
    hide SealedHeader, GptTable, PrimaryHeader, BackupHeader, MbrWrite, U64;
    SmallU64(l.imageSize - GptBackupSize());
    SmallU64(l.imageSize - SECTOR);
  }

  lemma BytesStay(options: Config, children: Children, parts: seq<Part>, l: Layout, v: nat, offset: nat,
                  data: seq<byte>)
    requires Accepted(options, children, parts, l) && v < |TableWrites(l)| && TableWrites(l)[v] == Write(offset, data)
    ensures offset + |data| <= |Output(children, l)| && Output(children, l)[offset..offset + |data|] == data
  {
    hide *;
    TableStays(options, children, parts, l, v);
  }

  // The bytes of the disk at a position.
  ghost predicate Holds(disk: seq<byte>, pos: nat, data: seq<byte>) {
    pos + |data| <= |disk| && disk[pos..pos + |data|] == data
  }

  // A header and its array in their places.
  ghost predicate HoldsGpt(disk: seq<byte>, h: GptHeader, table: seq<byte>)
    requires |h.diskUuid| == 16
  {
    && Holds(disk, SECTOR * h.currentLba, SealedHeader(h))
    && Holds(disk, SECTOR * h.startingLba, table)
  }

  lemma PrimaryStays(options: Config, children: Children, parts: seq<Part>, l: Layout)
    requires Accepted(options, children, parts, l) && InSectors(options, parts, l)
    ensures HoldsGpt(Output(children, l), PrimaryHeader(l), GptTable(l.parts))
  {
    hide Accepted, InSectors, Roomy, Output, SealedHeader, GptTable, TableWrites, PrimaryHeader, FitsHeader;
    GptPlaces(options, children, parts, l);
    PrimaryFits(l);
    TableList(l);
    BytesStay(options, children, parts, l, 0, SECTOR, SealedHeader(PrimaryHeader(l)));
    BytesStay(options, children, parts, l, 1, l.cfg.gptLocation, GptTable(l.parts));
  }

  lemma BackupStays(options: Config, children: Children, parts: seq<Part>, l: Layout)
    requires Accepted(options, children, parts, l) && InSectors(options, parts, l) && !options.gptNoBackup
    ensures HoldsGpt(Output(children, l), BackupHeader(l), GptTable(l.parts))
  {
    hide Accepted, InSectors, Roomy, Output, SealedHeader, GptTable, TableWrites, BackupHeader, FitsHeader, Crc32.Crc;
    GptPlaces(options, children, parts, l);
    BackupFits(l);
    TableList(l);
    BytesStay(options, children, parts, l, 2, l.imageSize - GptBackupSize(), GptTable(l.parts));
    BytesStay(options, children, parts, l, 3, l.imageSize - SECTOR, SealedHeader(BackupHeader(l)));
  }

  lemma HeldIsRead(disk: seq<byte>, h: GptHeader, table: seq<byte>)
    requires |h.diskUuid| == 16 && |table| == GPT_ARRAY_SIZE && FitsHeader(h) && h.tableCrc == Crc32.Crc(table) as nat
    requires HoldsGpt(disk, h, table)
    ensures ReadHeader(disk, h.currentLba) == Some(Viewed(h))
    ensures TableOf(disk, Viewed(h)) == Some(table)
  {
    hide SealedHeader, ReadHeader, TableOf, FitsHeader, Crc32.Crc, Viewed;
    ReadSealed(disk, h, table);
  }

  // The header in sector 1 and its array are accepted.
  lemma PrimaryIsRead(options: Config, children: Children, parts: seq<Part>, l: Layout)
    requires Accepted(options, children, parts, l) && InSectors(options, parts, l)
    ensures var o, h := Output(children, l), PrimaryHeader(l);
            ReadHeader(o, 1) == Some(Viewed(h)) && TableOf(o, Viewed(h)) == Some(GptTable(l.parts))
  {
    hide *;
    PrimaryStays(options, children, parts, l);
    GptPlaces(options, children, parts, l);
    PrimaryFits(l);
    HeldIsRead(Output(children, l), PrimaryHeader(l), GptTable(l.parts));
  }

  lemma HasGptOf(options: Config, parts: seq<Part>, l: Layout)
    requires InSectors(options, parts, l)
    ensures options.table.HasGpt()
  {
  }

  lemma SectorsOf(l: Layout)
    requires Roomy(l)
    ensures l.imageSize % SECTOR == 0 && l.imageSize >= SECTOR
  {
  }

  lemma OutputIsImage(options: Config, children: Children, parts: seq<Part>, l: Layout)
    requires Accepted(options, children, parts, l) && options.table.HasGpt() && !options.gptNoBackup
    ensures |Output(children, l)| == l.imageSize
  {
    hide Setup, Output;
    SizeIsExactWhenFilled(options, children, parts, l);
    FilledSize(options, children, parts);
  }

  // So are the header in the last sector and its array, if there is a backup.
  lemma BackupIsRead(options: Config, children: Children, parts: seq<Part>, l: Layout)
    requires Accepted(options, children, parts, l) && InSectors(options, parts, l) && !options.gptNoBackup
    ensures var o, h := Output(children, l), BackupHeader(l);
            && |o| == l.imageSize && |o| % SECTOR == 0 && |o| >= SECTOR
            && ReadHeader(o, |o| / SECTOR - 1) == Some(Viewed(h)) && TableOf(o, Viewed(h)) == Some(GptTable(l.parts))
  {
    hide Accepted, InSectors, Roomy, Output, GptTable, ReadHeader, TableOf, Viewed, HoldsGpt, PrimaryHeader;
    hide BackupHeader, FitsHeader, Crc32.Crc, GptBackupSize;
    BackupStays(options, children, parts, l);
    GptPlaces(options, children, parts, l);
    SectorsOf(l);
    HasGptOf(options, parts, l);
    BackupFits(l);
    OutputIsImage(options, children, parts, l);
    HeldIsRead(Output(children, l), BackupHeader(l), GptTable(l.parts));
  }
}
