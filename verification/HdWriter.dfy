/**
  What `hdimage_generate` writes for a layout: one list of writes, in the order
  of the source. The content of the output is the effect of all of them on a
  file of zeros.
 */
module HdWriter {
  import opened Bytes
  import opened Files
  import opened Arith
  import opened Model
  import opened HdLayout
  import opened Records
  import Crc32
  import Uuid

  datatype Write = Write(offset: nat, data: seq<byte>)

  // The writes in order, on a file with contents f.
  function Render(f: seq<byte>, writes: seq<Write>): seq<byte>
    decreases |writes|
  {
    if writes == [] then f else Render(Overwrite(f, writes[0].offset, writes[0].data), writes[1..])
  }

  // ------------------------------------------------- partitions

  // The index of the next logical partition behind index i.
  function NextLogical(parts: seq<Part>, i: nat): (r: Option<nat>)
    ensures r.Some? ==> i < r.value < |parts| && parts[r.value].logical
    ensures r.Some? ==> forall j | i < j < r.value :: !parts[j].logical
    ensures r.None? ==> forall j | i < j < |parts| :: !parts[j].logical
    decreases |parts| - i
  {
    if i + 1 >= |parts| then None
    else if parts[i + 1].logical then Some(i + 1)
    else NextLogical(parts, i + 1)
  }

  // `hd->extended_partition->offset`
  function ExtendedOffset(parts: seq<Part>): nat {
    if parts == [] then 0
    else if parts[0].kind.Extended? then parts[0].offset
    else ExtendedOffset(parts[1..])
  }

  // The entry of a logical partition in its own boot record, whose addresses
  // count from this record.
  function LogicalEntry(align: nat, p: Part): MbrEntry {
    MbrEntry(false, p.partitionType, align / SECTOR, p.size / SECTOR, (p.offset - align) / SECTOR)
  }

  // The entry that leads to the boot record of partition n; it counts from `[Extended]`.
  function LinkEntry(align: nat, ext: nat, n: Part): MbrEntry {
    MbrEntry(false, EXTENDED_TYPE, (n.offset - align - ext) / SECTOR, (n.size + align) / SECTOR, ext / SECTOR)
  }

  // The one or two entries of the boot record of logical partition i.
  function EbrEntries(align: nat, parts: seq<Part>, i: nat): seq<MbrEntry>
    requires i < |parts|
  {
    var next := NextLogical(parts, i);
    [LogicalEntry(align, parts[i])]
    + if next.None? then [] else [LinkEntry(align, ExtendedOffset(parts), parts[next.value])]
  }

  function EbrWrite(align: nat, parts: seq<Part>, i: nat): Write
    requires i < |parts|
  {
    Write(U64(parts[i].offset - align + 446), EbrBytes(EbrEntries(align, parts, i)))
  }

  // Whether anything is copied for a partition.
  predicate WritesImage(children: Children, p: Part) {
    p.image.Some? && p.image.value in children && (children[p.image.value].size != 0 || p.fill)
  }

  // The number of bytes that are written for a partition with an image.
  function ImageSize(children: Children, p: Part): nat
    requires WritesImage(children, p)
  {
    if p.fill then p.size else DataSize(children[p.image.value], p)
  }

  ghost function ImageWrite(children: Children, p: Part): Write
    requires WritesImage(children, p)
  {
    Write(p.offset, Inserted(Some(children[p.image.value].file), ImageSize(children, p), p.imageoffset, 0))
  }

  ghost function PartWrites(children: Children, align: nat, parts: seq<Part>, i: nat): seq<Write>
    requires i < |parts|
  {
    (if parts[i].logical then [EbrWrite(align, parts, i)] else [])
    + (if WritesImage(children, parts[i]) then [ImageWrite(children, parts[i])] else [])
  }

  ghost function PartsWrites(children: Children, align: nat, parts: seq<Part>, n: nat): seq<Write>
    requires n <= |parts|
    decreases n
  {
    if n == 0 then [] else PartsWrites(children, align, parts, n - 1) + PartWrites(children, align, parts, n - 1)
  }

  // ------------------------------------------------- the MBR

  function MbrEntryOf(p: Part): MbrEntry {
    MbrEntry(p.flags.bootable, p.partitionType, p.offset / SECTOR, p.size / SECTOR, 0)
  }

  // The entries of `hdimage_insert_mbr` for a list of partitions.
  function MbrEntries(table: TableType, parts: seq<Part>): seq<MbrEntry> {
    if parts == [] then []
    else (if HasEntry(table, parts[0]) then [MbrEntryOf(parts[0])] else []) + MbrEntries(table, parts[1..])
  }

  // The entry that covers the GPT of a hybrid table.
  function CoverEntry(gptLocation: nat): MbrEntry {
    MbrEntry(false, 0xee, 1, gptLocation / SECTOR + GPT_SECTORS - 2, 0)
  }

  function MbrTable(l: Layout): seq<MbrEntry> {
    match l.cfg.table
    case NoTable => []
    case Mbr => MbrEntries(Mbr, l.parts)
    case Hybrid => MbrEntries(Hybrid, l.parts) + [CoverEntry(l.cfg.gptLocation)]
    case Gpt => [MbrEntry(false, 0xee, 1, U64(l.imageSize - SECTOR) / SECTOR, 0)]
  }

  function MbrWrite(l: Layout): Write {
    Write(440, MbrBytes(l.cfg.signature.Value(), MbrTable(l)))
  }

  // ------------------------------------------------- the GPT

  predicate ContainsAt(s: string, t: string, i: nat) {
    i + |t| <= |s| && s[i..i + |t|] == t
  }

  // `strstr`
  predicate Contains(s: string, t: string) {
    exists i | 0 <= i <= |s| :: ContainsAt(s, t, i)
  }

  // The smallest offset of a partition of the table, at most the bound.
  function SmallestOffset(parts: seq<Part>, bound: nat): (r: nat)
    ensures r <= bound
    ensures forall i | 0 <= i < |parts| && parts[i].inTable :: r <= parts[i].offset
  {
    if parts == [] then bound
    else SmallestOffset(parts[1..], if parts[0].inTable then Min(bound, parts[0].offset) else bound)
  }

  // The end of the last area outside of the table that ends before an offset.
  function FirstUsable(parts: seq<Part>, offset: nat, end: nat): (r: nat)
    ensures r >= end
    ensures end <= offset ==> r <= offset
    ensures forall i | 0 <= i < |parts| && !parts[i].inTable && !Contains(parts[i].name, "GPT backup") ::
              parts[i].End() <= offset ==> parts[i].End() <= r
  {
    if parts == [] then end
    else
      var p := parts[0];
      FirstUsable(parts[1..], offset,
                  if !p.inTable && !Contains(p.name, "GPT backup") && p.End() <= offset then Max(end, p.End()) else end)
  }

  function GptFlags(f: Flags): nat {
    (if f.bootable then 0x4 else 0)
    + (if f.readOnly then 0x1000_0000_0000_0000 else 0)
    + (if f.hidden then 0x4000_0000_0000_0000 else 0)
    + (if f.noAutomount then 0x8000_0000_0000_0000 else 0)
  }

  function UuidBytes(uuid: Option<string>): (r: seq<byte>)
    ensures |r| == 16
  {
    Uuid.Parse(if uuid.Some? then uuid.value else "")
  }

  function GptEntryOf(p: Part): (r: GptEntry)
    ensures |r.typeUuid| == 16 && |r.uuid| == 16
  {
    GptEntry(UuidBytes(p.typeUuid), UuidBytes(p.uuid), p.offset / SECTOR, U64(p.End() / SECTOR - 1), GptFlags(p.flags), p.name)
  }

  // The used entries of the GPT array.
  function GptArrayBytes(parts: seq<Part>): (r: seq<byte>) {
    if parts == [] then []
    else (if parts[0].inTable then GptEntryBytes(GptEntryOf(parts[0])) else []) + GptArrayBytes(parts[1..])
  }

  const GPT_ARRAY_SIZE: nat := GPT_ENTRIES * GPT_ENTRY_SIZE

  // The whole array; more than 128 entries do not fit.
  function GptTable(parts: seq<Part>): (r: seq<byte>)
    ensures |r| == GPT_ARRAY_SIZE
  {
    var used := GptArrayBytes(parts);
    if |used| <= GPT_ARRAY_SIZE then used + Fill(GPT_ARRAY_SIZE - |used|, 0) else used[..GPT_ARRAY_SIZE]
  }

  const NO_OFFSET: nat := 0xffff_ffff_ffff_ffff

  function DiskUuid(cfg: Config): (r: seq<byte>)
    ensures |r| == 16
  {
    Uuid.Parse(if cfg.diskUuid.Some? then cfg.diskUuid.value else cfg.generatedDisk)
  }

  function PrimaryHeader(l: Layout): (r: GptHeader)
    ensures |r.diskUuid| == 16
  {
    var sectors := l.imageSize / SECTOR;
    GptHeader(1,
              if l.cfg.gptNoBackup then 1 else U64(sectors - 1),
              Roundup(FirstUsable(l.parts, SmallestOffset(l.parts, NO_OFFSET), 0), SECTOR) / SECTOR,
              U64(sectors - 1 - GPT_SECTORS),
              DiskUuid(l.cfg),
              l.cfg.gptLocation / SECTOR,
              Crc32.Crc(GptTable(l.parts)) as nat)
  }

  function BackupHeader(l: Layout): (r: GptHeader)
    ensures |r.diskUuid| == 16
  {
    var sectors := l.imageSize / SECTOR;
    PrimaryHeader(l).(currentLba := U64(sectors - 1), backupLba := 1, startingLba := U64(sectors - GPT_SECTORS))
  }

  // A header with its checksum, computed while the field is zero.
  function SealedHeader(h: GptHeader): (r: seq<byte>)
    requires |h.diskUuid| == 16
    ensures |r| == GPT_HEADER_SIZE
  {
    HeaderBytes(h, Crc32.Crc(HeaderBytes(h, 0)) as nat)
  }

  function GptWrites(l: Layout): seq<Write> {
    [Write(SECTOR, SealedHeader(PrimaryHeader(l))),
     Write(l.cfg.gptLocation, GptTable(l.parts))]
    + if l.cfg.gptNoBackup then []
      else [Write(U64(l.imageSize - GptBackupSize()), GptTable(l.parts)),
            Write(U64(l.imageSize - SECTOR), SealedHeader(BackupHeader(l)))]
  }

  function TableWrites(l: Layout): seq<Write> {
    if l.cfg.table.NoTable? then []
    else (if l.cfg.table.HasGpt() then GptWrites(l) else []) + [MbrWrite(l)]
  }

  // ------------------------------------------------- the output

  ghost function Writes(children: Children, l: Layout): seq<Write> {
    PartsWrites(children, l.cfg.align, l.parts, |l.parts|) + TableWrites(l)
  }

  // The contents of the output file.
  ghost function Output(children: Children, l: Layout): seq<byte> {
    Render(Fill(l.fileSize, 0), Writes(children, l))
  }
}
