/**
  Where the partitions of a hard disk image go: the computation of
  `hdimage_setup` in `image-hd.c`, as functions on values. The methods of
  HdSetup are proved equal to these functions, and the properties of a layout
  are proved about them. Offsets and sizes are exact natural numbers, except
  where the wrap-around of 64-bit arithmetic shows.
 */
module HdLayout {
  import opened Bytes
  import opened Arith
  import opened Model
  import Uuid

  datatype TableType = NoTable | Mbr | Gpt | Hybrid {
    predicate HasMbr() {
      Mbr? || Hybrid?
    }

    predicate HasGpt() {
      Gpt? || Hybrid?
    }
  }

  // The option `disk-signature`: nothing, a number, or a number that is made up.
  datatype Signature = Unsigned | Given(number: nat) | Random(number: nat) {
    function Value(): nat {
      if Unsigned? then 0 else number
    }
  }

  // The options of the image section. `generated` stands for the UUIDs that
  // `uuid_random` makes up for partitions, `generatedDisk` for the disk's.
  datatype Config = Config(
    table: TableType,
    align: nat,
    extendedIndex: nat,
    gptLocation: nat,
    gptNoBackup: bool,
    fill: bool,
    imageSize: nat,
    diskUuid: Option<string>,
    signature: Signature,
    shortcuts: seq<(string, string)>,
    generated: nat -> string,
    generatedDisk: string)

  const SECTOR: nat := 512
  const MBR_TAIL_SIZE: nat := 72
  const GPT_ENTRIES: nat := 128
  const GPT_SECTORS: nat := 33

  const EXTENDED_TYPE: Uchar := 0x0f

  // The values that options default to.
  function Normalise(cfg: Config): (r: Config)
    ensures r.align > 0 && r.gptLocation > 0
    ensures r.table == cfg.table
  {
    cfg.(align := if cfg.align != 0 then cfg.align else if cfg.table.NoTable? then 1 else SECTOR,
         gptLocation := if cfg.gptLocation == 0 then 2 * SECTOR else cfg.gptLocation)
  }

  // ------------------------------------------ the extended partition

  // `fake_partition`
  function FakePartition(name: string, kind: Kind, offset: nat, size: nat): (r: Part)
    ensures r.kind == kind
  {
    Part(name, kind, Flags(false, false, false, false), 0, false, false, false, None, 0, false,
         offset, size, 1, false, false, None, None)
  }

  // The `[Extended]` partition inserted before its first logical partition.
  function ExtendedPartition(cfg: Config, first: Part): (r: Part)
    ensures r.kind.Extended?
  {
    var offset := if first.offset == 0 then 0
                  else if first.offset >= cfg.align then first.offset - cfg.align
                  else TWO_TO_THE_64 + first.offset - cfg.align % TWO_TO_THE_64;
    FakePartition("[Extended]", Kind.Extended, offset, 0).(
      inTable := true, partitionType := EXTENDED_TYPE, align := cfg.align)
  }

  function CountInTable(parts: seq<Part>): nat {
    if parts == [] then 0 else (if parts[0].inTable then 1 else 0) + CountInTable(parts[1..])
  }

  // `ensure_extended_partition_index`
  function ExtendedIndex(cfg: Config, parts: seq<Part>): nat {
    if cfg.extendedIndex != 0 then cfg.extendedIndex
    else if CountInTable(parts) > 4 then 4
    else 0
  }

  // The loop of `setup_logical_partitions`.
  function SplitLogical(cfg: Config, index: nat, parts: seq<Part>, count: nat, entries: nat, inExtended: bool,
                        found: bool):
    Option<seq<Part>>
  {
    if parts == [] then Some([])
    else if !parts[0].inTable then
      var rest :- SplitLogical(cfg, index, parts[1..], count, entries, inExtended, found);
      Some([parts[0]] + rest)
    else
      var p, starts := parts[0], index == count + 1;
      var inside := (inExtended || starts) && !p.forcedPrimary;
      var entries' := entries + (if starts then 1 else 0) + (if inside then 0 else 1);
      if p.forcedPrimary && !(found || starts) then None
      else if !p.forcedPrimary && !inside && (found || starts) then None
      else if entries' > 4 then None
      else
        var rest :- SplitLogical(cfg, index, parts[1..], count + 1, entries', inside, found || starts);
        Some((if starts then [ExtendedPartition(cfg, p)] else []) + [p.(logical := inside)] + rest)
  }

  // `setup_logical_partitions`
  function SetupLogical(cfg: Config, parts: seq<Part>): Option<seq<Part>> {
    if cfg.extendedIndex > 4 then None
    else if cfg.table != Mbr then Some(parts)
    else if ExtendedIndex(cfg, parts) == 0 then Some(parts)
    else SplitLogical(cfg, ExtendedIndex(cfg, parts), parts, 0, 0, false, false)
  }

  // --------------------------------------------- the areas of the tables

  function GptBackupSize(): nat {
    GPT_SECTORS * SECTOR
  }

  // The backup header and array at the end of an image of known size; offset
  // zero asks for a place behind everything else.
  function BackupArea(cfg: Config): (r: Part)
    ensures r.kind == Backup
  {
    var offset := if cfg.imageSize == 0 then 0
                  else if cfg.imageSize >= GptBackupSize() then cfg.imageSize - GptBackupSize()
                  else TWO_TO_THE_64 + cfg.imageSize - GptBackupSize();
    FakePartition("[GPT backup]", Backup, offset, GptBackupSize())
  }

  // The partitions that `hdimage_setup` appends to the list.
  function TableAreas(cfg: Config): seq<Part> {
    if cfg.table.NoTable? then []
    else
      [FakePartition("[MBR]", Fake, SECTOR - MBR_TAIL_SIZE, MBR_TAIL_SIZE)] +
      (if !cfg.table.HasGpt() then []
       else [FakePartition("[GPT header]", Fake, SECTOR, SECTOR),
             FakePartition("[GPT array]", Fake, cfg.gptLocation, (GPT_SECTORS - 1) * SECTOR),
             BackupArea(cfg)])
  }

  // The end of the tables at the front of the image.
  function TableEnd(cfg: Config): nat {
    if cfg.table.NoTable? then 0
    else if cfg.table.HasGpt() then cfg.gptLocation + (GPT_SECTORS - 1) * SECTOR
    else SECTOR
  }

  // The partitions that get an entry in the MBR.
  predicate HasEntry(table: TableType, p: Part) {
    p.inTable && !p.logical && (table.Hybrid? ==> p.partitionType != 0)
  }

  // ------------------------------------------------- one partition at a time

  // `now`, `hd->file_size`, `partition_resized`, `hybrid_entries`, and the
  // partitions that have their place.
  datatype Progress = Progress(done: seq<Part>, now: nat, fileSize: nat, resized: bool, hybridEntries: nat)

  // `gpt_partition_type_lookup`
  function Lookup(shortcuts: seq<(string, string)>, name: string): Option<string> {
    if shortcuts == [] then None
    else if Uuid.SameIgnoringCase(shortcuts[0].0, name) then Some(shortcuts[0].1)
    else Lookup(shortcuts[1..], name)
  }

  function TypeUuid(cfg: Config, p: Part): Option<string> {
    var name := if p.typeUuid.None? then "L" else p.typeUuid.value;
    var uuid :- if |name| > 0 && !Uuid.Valid(name) then Lookup(cfg.shortcuts, name) else Some(name);
    if Uuid.Valid(uuid) then Some(uuid) else None
  }

  // The defaults that depend on the kind of table.
  function Defaults(cfg: Config, p: Part): (r: Part)
    requires cfg.align > 0
    ensures r.align > 0
  {
    var inTable := p.inTable && !cfg.table.NoTable?;
    p.(inTable := inTable,
       align := if p.align != 0 then p.align else if inTable || cfg.table.NoTable? then cfg.align else 1)
  }

  // The checks of the types and UUIDs of partition number n.
  function Identify(cfg: Config, n: nat, p: Part): Option<Part> {
    if p.typeUuid.Some? && !cfg.table.HasGpt() then None
    else if p.uuid.Some? && !cfg.table.HasGpt() then None
    else if p.partitionType != 0 && !cfg.table.HasMbr() then None
    else if !(cfg.table.HasGpt() && p.inTable) then Some(p)
    else
      var typeUuid :- TypeUuid(cfg, p);
      if p.uuid.Some? && !Uuid.Valid(p.uuid.value) then None
      else Some(p.(typeUuid := Some(typeUuid), uuid := if p.uuid.Some? then p.uuid else Some(cfg.generated(n))))
  }

  function Resolve(cfg: Config, n: nat, p: Part): (r: Option<Part>)
    requires cfg.align > 0
    ensures r.Some? ==> r.value.align > 0
  {
    Identify(cfg, n, Defaults(cfg, p))
  }

  // The space reserved for the extended boot record of a logical partition.
  function Reserve(cfg: Config, now: nat, p: Part): nat
    requires p.align > 0
  {
    if p.logical then Roundup(now + cfg.align, p.align) else now
  }

  // Where the backup GPT goes if the size of the image is open: the image
  // then ends at a 4K boundary.
  function BackupOffset(now: nat, size: nat): nat {
    if now + size == 0 then 0
    else
      RoundupIsLeastMultiple(now + size, 4096);
      Roundup(now + size, 4096) - size
  }

  predicate PlacesBackup(p: Part) {
    p.kind == Backup && p.offset == 0
  }

  // The first free position once the space for p is set aside.
  function Advance(cfg: Config, now: nat, p: Part): nat
    requires p.align > 0
  {
    Reserve(cfg, now, p) + (if PlacesBackup(p) then p.size else 0)
  }

  function Offset(cfg: Config, now: nat, p: Part): nat
    requires p.align > 0
  {
    var offset := if PlacesBackup(p) then BackupOffset(Reserve(cfg, now, p), p.size) else p.offset;
    if offset == 0 && (p.inTable || cfg.table.NoTable?) then Roundup(Advance(cfg, now, p), p.align) else offset
  }

  // `setup_part_autoresize`: the size to fill the rest of the image.
  function Autoresize(cfg: Config, resized: bool, p: Part): Option<Part>
    requires p.align > 0
  {
    if !p.autoresize then Some(p)
    else if resized || cfg.imageSize == 0 then None
    else
      var room := cfg.imageSize - p.offset - (if cfg.table.HasGpt() then GptBackupSize() else 0);
      var size := if room > 0 then Rounddown(room, p.align) else 0;
      if size == 0 || size < p.size then None else Some(p.(size := size))
  }

  // The number of bytes that a partition takes from its image.
  function DataSize(child: Child, p: Part): nat {
    if child.size != 0 && p.imageoffset <= child.size then child.size - p.imageoffset else 0
  }

  // `setup_part_image`, without the update of `hd->file_size`.
  function FitImage(children: Children, p: Part): Option<Part>
    requires p.align > 0
  {
    if p.image.None? then Some(p)
    else if p.image.value !in children then None
    else
      var child := children[p.image.value];
      if child.size != 0 && p.imageoffset > child.size then None
      else
        var data := DataSize(child, p);
        var size := if p.size != 0 then p.size else if p.inTable then Roundup(data, p.align) else data;
        if data > size then None else Some(p.(size := size))
  }

  function DataEnd(children: Children, p: Part): nat {
    if p.image.Some? && p.image.value in children then p.offset + DataSize(children[p.image.value], p) else 0
  }

  // `image_has_hole_covering`
  predicate HasHoleCovering(children: Children, image: Option<string>, start: int, end: int) {
    && image.Some? && image.value in children
    && var holes := children[image.value].holes;
       exists h | 0 <= h < |holes| :: holes[h].start <= start && end <= holes[h].end
  }

  // p, later in the list, leaves q alone or overlaps it inside of a hole.
  predicate Compatible(children: Children, q: Part, p: Part) {
    || Apart(q.offset, q.End(), p.offset, p.End())
    || HasHoleCovering(children, q.image, Max(p.offset, q.offset) - q.offset, Min(p.End(), q.End()) - q.offset)
  }

  // `check_overlap`
  predicate NoOverlap(children: Children, done: seq<Part>, p: Part) {
    forall i | 0 <= i < |done| :: Compatible(children, done[i], p)
  }

  function StretchOne(p: Part, now: nat): Part {
    if p.kind == Kind.Extended && p.offset <= now then p.(size := now - p.offset) else p
  }

  // The extended partition is stretched to the end of its last logical one.
  function Stretch(done: seq<Part>, now: nat): (r: seq<Part>)
    ensures |r| == |done|
  {
    seq(|done|, i requires 0 <= i < |done| => StretchOne(done[i], now))
  }

  // The part of the loop body that gives p its offset and size.
  function Fit(cfg: Config, children: Children, g: Progress, p: Part): Option<Part>
    requires p.align > 0
  {
    var q := p.(offset := Offset(cfg, g.now, p));
    if q.offset % q.align != 0 then None
    else
      var r :- Autoresize(cfg, g.resized, q);
      FitImage(children, r)
  }

  predicate Fits(children: Children, done: seq<Part>, start: nat, r: Part) {
    && (r.size != 0 || r.kind == Kind.Extended)
    && (if r.logical then start <= r.offset else NoOverlap(children, done, r))
    && (r.inTable ==> r.size % SECTOR == 0)
  }

  // The loop body of `hdimage_setup`.
  function Step(cfg: Config, children: Children, g: Progress, p0: Part): Option<Progress>
    requires cfg.align > 0
  {
    var p :- Resolve(cfg, |g.done|, p0);
    var r :- Fit(cfg, children, g, p);
    var start := Advance(cfg, g.now, p);
    if !Fits(children, g.done, start, r) then None
    else
      var now := Max(start, r.End());
      var dataEnd := Max(g.fileSize, DataEnd(children, r));
      Some(Progress(
        (if r.logical then Stretch(g.done, now) else g.done) + [r],
        now,
        if r.logical then Max(dataEnd, r.offset - cfg.align + SECTOR) else dataEnd,
        g.resized || r.autoresize,
        g.hybridEntries + (if cfg.table.HasGpt() && r.inTable && r.partitionType != 0 then 1 else 0)))
  }

  // The loop of `hdimage_setup`.
  function Place(cfg: Config, children: Children, g: Progress, todo: seq<Part>): Option<Progress>
    requires cfg.align > 0
    decreases |todo|
  {
    if todo == [] then Some(g)
    else
      var g' :- Step(cfg, children, g, todo[0]);
      Place(cfg, children, g', todo[1..])
  }

  // --------------------------------------------------------- the whole image

  // What `hdimage_setup` leaves behind.
  datatype Layout = Layout(cfg: Config, parts: seq<Part>, imageSize: nat, fileSize: nat)

  // `setup_uuid`
  predicate DiskIdsOk(cfg: Config) {
    && (cfg.diskUuid.Some? ==> cfg.table.HasGpt() && Uuid.Valid(cfg.diskUuid.value))
    && (cfg.signature.Given? ==> cfg.table.HasMbr())
  }

  function Listed(cfg: Config, parts: seq<Part>): Option<seq<Part>> {
    if !cfg.table.NoTable? && cfg.align % SECTOR != 0 then None
    else
      var split :- SetupLogical(cfg, parts);
      if DiskIdsOk(cfg) then Some(split + TableAreas(cfg)) else None
  }

  // The end of `hdimage_setup`.
  function Finish(cfg: Config, g: Progress): Option<Layout> {
    if g.hybridEntries > 3 then None
    else if cfg.table.Hybrid? && g.hybridEntries == 0 then None
    else if cfg.imageSize > 0 && g.now > cfg.imageSize then None
    else
      var imageSize := if cfg.imageSize == 0 then g.now else cfg.imageSize;
      var filled := cfg.fill || (cfg.table.HasGpt() && !cfg.gptNoBackup);
      Some(Layout(cfg, g.done, imageSize, if filled then imageSize else g.fileSize))
  }

  // `hdimage_setup`
  function Setup(options: Config, children: Children, parts: seq<Part>): Option<Layout> {
    var cfg := Normalise(options);
    var todo :- Listed(cfg, parts);
    var g :- Place(cfg, children, Progress([], TableEnd(cfg), TableEnd(cfg), false, 0), todo);
    Finish(cfg, g)
  }
}
