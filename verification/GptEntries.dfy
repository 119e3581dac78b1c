/**
  The GPT read back from the output lists the partitions of the table: a reader
  of either header finds their places, types, UUIDs and names, in their order.
 */
module GptEntries {
  import opened Bytes
  import opened Arith
  import opened Model
  import opened HdLayout
  import opened HdOverlap
  import opened HdShape
  import opened Records
  import opened HdWriter
  import opened HdContent
  import opened EbrChain
  import opened GptRead
  import opened HdExact
  import Uuid

  // ------------------------------------------------- the array

  // The partitions that are listed in the GPT.
  function InTable(parts: seq<Part>): seq<Part> {
    if parts == [] then [] else (if parts[0].inTable then [parts[0]] else []) + InTable(parts[1..])
  }

  // Entry number i of an array.
  function EntryAt(table: seq<byte>, i: nat): (r: seq<byte>)
    requires GPT_ENTRY_SIZE * i + GPT_ENTRY_SIZE <= |table|
    ensures |r| == GPT_ENTRY_SIZE
  {
    table[GPT_ENTRY_SIZE * i..GPT_ENTRY_SIZE * i + GPT_ENTRY_SIZE]
  }

  lemma {:induction false} ArraySize(parts: seq<Part>)
    ensures |GptArrayBytes(parts)| == GPT_ENTRY_SIZE * |InTable(parts)|
    decreases |parts|
  {
    hide GptEntryBytes, GptEntryOf;
    if parts == [] {
    } else {
      ArraySize(parts[1..]);
    }
  }

  lemma BehindFirst(first: seq<byte>, rest: seq<byte>, i: nat)
    requires |first| == GPT_ENTRY_SIZE && 0 < i && GPT_ENTRY_SIZE * i <= |rest|
    ensures EntryAt(first + rest, i) == EntryAt(rest, i - 1)
  {
  }

  lemma {:induction false} ArrayEntry(parts: seq<Part>, i: nat)
    requires i < |InTable(parts)|
    ensures GPT_ENTRY_SIZE * i + GPT_ENTRY_SIZE <= |GptArrayBytes(parts)|
    ensures EntryAt(GptArrayBytes(parts), i) == GptEntryBytes(GptEntryOf(InTable(parts)[i]))
    decreases |parts|
  {
    hide GptEntryBytes, GptEntryOf;
    ArraySize(parts);
    var rest := GptArrayBytes(parts[1..]);
    if !parts[0].inTable {
      assert InTable(parts) == InTable(parts[1..]) && GptArrayBytes(parts) == rest;
      ArrayEntry(parts[1..], i);
    } else {
      var first := GptEntryBytes(GptEntryOf(parts[0]));
      assert InTable(parts) == [parts[0]] + InTable(parts[1..]) && GptArrayBytes(parts) == first + rest;
      if i == 0 {
        assert (first + rest)[0..GPT_ENTRY_SIZE] == first;
      } else {
        ArrayEntry(parts[1..], i - 1);
        BehindFirst(first, rest, i);
      }
    }
  }

  // The entries of the table that is written; those behind the last partition are empty.
  lemma TableEntry(parts: seq<Part>, i: nat)
    requires |GptArrayBytes(parts)| <= GPT_ARRAY_SIZE && i < GPT_ENTRIES
    ensures EntryAt(GptTable(parts), i)
         == if i < |InTable(parts)| then GptEntryBytes(GptEntryOf(InTable(parts)[i])) else Fill(GPT_ENTRY_SIZE, 0)
  {
    hide GptEntryBytes, GptEntryOf, GptArrayBytes, InTable;
    ArraySize(parts);
    var used := GptArrayBytes(parts);
    var from := GPT_ENTRY_SIZE * i;
    if i < |InTable(parts)| {
      ArrayEntry(parts, i);
      assert GptTable(parts)[from..from + GPT_ENTRY_SIZE] == used[from..from + GPT_ENTRY_SIZE];
    } else {
      assert GptTable(parts)[from..from + GPT_ENTRY_SIZE] == Fill(GPT_ENTRY_SIZE, 0);
    }
  }

  // ------------------------------------------------- one entry

  lemma EntrySlices(e: GptEntry)
    requires |e.typeUuid| == 16 && |e.uuid| == 16
    ensures var b := GptEntryBytes(e);
            && b[0..16] == e.typeUuid && b[16..32] == e.uuid
            && b[32..40] == Le(U64(e.first), 8) && b[40..48] == Le(U64(e.last), 8) && b[48..56] == Le(U64(e.flags), 8)
            && b[56..128] == NameBytes(e.name, 36)
  {
    hide Le, U64, NameBytes;
  }

  lemma EntryIsViewed(e: GptEntry)
    requires |e.typeUuid| == 16 && |e.uuid| == 16
    ensures ViewEntry(GptEntryBytes(e))
         == EntryView(e.typeUuid, e.uuid, U64(e.first), U64(e.last), U64(e.flags), NameBytes(e.name, 36))
  {
    hide Le, U64, Num, NameBytes, GptEntryBytes;
    EntrySlices(e);
    Num64(e.first);
    Num64(e.last);
    Num64(e.flags);
  }

  // The characters of a name, up to the first zero.
  function DecodeName(b: seq<byte>): string
  {
    if |b| < 2 then ""
    else
      var unit := Num(b[..2]);
      if unit == 0 || unit >= 0x80 then "" else [unit as char] + DecodeName(b[2..])
  }

  predicate Ascii(name: string) {
    forall i | 0 <= i < |name| :: 0 < name[i] as int < 0x80
  }

  // ASCII names come back, cut off after 36 characters.
  lemma {:induction false} NameRoundTrip(name: string, units: nat)
    requires Ascii(name)
    ensures DecodeName(NameBytes(name, units)) == name[..Min(|name|, units)]
    decreases units
  {
    hide Le, Num;
    if units == 0 {
    } else {
      var c := if name == [] then 0 else NameUnit(name[0]);
      var rest := if name == [] then [] else name[1..];
      var b := NameBytes(name, units);
      assert b == Le(c, 2) + NameBytes(rest, units - 1);
      assert b[..2] == Le(c, 2) && b[2..] == NameBytes(rest, units - 1);
      NumOfLe(c, 2) by {
        Pow256Values();
      }
      if name != [] {
        NameRoundTrip(rest, units - 1);
        assert name[..Min(|name|, units)] == [name[0]] + rest[..Min(|rest|, units - 1)];
      }
    }
  }

  // ------------------------------------------------- types and UUIDs

  // The identity of a partition of the table: what the configuration gives is
  // kept, and the type is always a UUID.
  ghost predicate Identified(cfg: Config, p: Part, r: Part) {
    r.inTable ==>
      && r.typeUuid.Some? && Uuid.Valid(r.typeUuid.value) && r.typeUuid == TypeUuid(cfg, p)
      && r.uuid.Some? && (p.uuid.Some? ==> r.uuid == p.uuid && Uuid.Valid(p.uuid.value))
  }

  lemma ResolveIdentifies(cfg: Config, n: nat, p: Part)
    requires cfg.align > 0 && cfg.table.HasGpt() && Resolve(cfg, n, p).Some?
    ensures Identified(cfg, p, Resolve(cfg, n, p).value)
  {
    hide Lookup, Uuid.Valid;
  }

  lemma StepIdentifies(cfg: Config, children: Children, g: Progress, p: Part)
    requires cfg.align > 0 && cfg.table.HasGpt() && Step(cfg, children, g, p).Some?
    ensures var done := Step(cfg, children, g, p).value.done;
            |done| == |g.done| + 1 && Identified(cfg, p, done[|g.done|])
  {
    ResolveIdentifies(cfg, |g.done|, p);
    var p1 := Resolve(cfg, |g.done|, p).value;
    var r, start := StepIs(cfg, children, g, p);
    assert Fit(cfg, children, g, p1) == Some(r) by {
      hide Stretch, Resolve, Fit, NoOverlap, TypeUuid;
      assert Step(cfg, children, g, p).value.done[|g.done|] == r;
    }
    FitIs(cfg, children, g, p1);
    hide Resolve, Step, Fit, TypeUuid, Uuid.Valid, Fits, Advance, Offset, Autoresize, Stretch, Placed;
  }

  lemma IdentityStays(cfg: Config, p: Part, q: Part, r: Part)
    requires Identified(cfg, p, q) && Stays(q, r)
    ensures Identified(cfg, p, r)
  {
    hide TypeUuid, Uuid.Valid;
  }

  lemma {:induction false} PlaceIdentifies(cfg: Config, children: Children, g: Progress, todo: seq<Part>)
    requires cfg.align > 0 && cfg.table.HasGpt() && Place(cfg, children, g, todo).Some?
    ensures var done := Place(cfg, children, g, todo).value.done;
            && |done| == |g.done| + |todo|
            && forall i | 0 <= i < |todo| :: Identified(cfg, todo[i], done[|g.done| + i])
    decreases |todo|
  {
    hide Step, SameOptions, Identified, Stays;
    PlaceKeepsOrder(cfg, children, g, todo);
    if todo == [] {
    } else {
      var g1 := Step(cfg, children, g, todo[0]).value;
      StepIdentifies(cfg, children, g, todo[0]);
      PlaceIdentifies(cfg, children, g1, todo[1..]);
      PlaceKeepsOrder(cfg, children, g1, todo[1..]);
      var d := Place(cfg, children, g, todo).value.done;
      IdentityStays(cfg, todo[0], g1.done[|g.done|], d[|g.done|]);
      forall i | 0 < i < |todo|
        ensures Identified(cfg, todo[i], d[|g.done| + i])
      {
        assert Identified(cfg, todo[1..][i - 1], d[|g1.done| + (i - 1)]);
      }
    }
  }

  lemma NotListed(cfg: Config, p: Part, r: Part)
    requires SameOptions(cfg, p, r) && !p.inTable
    ensures !r.inTable
  {
  }

  // With a GPT, the layout has the configured partitions in their order, and then the tables.
  lemma ConfiguredParts(options: Config, children: Children, parts: seq<Part>, l: Layout)
    requires Accepted(options, children, parts, l) && options.table.HasGpt()
    ensures |parts| <= |l.parts| && l.cfg.table.HasGpt()
    ensures forall i | 0 <= i < |parts| :: SameOptions(l.cfg, parts[i], l.parts[i]) && Identified(l.cfg, parts[i], l.parts[i])
    ensures forall i | |parts| <= i < |l.parts| :: !l.parts[i].inTable
  {
    hide Place, TableAreas, SameOptions, Identified, DiskIdsOk;
    ListedWhenSetup(options, children, parts);
    AreasAreAreas(l.cfg);
    var todo := Listed(l.cfg, parts).value;
    assert todo == parts + TableAreas(l.cfg);
    PlaceIdentifies(l.cfg, children, Begin(l.cfg), todo);
    PlaceKeepsOrder(l.cfg, children, Begin(l.cfg), todo);
    forall i | 0 <= i < |todo|
      ensures SameOptions(l.cfg, todo[i], l.parts[i]) && Identified(l.cfg, todo[i], l.parts[i])
    {
      assert SameOptions(l.cfg, todo[i], l.parts[|Begin(l.cfg).done| + i]);
      assert Identified(l.cfg, todo[i], l.parts[|Begin(l.cfg).done| + i]);
    }
    forall i | |parts| <= i < |l.parts|
      ensures !l.parts[i].inTable
    {
      NotListed(l.cfg, todo[i], l.parts[i]);
    }
  }

  // x and y are at the same place of two lists.
  ghost predicate Beside(a: seq<Part>, b: seq<Part>, x: Part, y: Part) {
    exists j | 0 <= j < |a| <= |b| :: a[j] == x && b[j] == y
  }

  lemma BesideCons(a: seq<Part>, b: seq<Part>)
    requires a != [] && |a| <= |b|
    ensures Beside(a, b, a[0], b[0])
    ensures forall x, y :: Beside(a[1..], b[1..], x, y) ==> Beside(a, b, x, y)
  {
    forall x, y | Beside(a[1..], b[1..], x, y)
      ensures Beside(a, b, x, y)
    {
      var j :| 0 <= j < |a[1..]| && a[1..][j] == x && b[1..][j] == y;
      assert a[j + 1] == x && b[j + 1] == y;
    }
  }

  // The i-th partition of the table is the i-th one of the configuration.
  lemma {:induction false} SameTable(a: seq<Part>, b: seq<Part>)
    requires |a| <= |b|
    requires forall i | 0 <= i < |a| :: a[i].inTable == b[i].inTable
    requires forall i | |a| <= i < |b| :: !b[i].inTable
    ensures |InTable(a)| == |InTable(b)|
    ensures forall i | 0 <= i < |InTable(a)| :: Beside(a, b, InTable(a)[i], InTable(b)[i])
    decreases |b|
  {
    hide Beside;
    if a == [] {
      if b != [] {
        SameTable(a, b[1..]);
      }
    } else {
      SameTable(a[1..], b[1..]);
      BesideCons(a, b);
      forall i | 0 <= i < |InTable(a)|
        ensures Beside(a, b, InTable(a)[i], InTable(b)[i])
      {
        if !a[0].inTable {
          assert Beside(a[1..], b[1..], InTable(a[1..])[i], InTable(b[1..])[i]);
        } else if i > 0 {
          assert Beside(a[1..], b[1..], InTable(a[1..])[i - 1], InTable(b[1..])[i - 1]);
        }
      }
    }
  }

  // ------------------------------------------------- bounds

  // A partition of the table has no declared holes in its image.
  predicate Solid(children: Children, p: Part) {
    p.inTable && p.image.Some? && p.image.value in children ==> children[p.image.value].holes == []
  }

  lemma WholeSectorsOf(options: Config, children: Children, parts: seq<Part>, l: Layout, i: nat)
    requires Accepted(options, children, parts, l) && InSectors(options, parts, l)
    requires i < |l.parts| && l.parts[i].inTable
    ensures l.parts[i].offset % SECTOR == 0 && (!l.parts[i].kind.Extended? ==> l.parts[i].size % SECTOR == 0)
  {
    hide Accepted, Aligned, GptArrayBytes;
    WholeSectors(options, children, parts, l, i);
  }

  lemma NotExtended(options: Config, children: Children, parts: seq<Part>, l: Layout, i: nat)
    requires Accepted(options, children, parts, l) && options.table.HasGpt() && i < |l.parts| && l.parts[i].inTable
    ensures !l.parts[i].kind.Extended? && l.parts[i].size > 0
  {
    hide Setup, Identified, Predicted, Listed;
    ConfiguredParts(options, children, parts, l);
    SetupIsComplete(options, children, parts);
    assert SameOptions(l.cfg, parts[i], l.parts[i]);
    assert Sound(l.cfg, children, l.parts[i]);
  }

  lemma BelowBackup(options: Config, children: Children, parts: seq<Part>, l: Layout, i: nat)
    requires Accepted(options, children, parts, l) && options.table.HasGpt()
    requires i < |l.parts| && l.parts[i].inTable && Solid(children, l.parts[i])
    ensures l.parts[i].End() <= l.imageSize - GptBackupSize()
  {
    hide Setup, TableAreas;
    ListedWhenSetup(options, children, parts);
    NotExtended(options, children, parts, l, i);
    AreasInPlace(options, children, parts, l);
    BackupInPlace(options, children, parts, l);
    SetupIsSafe(options, children, parts);
    var b := AreaIndex(l, 3);
    AreasAreAreas(l.cfg);
    assert !l.parts[b].inTable;
    assert i < b;
    assert Compatible(children, l.parts[i], l.parts[b]);
  }

  lemma {:induction false} SmallestIsBound(parts: seq<Part>, bound: nat)
    requires forall i | 0 <= i < |parts| && parts[i].inTable :: parts[i].offset >= bound
    ensures SmallestOffset(parts, bound) == bound
    decreases |parts|
  {
    if parts == [] {
    } else {
      SmallestIsBound(parts[1..], bound);
    }
  }

  lemma {:induction false} SmallestIsOne(parts: seq<Part>, bound: nat) returns (j: nat)
    requires exists i | 0 <= i < |parts| :: parts[i].inTable && parts[i].offset < bound
    ensures j < |parts| && parts[j].inTable && SmallestOffset(parts, bound) == parts[j].offset
    decreases |parts|
  {
    var rest := if parts[0].inTable then Min(bound, parts[0].offset) else bound;
    if i :| 0 <= i < |parts[1..]| && parts[1..][i].inTable && parts[1..][i].offset < rest {
      var k := SmallestIsOne(parts[1..], rest);
      j := k + 1;
    } else {
      SmallestIsBound(parts[1..], rest);
      j := 0;
    }
  }

  // The first usable sector is not behind any partition.
  lemma RoundedBelow(n: nat, offset: nat)
    requires n <= offset && offset % SECTOR == 0
    ensures SECTOR * (Roundup(n, SECTOR) / SECTOR) <= offset
  {
    if n == 0 {
      RoundupZero(SECTOR);
    } else {
      RoundupIsLeastMultiple(n, SECTOR);
    }
  }

  lemma BehindTables(options: Config, children: Children, parts: seq<Part>, l: Layout, i: nat)
    requires Accepted(options, children, parts, l) && InSectors(options, parts, l)
    requires i < |l.parts| && l.parts[i].inTable && l.parts[i].offset < NO_OFFSET
    ensures SECTOR * PrimaryHeader(l).firstUsable <= l.parts[i].offset
  {
    hide Accepted, InSectors, Aligned, GptArrayBytes, GptTable, FirstUsable, SmallestOffset, Roundup, DiskUuid;
    hide Crc32.Crc;
    var smallest := SmallestOffset(l.parts, NO_OFFSET);
    var n := FirstUsable(l.parts, smallest, 0);
    var j := SmallestIsOne(l.parts, NO_OFFSET);
    WholeSectorsOf(options, children, parts, l, j);
    RoundedBelow(n, smallest);
  }

  // A partition of the table is in whole sectors between the tables.
  lemma WithinUsable(options: Config, children: Children, parts: seq<Part>, l: Layout, i: nat)
    requires Accepted(options, children, parts, l) && InSectors(options, parts, l)
    requires i < |l.parts| && l.parts[i].inTable && Solid(children, l.parts[i])
    ensures var p := l.parts[i];
            && p.offset % SECTOR == 0 && p.End() % SECTOR == 0 && p.size > 0
            && p.End() <= l.imageSize - GptBackupSize()
            && SECTOR * PrimaryHeader(l).firstUsable <= p.offset
  {
    hide Accepted, Setup, OverlapSafe, Aligned, GptArrayBytes, GptTable, PrimaryHeader, FirstUsable, SmallestOffset;
    GptPlaces(options, children, parts, l);
    NotExtended(options, children, parts, l, i);
    WholeSectorsOf(options, children, parts, l, i);
    BelowBackup(options, children, parts, l, i);
    BehindTables(options, children, parts, l, i);
  }

  lemma UpToSector(n: nat)
    ensures n <= SECTOR * (Roundup(n, SECTOR) / SECTOR)
  {
    if n > 0 {
      RoundupIsLeastMultiple(n, SECTOR);
    }
  }

  lemma {:induction false} SmallestIsAbove(parts: seq<Part>, bound: nat, limit: nat)
    requires limit <= bound && forall j | 0 <= j < |parts| && parts[j].inTable :: limit <= parts[j].offset
    ensures limit <= SmallestOffset(parts, bound)
    decreases |parts|
  {
    if parts == [] {
    } else {
      SmallestIsAbove(parts[1..], if parts[0].inTable then Min(bound, parts[0].offset) else bound, limit);
    }
  }

  lemma FirstUsableClears(l: Layout, i: nat)
    requires i < |l.parts| && !l.parts[i].inTable && !Contains(l.parts[i].name, "GPT backup") && l.parts[i].End() <= NO_OFFSET
    requires forall j | 0 <= j < |l.parts| && l.parts[j].inTable :: l.parts[i].End() <= l.parts[j].offset
    ensures l.parts[i].End() <= SECTOR * PrimaryHeader(l).firstUsable
  {
    hide Contains, SmallestOffset, FirstUsable, GptTable, DiskUuid;
    var smallest := SmallestOffset(l.parts, NO_OFFSET);
    SmallestIsAbove(l.parts, NO_OFFSET, l.parts[i].End());
    UpToSector(FirstUsable(l.parts, smallest, 0));
  }

  lemma {:induction false} SmallestIsBelow(parts: seq<Part>, bound: nat)
    ensures SmallestOffset(parts, bound) <= bound
    ensures forall j | 0 <= j < |parts| && parts[j].inTable :: SmallestOffset(parts, bound) <= parts[j].offset
    decreases |parts|
  {
    if parts == [] {
    } else {
      SmallestIsBelow(parts[1..], if parts[0].inTable then Min(bound, parts[0].offset) else bound);
    }
  }

  lemma {:induction false} FirstUsableIsOne(parts: seq<Part>, offset: nat, end: nat)
    ensures var r := FirstUsable(parts, offset, end);
            r == end || exists i | 0 <= i < |parts| ::
              !parts[i].inTable && !Contains(parts[i].name, "GPT backup") && parts[i].End() == r <= offset
    decreases |parts|
  {
    hide Contains;
    if parts == [] {
    } else {
      var p, r := parts[0], FirstUsable(parts, offset, end);
      var more := if !p.inTable && !Contains(p.name, "GPT backup") && p.End() <= offset then Max(end, p.End()) else end;
      FirstUsableIsOne(parts[1..], offset, more);
      if r != more {
        var i :| 0 <= i < |parts[1..]| && !parts[1..][i].inTable && !Contains(parts[1..][i].name, "GPT backup")
                 && parts[1..][i].End() == r <= offset;
        assert parts[i + 1] == parts[1..][i];
      }
    }
  }

  lemma LastOfSector(n: nat)
    requires Roundup(n, SECTOR) / SECTOR > 0
    ensures SECTOR * (Roundup(n, SECTOR) / SECTOR - 1) < n
  {
    if n == 0 {
      RoundupZero(SECTOR);
    } else {
      RoundupIsLeastMultiple(n, SECTOR);
    }
  }

  // The usable sectors begin no later than they have to: something outside of
  // the table ends in the sector before, and does so in front of the table's partitions.
  lemma UsableIsNeeded(l: Layout)
    requires PrimaryHeader(l).firstUsable > 0
    ensures exists i | 0 <= i < |l.parts| ::
              && !l.parts[i].inTable && !Contains(l.parts[i].name, "GPT backup")
              && SECTOR * (PrimaryHeader(l).firstUsable - 1) < l.parts[i].End()
              && forall j | 0 <= j < |l.parts| && l.parts[j].inTable :: l.parts[i].End() <= l.parts[j].offset
  {
    hide Contains, SmallestOffset, FirstUsable, GptTable, DiskUuid, Roundup;
    var smallest := SmallestOffset(l.parts, NO_OFFSET);
    SmallestIsBelow(l.parts, NO_OFFSET);
    LastOfSector(FirstUsable(l.parts, smallest, 0));
    FirstUsableIsOne(l.parts, smallest, 0);
  }

  lemma LastUsableIs(l: Layout)
    requires Roomy(l) && PrimaryHeader(l).lastUsable == l.imageSize / SECTOR - 1 - GPT_SECTORS
    ensures SECTOR * (PrimaryHeader(l).lastUsable + 1) == l.imageSize - GptBackupSize()
  {
    hide PrimaryHeader;
  }

  lemma EndFits(options: Config, children: Children, parts: seq<Part>, l: Layout, i: nat)
    requires Accepted(options, children, parts, l) && i < |l.parts|
    ensures l.parts[i].End() <= NO_OFFSET
  {
    hide Setup, OverlapSafe;
    SetupIsSafe(options, children, parts);
  }

  // The usable sectors begin behind everything that ends before the first
  // partition of the table, and end where the backup begins.
  lemma UsableRange(options: Config, children: Children, parts: seq<Part>, l: Layout, i: nat)
    requires Accepted(options, children, parts, l) && InSectors(options, parts, l)
    requires i < |l.parts| && !l.parts[i].inTable && !Contains(l.parts[i].name, "GPT backup")
    requires forall j | 0 <= j < |l.parts| && l.parts[j].inTable :: l.parts[i].End() <= l.parts[j].offset
    ensures l.parts[i].End() <= SECTOR * PrimaryHeader(l).firstUsable
    ensures SECTOR * (PrimaryHeader(l).lastUsable + 1) == l.imageSize - GptBackupSize()
  {
    hide Accepted, InSectors, Roomy, PrimaryHeader, Contains, FitsHeader, GptTable;
    EndFits(options, children, parts, l, i);
    GptPlaces(options, children, parts, l);
    PrimaryFits(l);
    LastUsableIs(l);
    FirstUsableClears(l, i);
  }

  // ------------------------------------------------- the whole GPT

  // Bit 2 is for a bootable partition, 60 for one that is read-only, 62 for a hidden
  // one and 63 for one without automount; all others are zero.
  ghost predicate HasFlags(flags: nat, f: Flags) {
    && flags < 0x1_0000_0000_0000_0000
    && (flags / 0x4 % 2 == 1 <==> f.bootable)
    && (flags / 0x1000_0000_0000_0000 % 2 == 1 <==> f.readOnly)
    && (flags / 0x4000_0000_0000_0000 % 2 == 1 <==> f.hidden)
    && (flags / 0x8000_0000_0000_0000 % 2 == 1 <==> f.noAutomount)
    && flags % 0x4 == 0 && flags / 0x8 % 0x200_0000_0000_0000 == 0 && flags / 0x2000_0000_0000_0000 % 2 == 0
  }

  // Unit k of a name, or zero behind it; a character beyond ASCII is a byte with a sign.
  ghost predicate HasUnit(b: seq<byte>, name: string, k: nat)
    requires 2 * k + 2 <= |b|
  {
    Num(b[2 * k..2 * k + 2]) == (if k >= |name| then 0
                                 else if name[k] as nat < 0x80 then name[k] as nat
                                 else (name[k] as nat + 0xff00) % 0x1_0000)
  }

  ghost predicate HasName(b: seq<byte>, name: string) {
    |b| == 72 && forall k | 0 <= k < 36 :: HasUnit(b, name, k)
  }

  // An entry that describes a partition of a layout.
  ghost predicate Describes(v: EntryView, p: Part) {
    && SECTOR * v.first == p.offset && SECTOR * (v.last + 1) == p.End()
    && v.typeUuid == UuidBytes(p.typeUuid) && v.uuid == UuidBytes(p.uuid)
    && HasFlags(v.flags, p.flags) && HasName(v.name, p.name) && v.name == NameBytes(p.name, 36)
  }

  // The entry has the type and the UUID that the configuration gives, up to
  // case, and the name, up to 36 characters.
  ghost predicate Recovers(cfg: Config, v: EntryView, p: Part) {
    && |v.typeUuid| == 16 && |v.uuid| == 16
    && (exists u :: Typed(cfg, p, u) && Uuid.Format(v.typeUuid) == Uuid.LowerAll(u))
    && (p.uuid.Some? ==> Uuid.Format(v.uuid) == Uuid.LowerAll(p.uuid.value))
    && (Ascii(p.name) ==> DecodeName(v.name) == p.name[..Min(|p.name|, 36)])
  }

  lemma FlagsFit(f: Flags)
    ensures U64(GptFlags(f)) == GptFlags(f) && HasFlags(GptFlags(f), f)
  {
    SmallU64(GptFlags(f));
  }

  lemma {:induction false} NameUnits(name: string, units: nat, k: nat)
    requires k < units
    ensures NameBytes(name, units)[2 * k..2 * k + 2] == Le(if k < |name| then NameUnit(name[k]) else 0, 2)
    decreases units
  {
    hide Le;
    var first := Le(if name == [] then 0 else NameUnit(name[0]), 2);
    var rest := if name == [] then [] else name[1..];
    var b := NameBytes(name, units);
    assert b == first + NameBytes(rest, units - 1);
    if k == 0 {
      assert b[0..2] == first;
    } else {
      NameUnits(rest, units - 1, k - 1);
      assert b[2 * k..2 * k + 2] == NameBytes(rest, units - 1)[2 * (k - 1)..2 * (k - 1) + 2];
    }
  }

  lemma NameIsWritten(name: string)
    ensures HasName(NameBytes(name, 36), name)
  {
    hide Le, Num, NameBytes;
    forall k | 0 <= k < 36
      ensures HasUnit(NameBytes(name, 36), name, k)
    {
      NameUnits(name, 36, k);
      NumOfLe(if k < |name| then NameUnit(name[k]) else 0, 2) by {
        Pow256Values();
      }
    }
  }

  lemma EntryDescribes(options: Config, children: Children, parts: seq<Part>, l: Layout, i: nat)
    requires Accepted(options, children, parts, l) && InSectors(options, parts, l)
    requires i < |l.parts| && l.parts[i].inTable && Solid(children, l.parts[i])
    ensures var p := l.parts[i]; var v := ViewEntry(GptEntryBytes(GptEntryOf(p)));
            && Describes(v, p)
            && PrimaryHeader(l).firstUsable <= v.first <= v.last <= PrimaryHeader(l).lastUsable
  {
    hide Accepted, GptArrayBytes, Aligned, GptTable, UuidBytes, NameBytes, GptEntryBytes, ViewEntry, PrimaryHeader, U64;
    hide HasFlags, HasName, GptFlags;
    var p := l.parts[i];
    NameIsWritten(p.name);
    GptPlaces(options, children, parts, l);
    PrimaryFits(l);
    WithinUsable(options, children, parts, l, i);
    EntryIsViewed(GptEntryOf(p));
    SmallU64(p.offset / SECTOR);
    SmallU64(p.End() / SECTOR - 1);
    FlagsFit(p.flags);
  }

  lemma EntryRecovers(cfg: Config, p: Part, r: Part, v: EntryView)
    requires SameOptions(cfg, p, r) && Identified(cfg, p, r) && r.inTable && Describes(v, r)
    ensures Recovers(cfg, v, p)
  {
    hide TypeUuid, Typed, Uuid.Valid, Uuid.Parse, Uuid.Format, Uuid.LowerAll, NameBytes, DecodeName, HasFlags, HasName;
    Uuid.ParseRoundTrip(r.typeUuid.value);
    TypedIff(cfg, p, r.typeUuid.value);
    if p.uuid.Some? {
      Uuid.ParseRoundTrip(p.uuid.value);
    }
    if Ascii(p.name) {
      NameRoundTrip(p.name, 36);
    }
  }

  // The array lists the configured partitions of the table in order, and nothing else.
  ghost predicate Lists(table: seq<byte>, h: HeaderView, parts: seq<Part>, l: Layout)
    requires |table| == GPT_ARRAY_SIZE
  {
    && |InTable(parts)| == |InTable(l.parts)| <= GPT_ENTRIES
    && (forall i | 0 <= i < |InTable(parts)| ::
          var v := ViewEntry(EntryAt(table, i));
          && SameOptions(l.cfg, InTable(parts)[i], InTable(l.parts)[i])
          && Describes(v, InTable(l.parts)[i]) && Recovers(l.cfg, v, InTable(parts)[i])
          && h.firstUsable <= v.first <= v.last <= h.lastUsable)
    && (forall i | |InTable(parts)| <= i < GPT_ENTRIES :: EntryAt(table, i) == Fill(GPT_ENTRY_SIZE, 0))
  }

  lemma {:induction false} InTableIsInTable(parts: seq<Part>, i: nat)
    requires i < |InTable(parts)|
    ensures InTable(parts)[i].inTable
    decreases |parts|
  {
    if !parts[0].inTable {
      InTableIsInTable(parts[1..], i);
    } else if i > 0 {
      InTableIsInTable(parts[1..], i - 1);
    }
  }

  lemma OneIsListed(options: Config, children: Children, parts: seq<Part>, l: Layout, i: nat)
    requires Accepted(options, children, parts, l) && InSectors(options, parts, l)
    requires forall j | 0 <= j < |l.parts| :: Solid(children, l.parts[j])
    requires i < |InTable(parts)| == |InTable(l.parts)| <= GPT_ENTRIES
    requires Beside(parts, l.parts, InTable(parts)[i], InTable(l.parts)[i])
    ensures var v := ViewEntry(EntryAt(GptTable(l.parts), i));
            && SameOptions(l.cfg, InTable(parts)[i], InTable(l.parts)[i])
            && Describes(v, InTable(l.parts)[i]) && Recovers(l.cfg, v, InTable(parts)[i])
            && PrimaryHeader(l).firstUsable <= v.first <= v.last <= PrimaryHeader(l).lastUsable
  {
    hide Accepted, GptArrayBytes, Aligned, GptTable, GptEntryBytes, GptEntryOf, EntryAt, ViewEntry, Describes;
    hide Recovers, Solid, SameOptions, Identified, PrimaryHeader;
    var j :| 0 <= j < |parts| <= |l.parts| && parts[j] == InTable(parts)[i] && l.parts[j] == InTable(l.parts)[i];
    ConfiguredParts(options, children, parts, l);
    InTableIsInTable(l.parts, i);
    TableEntry(l.parts, i);
    EntryDescribes(options, children, parts, l, j);
    EntryRecovers(l.cfg, parts[j], l.parts[j], ViewEntry(EntryAt(GptTable(l.parts), i)));
  }

  lemma StaysInTable(cfg: Config, p: Part, r: Part)
    requires SameOptions(cfg, p, r) && cfg.table.HasGpt()
    ensures r.inTable == p.inTable
  {
  }

  lemma TableLists(options: Config, children: Children, parts: seq<Part>, l: Layout)
    requires Accepted(options, children, parts, l) && InSectors(options, parts, l)
    requires forall j | 0 <= j < |l.parts| :: Solid(children, l.parts[j])
    ensures Lists(GptTable(l.parts), Viewed(PrimaryHeader(l)), parts, l)
  {
    hide Accepted, GptArrayBytes, Aligned, GptTable, EntryAt, ViewEntry, Describes, Recovers, SameOptions;
    hide Identified, PrimaryHeader, InTable, Solid, Beside;
    ConfiguredParts(options, children, parts, l);
    forall i | 0 <= i < |parts|
      ensures parts[i].inTable == l.parts[i].inTable
    {
      StaysInTable(l.cfg, parts[i], l.parts[i]);
    }
    SameTable(parts, l.parts);
    ArraySize(l.parts);
    forall i | 0 <= i < |InTable(parts)|
      ensures var v := ViewEntry(EntryAt(GptTable(l.parts), i));
            && SameOptions(l.cfg, InTable(parts)[i], InTable(l.parts)[i])
            && Describes(v, InTable(l.parts)[i]) && Recovers(l.cfg, v, InTable(parts)[i])
            && PrimaryHeader(l).firstUsable <= v.first <= v.last <= PrimaryHeader(l).lastUsable
    {
      OneIsListed(options, children, parts, l, i);
    }
    forall i | |InTable(parts)| <= i < GPT_ENTRIES
      ensures EntryAt(GptTable(l.parts), i) == Fill(GPT_ENTRY_SIZE, 0)
    {
      TableEntry(l.parts, i);
    }
  }

  // The UUID of the configuration is the one in the header.
  ghost predicate Named(options: Config, h: HeaderView)
    requires |h.diskUuid| == 16
  {
    options.diskUuid.Some? ==> Uuid.Format(h.diskUuid) == Uuid.LowerAll(options.diskUuid.value)
  }

  lemma HeaderIsNamed(options: Config, children: Children, parts: seq<Part>, l: Layout)
    requires Accepted(options, children, parts, l)
    ensures |PrimaryHeader(l).diskUuid| == 16 && Named(options, Viewed(PrimaryHeader(l)))
  {
    hide Place, SetupLogical, TableAreas, Fresh, Finish, SmallestOffset, FirstUsable, GptTable, Uuid.Parse, Uuid.Format;
    hide Uuid.LowerAll, Uuid.Valid;
    SetupIsPlace(options, children, parts);
    assert DiskIdsOk(l.cfg);
    if options.diskUuid.Some? {
      Uuid.ParseRoundTrip(options.diskUuid.value);
    }
  }

  // What a reader finds in a disk with a GPT.
  ghost predicate ReadsBack(disk: seq<byte>, lba: nat, parts: seq<Part>, l: Layout) {
    var h := ReadHeader(disk, lba);
    h.Some? && TableOf(disk, h.value).Some? && |TableOf(disk, h.value).value| == GPT_ARRAY_SIZE
    && Lists(TableOf(disk, h.value).value, h.value, parts, l)
  }

  lemma BackupAgrees(options: Config, children: Children, parts: seq<Part>, l: Layout)
    requires Accepted(options, children, parts, l) && InSectors(options, parts, l) && !options.gptNoBackup
    ensures var o := Output(children, l); var last := |o| / SECTOR - 1;
            var primary, backup := Viewed(PrimaryHeader(l)), Viewed(BackupHeader(l));
            && last >= 1 && |o| % SECTOR == 0
            && ReadHeader(o, last) == Some(backup) && TableOf(o, backup) == Some(GptTable(l.parts))
            && primary.backupLba == last
            && backup == primary.(currentLba := last, backupLba := 1, startingLba := backup.startingLba)
            && SECTOR * (backup.startingLba + GPT_SECTORS) == |o|
  {
    hide Output, Accepted, GptTable, ReadHeader, TableOf, PrimaryHeader, GptArrayBytes, Aligned;
    GptPlaces(options, children, parts, l);
    PrimaryFits(l);
    BackupFits(l);
    BackupIsRead(options, children, parts, l);
  }

  lemma ListsAlso(table: seq<byte>, h: HeaderView, k: HeaderView, parts: seq<Part>, l: Layout)
    requires |table| == GPT_ARRAY_SIZE && Lists(table, h, parts, l)
    requires h.firstUsable == k.firstUsable && h.lastUsable == k.lastUsable
    ensures Lists(table, k, parts, l)
  {
    hide Describes, Recovers, SameOptions, InTable, ViewEntry, EntryAt;
  }

  lemma NoBackup(options: Config, children: Children, parts: seq<Part>, l: Layout)
    requires Accepted(options, children, parts, l) && options.gptNoBackup
    ensures PrimaryHeader(l).backupLba == 1
  {
    hide Place, SmallestOffset, FirstUsable, GptTable, DiskUuid, Roundup, Crc32.Crc, Listed;
  }

  // Both headers are accepted, have the UUID of the configuration, point to each
  // other and to equal arrays, and list the partitions.
  lemma GptReadBack(options: Config, children: Children, parts: seq<Part>, l: Layout)
    requires Accepted(options, children, parts, l) && InSectors(options, parts, l)
    requires forall j | 0 <= j < |l.parts| :: Solid(children, l.parts[j])
    ensures var o := Output(children, l); var last := |o| / SECTOR - 1;
            && ReadsBack(o, 1, parts, l)
            && |ReadHeader(o, 1).value.diskUuid| == 16 && Named(options, ReadHeader(o, 1).value)
            && (options.gptNoBackup ==> ReadHeader(o, 1).value.backupLba == 1)
            && (!options.gptNoBackup ==>
                  && last >= 1 && |o| % SECTOR == 0 && ReadsBack(o, last, parts, l)
                  && var primary, backup := ReadHeader(o, 1).value, ReadHeader(o, last).value;
                     && primary.backupLba == last && backup.backupLba == 1
                     && TableOf(o, primary) == TableOf(o, backup)
                     && backup == primary.(currentLba := last, backupLba := 1, startingLba := backup.startingLba)
                     && SECTOR * (backup.startingLba + GPT_SECTORS) == |o|)
  {
    hide Output, Accepted, InSectors, GptTable, ReadHeader, TableOf, Lists, PrimaryHeader, Solid, Named;
    TableLists(options, children, parts, l);
    HeaderIsNamed(options, children, parts, l);
    PrimaryIsRead(options, children, parts, l);
    if options.gptNoBackup {
      NoBackup(options, children, parts, l);
    } else {
      BackupAgrees(options, children, parts, l);
      ListsAlso(GptTable(l.parts), Viewed(PrimaryHeader(l)), Viewed(BackupHeader(l)), parts, l);
    }
  }
}
