/**
  What holds of every partition in a finished layout, of the order of the
  partitions, and of the number of entries in the MBR.
 */
module HdShape {
  import opened Bytes
  import opened Arith
  import opened Model
  import opened HdLayout
  import opened HdOverlap

  // ------------------------------------------------- single partitions

  ghost predicate Sound(cfg: Config, children: Children, r: Part) {
    && HoldsImage(children, r)
    && r.align > 0 && r.offset % r.align == 0
    && (r.size != 0 || r.kind.Extended?)
    && (r.inTable && !r.kind.Extended? ==> r.size % SECTOR == 0)
    && (r.kind.Extended? ==> r.image == None)
  }

  // The file that `hdimage_setup` predicts has room for what r writes of its own.
  ghost predicate Predicted(cfg: Config, children: Children, r: Part, fileSize: nat) {
    && DataEnd(children, r) <= fileSize
    && (r.logical ==> r.offset - cfg.align + SECTOR <= fileSize)
  }

  lemma KindIsKept(cfg: Config, p: Part, r: Part)
    requires SameOptions(cfg, p, r)
    ensures r.kind == p.kind && r.image == p.image && r.autoresize == p.autoresize
  {
  }

  lemma StepIsSound(cfg: Config, children: Children, g: Progress, p: Part) returns (r: Part)
    requires cfg.align > 0 && Step(cfg, children, g, p).Some?
    requires p.kind.Extended? ==> p.image == None
    ensures var g' := Step(cfg, children, g, p).value;
            && |g'.done| == |g.done| + 1 && g'.done[|g.done|] == r
            && Sound(cfg, children, r)
            && Predicted(cfg, children, r, g'.fileSize)
            && g.fileSize <= g'.fileSize
            && g.now <= g'.now
            && (g.fileSize <= g.now && (r.logical ==> cfg.align >= SECTOR) ==> g'.fileSize <= g'.now)
  {
    hide Step, Resolve, Fit, NoOverlap, Stretch, Advance, SameOptions;
    var start;
    r, start := StepIs(cfg, children, g, p);
    StepParts(cfg, children, g, p);
    KindIsKept(cfg, p, r);
  }

  lemma SoundStays(cfg: Config, children: Children, q: Part, r: Part, fileSize: nat, later: nat)
    requires Sound(cfg, children, q) && Predicted(cfg, children, q, fileSize) && Stays(q, r) && fileSize <= later
    ensures Sound(cfg, children, r) && Predicted(cfg, children, r, later)
  {
  }

  lemma {:induction false} PlaceIsSound(cfg: Config, children: Children, g: Progress, todo: seq<Part>)
    requires cfg.align > 0 && Place(cfg, children, g, todo).Some?
    requires forall i | 0 <= i < |todo| && todo[i].kind.Extended? :: todo[i].image == None
    ensures var g' := Place(cfg, children, g, todo).value;
            && |g'.done| == |g.done| + |todo|
            && g.fileSize <= g'.fileSize
            && (forall i | |g.done| <= i < |g'.done| ::
                  Sound(cfg, children, g'.done[i]) && Predicted(cfg, children, g'.done[i], g'.fileSize))
    decreases |todo|
  {
    hide Step, Sound, Predicted, SameOptions;
    PlaceKeepsOrder(cfg, children, g, todo);
    if todo == [] {
    } else {
      var g1 := Step(cfg, children, g, todo[0]).value;
      var r := StepIsSound(cfg, children, g, todo[0]);
      PlaceIsSound(cfg, children, g1, todo[1..]);
      PlaceKeepsOrder(cfg, children, g1, todo[1..]);
      var g' := Place(cfg, children, g, todo).value;
      SoundStays(cfg, children, r, g'.done[|g.done|], g1.fileSize, g'.fileSize);
    }
  }

  lemma {:induction false} FileSizeBelowNow(cfg: Config, children: Children, g: Progress, todo: seq<Part>)
    requires cfg.align > 0 && Place(cfg, children, g, todo).Some?
    requires forall i | 0 <= i < |todo| && todo[i].kind.Extended? :: todo[i].image == None
    requires forall i | 0 <= i < |todo| && todo[i].logical :: cfg.align >= SECTOR
    requires g.fileSize <= g.now
    ensures var g' := Place(cfg, children, g, todo).value; g'.fileSize <= g'.now
    decreases |todo|
  {
    hide Step, Sound, Predicted;
    if todo == [] {
    } else {
      var g1 := Step(cfg, children, g, todo[0]).value;
      var r := StepIsSound(cfg, children, g, todo[0]);
      var r', start := StepIs(cfg, children, g, todo[0]);
      assert r == r';
      FileSizeBelowNow(cfg, children, g1, todo[1..]);
    }
  }

  // ------------------------------------------------- the list

  lemma DividedConcat(cfg: Config, split: seq<Part>, areas: seq<Part>, k: nat)
    requires Divided(cfg, split, k) && Bare(areas)
    ensures Divided(cfg, split + areas, k)
  {
    hide Plain, Bare, Closing;
    var all := split + areas;
    assert all[..k] == split[..k];
    assert all[k + 1..] == split[k + 1..] + areas;
    BareConcat(split[k + 1..], areas);
  }

  // The list that `hdimage_setup` works on: without logical partitions, or with
  // `[Extended]` at index k before them.
  lemma ListedShape(cfg: Config, parts: seq<Part>) returns (k: nat)
    requires Fresh(parts) && Listed(cfg, parts).Some?
    ensures var todo := Listed(cfg, parts).value;
            Plain(todo) || (cfg.table == Mbr && Divided(cfg, todo, k))
    ensures var todo := Listed(cfg, parts).value;
            |todo| >= |TableAreas(cfg)| && todo[|todo| - |TableAreas(cfg)|..] == TableAreas(cfg)
  {
    hide Plain, Bare, SplitLogical, TableAreas, Divided, DiskIdsOk;
    var split := SetupLogical(cfg, parts).value;
    AreasAreBare(cfg);
    k := 0;
    if SetupLogical(cfg, parts) == Some(parts) {
      FreshIsPlain(parts);
      BareConcat(parts, TableAreas(cfg));
    } else {
      k := SplitShape(cfg, ExtendedIndex(cfg, parts), parts, 0, 0, false, false);
      if Plain(split) {
        BareConcat(split, TableAreas(cfg));
      } else {
        DividedConcat(cfg, split, TableAreas(cfg), k);
      }
    }
  }

  lemma {:induction false} SplitKinds(cfg: Config, index: nat, parts: seq<Part>, count: nat, entries: nat,
                                      inExtended: bool, found: bool)
    requires Fresh(parts) && SplitLogical(cfg, index, parts, count, entries, inExtended, found).Some?
    ensures var s := SplitLogical(cfg, index, parts, count, entries, inExtended, found).value;
            forall i | 0 <= i < |s| :: s[i].kind == Configured || s[i].kind.Extended?
    decreases |parts|
  {
    hide ExtendedPartition;
    if parts == [] {
    } else {
      var p, rest := parts[0], parts[1..];
      if !p.inTable {
        SplitKinds(cfg, index, rest, count, entries, inExtended, found);
      } else {
        var starts := index == count + 1;
        var inside := (inExtended || starts) && !p.forcedPrimary;
        var entries' := entries + (if starts then 1 else 0) + (if inside then 0 else 1);
        SplitKinds(cfg, index, rest, count + 1, entries', inside, found || starts);
      }
    }
  }

  lemma ListedExtended(cfg: Config, todo: seq<Part>, k: nat)
    requires Plain(todo) || Divided(cfg, todo, k)
    ensures forall i | 0 <= i < |todo| && todo[i].kind.Extended? :: todo[i].image == None && !todo[i].logical && !todo[i].autoresize
  {
    if Divided(cfg, todo, k) {
      forall i | 0 <= i < k
        ensures !todo[i].kind.Extended?
      {
        assert todo[i] == todo[..k][i];
      }
      forall i | k < i < |todo|
        ensures !todo[i].kind.Extended?
      {
        assert todo[i] == todo[k + 1..][i - k - 1];
      }
    }
  }

  function Begin(cfg: Config): Progress {
    Progress([], TableEnd(cfg), TableEnd(cfg), false, 0)
  }

  // Each partition of the list is in the layout, in its place of the list.
  ghost predicate Complete(cfg: Config, children: Children, todo: seq<Part>, l: Layout) {
    && |l.parts| == |todo|
    && (forall i | 0 <= i < |todo| :: SameOptions(cfg, todo[i], l.parts[i]))
    && (forall i | 0 <= i < |todo| :: Sound(cfg, children, l.parts[i]) && Predicted(cfg, children, l.parts[i], l.fileSize))
    && TableEnd(cfg) <= l.fileSize <= l.imageSize
  }

  lemma PredictedMore(cfg: Config, children: Children, r: Part, fileSize: nat, later: nat)
    requires Predicted(cfg, children, r, fileSize) && fileSize <= later
    ensures Predicted(cfg, children, r, later)
  {
  }

  lemma ListedAlign(cfg: Config, parts: seq<Part>)
    requires Fresh(parts) && Listed(cfg, parts).Some? && cfg.align > 0
    ensures forall i | 0 <= i < |Listed(cfg, parts).value| && Listed(cfg, parts).value[i].logical :: cfg.align >= SECTOR
  {
    hide SetupLogical, DiskIdsOk;
    var k := ListedShape(cfg, parts);
  }

  lemma SetupIsComplete(options: Config, children: Children, parts: seq<Part>)
    requires Fresh(parts) && Setup(options, children, parts).Some?
    ensures var l := Setup(options, children, parts).value;
            && l.cfg == Normalise(options)
            && Complete(l.cfg, children, Listed(l.cfg, parts).value, l)
  {
    hide Place, Sound, Predicted, SameOptions, Listed, TableEnd;
    var cfg := Normalise(options);
    var todo := Listed(cfg, parts).value;
    var k := ListedShape(cfg, parts);
    ListedExtended(cfg, todo, k);
    ListedAlign(cfg, parts);
    PlaceIsSound(cfg, children, Begin(cfg), todo);
    PlaceKeepsOrder(cfg, children, Begin(cfg), todo);
    FileSizeBelowNow(cfg, children, Begin(cfg), todo);
    var g := Place(cfg, children, Begin(cfg), todo).value;
    var l := Setup(options, children, parts).value;
    forall i | 0 <= i < |todo|
      ensures SameOptions(cfg, todo[i], l.parts[i])
      ensures Sound(cfg, children, l.parts[i]) && Predicted(cfg, children, l.parts[i], l.fileSize)
    {
      assert SameOptions(cfg, todo[i], g.done[0 + i]);
      PredictedMore(cfg, children, l.parts[i], g.fileSize, l.fileSize);
    }
  }

  // ------------------------------------------------- the areas of the tables

  // An offset, size or alignment from the configuration is used as it is.
  ghost predicate Explicit(cfg: Config, p: Part, r: Part) {
    && r.align == (if p.align != 0 then p.align else if r.inTable || cfg.table.NoTable? then cfg.align else 1)
    && (p.offset != 0 ==> r.offset == p.offset)
    && (p.size != 0 && !p.autoresize && !p.kind.Extended? ==> r.size == p.size)
  }

  lemma FitKeepsSize(cfg: Config, children: Children, g: Progress, p: Part)
    requires p.align > 0 && Fit(cfg, children, g, p).Some?
    ensures p.size != 0 && !p.autoresize ==> Fit(cfg, children, g, p).value.size == p.size
  {
  }

  lemma StepIsExplicit(cfg: Config, children: Children, g: Progress, p: Part) returns (r: Part)
    requires cfg.align > 0 && Step(cfg, children, g, p).Some?
    ensures var g' := Step(cfg, children, g, p).value;
            && |g'.done| == |g.done| + 1 && g'.done[|g.done|] == r
            && Explicit(cfg, p, r)
  {
    hide Step, Resolve, Fit, Fits, Stretch, Advance, SameOptions, DataEnd, HoldsImage;
    var start;
    r, start := StepIs(cfg, children, g, p);
    StepParts(cfg, children, g, p);
    KindIsKept(cfg, p, r);
    var p1 := Resolve(cfg, |g.done|, p).value;
    ResolveIs(cfg, |g.done|, p);
    KindIsKept(cfg, p, p1);
    FitKeepsSize(cfg, children, g, p1);
  }

  lemma {:induction false} PlaceIsExplicit(cfg: Config, children: Children, g: Progress, todo: seq<Part>)
    requires cfg.align > 0 && Place(cfg, children, g, todo).Some?
    ensures var g' := Place(cfg, children, g, todo).value;
            && |g'.done| == |g.done| + |todo|
            && forall i | 0 <= i < |todo| :: Explicit(cfg, todo[i], g'.done[|g.done| + i])
    decreases |todo|
  {
    hide Step, SameOptions;
    PlaceKeepsOrder(cfg, children, g, todo);
    if todo == [] {
    } else {
      var g1 := Step(cfg, children, g, todo[0]).value;
      var r := StepIsExplicit(cfg, children, g, todo[0]);
      PlaceIsExplicit(cfg, children, g1, todo[1..]);
      PlaceKeepsOrder(cfg, children, g1, todo[1..]);
      var d := Place(cfg, children, g, todo).value.done;
      assert SameOptions(cfg, todo[0], d[|g.done|]);
      assert Explicit(cfg, todo[0], d[|g.done|]) by {
        KindIsKept(cfg, todo[0], d[|g.done|]);
        assert Stays(r, d[|g.done|]);
      }
      forall i | 0 < i < |todo|
        ensures Explicit(cfg, todo[i], d[|g.done| + i])
      {
        assert Explicit(cfg, todo[1..][i - 1], d[|g1.done| + (i - 1)]);
      }
    }
  }

  lemma SetupIsExplicit(options: Config, children: Children, parts: seq<Part>)
    requires Fresh(parts) && Setup(options, children, parts).Some?
    ensures var l := Setup(options, children, parts).value;
            var todo := Listed(l.cfg, parts).value;
            |l.parts| == |todo| && forall i | 0 <= i < |todo| :: Explicit(l.cfg, todo[i], l.parts[i])
  {
    hide Place, Listed, Explicit;
    var cfg := Normalise(options);
    var todo := Listed(cfg, parts).value;
    PlaceIsExplicit(cfg, children, Begin(cfg), todo);
    var d := Place(cfg, children, Begin(cfg), todo).value.done;
    assert forall i | 0 <= i < |todo| :: Explicit(cfg, todo[i], d[0 + i]);
  }

  // The backup GPT is the last partition, and the image ends with it.
  lemma BackupStep(cfg: Config, children: Children, g: Progress)
    requires cfg.align > 0 && g.now >= TableEnd(cfg) > SECTOR && !cfg.table.NoTable?
    requires Step(cfg, children, g, BackupArea(cfg)).Some?
    ensures var g' := Step(cfg, children, g, BackupArea(cfg)).value;
            var r := g'.done[|g.done|];
            && r.size == GptBackupSize()
            && (cfg.imageSize == 0 ==> g'.now == r.End())
            && (cfg.imageSize != 0 && g'.now <= cfg.imageSize ==> r.End() == cfg.imageSize)
  {
    var p := BackupArea(cfg);
    var p1 := Resolve(cfg, |g.done|, p).value;
    assert p1 == p.(align := 1);
    var r := Fit(cfg, children, g, p1).value;
    RoundupIsLeastMultiple(g.now + p.size, 4096);
  }

  lemma TablesComeFirst(cfg: Config)
    ensures cfg.table.HasGpt() ==> TableEnd(cfg) > SECTOR && !cfg.table.NoTable?
  {
  }

  lemma LastArea(cfg: Config)
    ensures cfg.table.HasGpt() ==>
      && TableAreas(cfg) != [] && TableAreas(cfg)[|TableAreas(cfg)| - 1] == BackupArea(cfg)
      && BackupArea(cfg).kind == Backup && BackupArea(cfg).image == None
  {
  }

  // With a GPT, the last partition of a layout is the backup, and it ends
  // where the image ends.
  lemma SetupPlacesBackup(options: Config, children: Children, parts: seq<Part>)
    requires Fresh(parts) && Setup(options, children, parts).Some? && options.table.HasGpt()
    ensures var l := Setup(options, children, parts).value;
            && l.parts != []
            && l.parts[|l.parts| - 1].kind == Backup
            && l.parts[|l.parts| - 1].size == GptBackupSize()
            && l.parts[|l.parts| - 1].End() == l.imageSize
  {
    hide Step, BackupArea, SetupLogical, SameOptions, Sound, Predicted, Plain, Divided, DiskIdsOk, TableAreas, TableEnd;
    TablesComeFirst(Normalise(options));
    var cfg := Normalise(options);
    var todo := Listed(cfg, parts).value;
    var k := ListedShape(cfg, parts);
    ListedExtended(cfg, todo, k);
    ListedAlign(cfg, parts);
    LastArea(cfg);
    var front := todo[..|todo| - 1];
    assert todo == front + [BackupArea(cfg)];
    PlaceConcat(cfg, children, Begin(cfg), front, [BackupArea(cfg)]);
    var g := Place(cfg, children, Begin(cfg), front).value;
    FileSizeBelowNow(cfg, children, Begin(cfg), front);
    PlaceIsSound(cfg, children, Begin(cfg), front);
    BackupStep(cfg, children, g);
    var r := StepIsSound(cfg, children, g, BackupArea(cfg));
    PlaceKeepsOrder(cfg, children, Begin(cfg), todo);
    var d := Place(cfg, children, Begin(cfg), todo).value.done;
    KindIsKept(cfg, todo[|todo| - 1], d[0 + (|todo| - 1)]);
  }

  // ------------------------------------------------- entries of the MBR

  function CountEntries(table: TableType, parts: seq<Part>): nat {
    if parts == [] then 0
    else (if HasEntry(table, parts[0]) then 1 else 0) + CountEntries(table, parts[1..])
  }

  lemma {:induction false} CountEntriesConcat(table: TableType, a: seq<Part>, b: seq<Part>)
    ensures CountEntries(table, a + b) == CountEntries(table, a) + CountEntries(table, b)
    decreases |a|
  {
    if a == [] {
      assert a + b == b;
    } else {
      assert (a + b)[1..] == a[1..] + b;
      CountEntriesConcat(table, a[1..], b);
    }
  }

  lemma {:induction false} CountEntriesSame(table: TableType, a: seq<Part>, b: seq<Part>)
    requires |a| == |b| && forall i | 0 <= i < |a| :: HasEntry(table, a[i]) == HasEntry(table, b[i])
    ensures CountEntries(table, a) == CountEntries(table, b)
    decreases |a|
  {
    hide HasEntry;
    if a == [] {
    } else {
      CountEntriesSame(table, a[1..], b[1..]);
    }
  }

  // The list that is built, one partition at a time.
  lemma SplitUnfold(cfg: Config, index: nat, parts: seq<Part>, count: nat, entries: nat, inExtended: bool, found: bool)
    requires parts != [] && SplitLogical(cfg, index, parts, count, entries, inExtended, found).Some?
    ensures var p, s := parts[0], SplitLogical(cfg, index, parts, count, entries, inExtended, found).value;
            if !p.inTable then
              var rest := SplitLogical(cfg, index, parts[1..], count, entries, inExtended, found);
              rest.Some? && s == [p] + rest.value
            else
              var starts := index == count + 1;
              var inside := (inExtended || starts) && !p.forcedPrimary;
              var entries' := entries + (if starts then 1 else 0) + (if inside then 0 else 1);
              var rest := SplitLogical(cfg, index, parts[1..], count + 1, entries', inside, found || starts);
              && rest.Some? && entries' <= 4
              && s == if starts then [ExtendedPartition(cfg, p)] + ([p.(logical := inside)] + rest.value)
                      else [p.(logical := inside)] + rest.value
  {
    hide ExtendedPartition;
    var p := parts[0];
    if p.inTable {
      var starts := index == count + 1;
      var inside := (inExtended || starts) && !p.forcedPrimary;
      var entries' := entries + (if starts then 1 else 0) + (if inside then 0 else 1);
      var rest := SplitLogical(cfg, index, parts[1..], count + 1, entries', inside, found || starts).value;
      assert [ExtendedPartition(cfg, p)] + ([p.(logical := inside)] + rest) == [ExtendedPartition(cfg, p)] + [p.(logical := inside)] + rest;
      assert [] + [p.(logical := inside)] + rest == [p.(logical := inside)] + rest;
    }
  }

  lemma OneEntry(p: Part, s: seq<Part>)
    ensures CountEntries(Mbr, [p] + s) == (if p.inTable && !p.logical then 1 else 0) + CountEntries(Mbr, s)
  {
    assert ([p] + s)[1..] == s;
  }

  lemma {:induction false} NoEntries(table: TableType, parts: seq<Part>)
    requires forall i | 0 <= i < |parts| :: !parts[i].inTable
    ensures CountEntries(table, parts) == 0
    decreases |parts|
  {
    if parts == [] {
    } else {
      NoEntries(table, parts[1..]);
    }
  }

  // `mbr_entries` counts the entries of the list that is built.
  lemma {:induction false} SplitCounts(cfg: Config, index: nat, parts: seq<Part>, count: nat, entries: nat,
                                       inExtended: bool, found: bool)
    requires Fresh(parts) && entries <= 4
    requires SplitLogical(cfg, index, parts, count, entries, inExtended, found).Some?
    ensures entries + CountEntries(Mbr, SplitLogical(cfg, index, parts, count, entries, inExtended, found).value) <= 4
    decreases |parts|
  {
    if parts == [] {
      NoEntries(Mbr, []);
    } else {
      hide SplitLogical, CountEntries;
      SplitUnfold(cfg, index, parts, count, entries, inExtended, found);
      var p, rest := parts[0], parts[1..];
      if !p.inTable {
        SplitCounts(cfg, index, rest, count, entries, inExtended, found);
        OneEntry(p, SplitLogical(cfg, index, rest, count, entries, inExtended, found).value);
      } else {
        var starts := index == count + 1;
        var inside := (inExtended || starts) && !p.forcedPrimary;
        var entries' := entries + (if starts then 1 else 0) + (if inside then 0 else 1);
        SplitCounts(cfg, index, rest, count + 1, entries', inside, found || starts);
        var s := SplitLogical(cfg, index, rest, count + 1, entries', inside, found || starts).value;
        OneEntry(p.(logical := inside), s);
        if starts {
          OneEntry(ExtendedPartition(cfg, p), [p.(logical := inside)] + s);
        }
      }
    }
  }

  lemma {:induction false} CountInTableIsEntries(parts: seq<Part>)
    requires Fresh(parts)
    ensures CountEntries(Mbr, parts) == CountInTable(parts)
    decreases |parts|
  {
    if parts == [] {
    } else {
      CountInTableIsEntries(parts[1..]);
    }
  }

  lemma ListedEntries(cfg: Config, parts: seq<Part>)
    requires Fresh(parts) && Listed(cfg, parts).Some? && cfg.table == Mbr
    ensures CountEntries(Mbr, Listed(cfg, parts).value) <= 4
  {
    hide SplitLogical, DiskIdsOk, CountEntries, CountInTable;
    var split := SetupLogical(cfg, parts).value;
    CountEntriesConcat(Mbr, split, TableAreas(cfg));
    NoEntries(Mbr, TableAreas(cfg));
    if split == parts && ExtendedIndex(cfg, parts) == 0 {
      CountInTableIsEntries(parts);
    } else {
      SplitCounts(cfg, ExtendedIndex(cfg, parts), parts, 0, 0, false, false);
    }
  }

  lemma StepCounts(cfg: Config, children: Children, g: Progress, p: Part)
    requires cfg.align > 0 && Step(cfg, children, g, p).Some? && cfg.table.Hybrid?
    requires !p.logical
    ensures Step(cfg, children, g, p).value.hybridEntries == g.hybridEntries + (if HasEntry(Hybrid, p) then 1 else 0)
  {
    var r, start := StepIs(cfg, children, g, p);
    var p1 := Resolve(cfg, |g.done|, p).value;
    assert Fit(cfg, children, g, p1) == Some(r) by {
      hide Stretch, Resolve, Fit, NoOverlap;
      var g' := Step(cfg, children, g, p).value;
      assert g'.done[|g.done|] == r;
    }
  }

  // `hybrid_entries` counts the entries of a hybrid MBR.
  lemma {:induction false} PlaceCounts(cfg: Config, children: Children, g: Progress, todo: seq<Part>)
    requires cfg.align > 0 && Place(cfg, children, g, todo).Some? && cfg.table.Hybrid?
    requires Plain(todo)
    ensures Place(cfg, children, g, todo).value.hybridEntries == g.hybridEntries + CountEntries(Hybrid, todo)
    decreases |todo|
  {
    hide Step;
    if todo == [] {
    } else {
      StepCounts(cfg, children, g, todo[0]);
      PlaceCounts(cfg, children, Step(cfg, children, g, todo[0]).value, todo[1..]);
    }
  }

  lemma EntryIsKept(cfg: Config, p: Part, r: Part)
    requires SameOptions(cfg, p, r) && !cfg.table.NoTable?
    ensures HasEntry(cfg.table, p) == HasEntry(cfg.table, r)
  {
  }

  // The MBR has room for the entries of every layout: four, or three beside the
  // entry that protects the GPT.
  lemma MbrHasRoom(options: Config, children: Children, parts: seq<Part>)
    requires Fresh(parts) && Setup(options, children, parts).Some?
    ensures var l := Setup(options, children, parts).value;
            && (options.table == Mbr ==> CountEntries(Mbr, l.parts) <= 4)
            && (options.table == Hybrid ==> 1 <= CountEntries(Hybrid, l.parts) <= 3)
  {
    hide Place, Listed, SameOptions, CountEntries, Sound, Predicted, Plain;
    SetupIsComplete(options, children, parts);
    var l := Setup(options, children, parts).value;
    var todo := Listed(l.cfg, parts).value;
    if options.table == Mbr || options.table == Hybrid {
      forall i | 0 <= i < |todo|
        ensures HasEntry(options.table, todo[i]) == HasEntry(options.table, l.parts[i])
      {
        EntryIsKept(l.cfg, todo[i], l.parts[i]);
      }
      CountEntriesSame(options.table, todo, l.parts);
    }
    if options.table == Mbr {
      ListedEntries(l.cfg, parts);
    } else if options.table == Hybrid {
      var k := ListedShape(l.cfg, parts);
      PlaceCounts(l.cfg, children, Begin(l.cfg), todo);
    }
  }

  // The partitions of the table are primary ones, `[Extended]` at index e right
  // before its first partition, logical ones, and primary ones by force.
  ghost predicate InOrder(parts: seq<Part>, e: nat) {
    && e + 1 < |parts|
    && parts[e].kind.Extended? && parts[e].inTable && !parts[e].logical
    && parts[e + 1].inTable
    && (forall i | 0 <= i < |parts| :: i != e ==> !parts[i].kind.Extended?)
    && (forall i | 0 <= i < e :: !parts[i].logical)
    && (forall i | e < i < |parts| :: parts[i].inTable && !parts[i].logical ==> parts[i].forcedPrimary)
    && (forall i, j | e < i < j < |parts| :: parts[i].inTable && !parts[i].logical ==> !parts[j].logical)
  }

  lemma DividedIsInOrder(cfg: Config, todo: seq<Part>, k: nat)
    requires Divided(cfg, todo, k)
    ensures InOrder(todo, k)
  {
    forall i | 0 <= i < k
      ensures !todo[i].kind.Extended? && !todo[i].logical
    {
      assert todo[i] == todo[..k][i];
    }
    assert forall i | k < i < |todo| :: todo[i] == todo[k + 1..][i - k - 1];
    assert !todo[k + 1].kind.Extended?;
  }

  lemma OrderIsKept(cfg: Config, a: seq<Part>, b: seq<Part>, k: nat)
    requires |a| == |b| && !cfg.table.NoTable? && forall i | 0 <= i < |a| :: SameOptions(cfg, a[i], b[i])
    ensures InOrder(a, k) ==> InOrder(b, k)
    ensures Plain(a) ==> Plain(b)
  {
    forall i | 0 <= i < |a|
      ensures b[i].kind == a[i].kind && b[i].logical == a[i].logical && b[i].inTable == a[i].inTable
      ensures b[i].forcedPrimary == a[i].forcedPrimary
    {
      assert SameOptions(cfg, a[i], b[i]);
    }
    hide SameOptions;
  }

  lemma ListedWhenSetup(options: Config, children: Children, parts: seq<Part>)
    requires Setup(options, children, parts).Some?
    ensures var cfg := Normalise(options);
            Setup(options, children, parts).value.cfg == cfg && Listed(cfg, parts).Some? && cfg.table == options.table
  {
  }

  // The order of the partitions in a layout with an MBR.
  lemma SetupIsInOrder(options: Config, children: Children, parts: seq<Part>) returns (e: nat)
    requires Fresh(parts) && Setup(options, children, parts).Some? && options.table == Mbr
    ensures var l := Setup(options, children, parts).value;
            Plain(l.parts) || InOrder(l.parts, e)
  {
    hide Setup, Listed, SameOptions, Sound, Predicted, Plain, InOrder, Divided;
    SetupIsComplete(options, children, parts);
    var l := Setup(options, children, parts).value;
    ListedWhenSetup(options, children, parts);
    var todo := Listed(l.cfg, parts).value;
    e := ListedShape(l.cfg, parts);
    if !Plain(todo) {
      DividedIsInOrder(l.cfg, todo, e);
    }
    OrderIsKept(l.cfg, todo, l.parts, e);
  }
}
