/**
  `hdimage_setup` of `image-hd.c` and the functions it calls, on partition
  objects in a list. Each method is proved to do what HdLayout says.
 */
module HdSetup {
  import opened Bytes
  import opened Arith
  import opened Model
  import opened HdLayout
  import opened HdOverlap
  import opened HdShape
  import opened HdList
  import opened HdExact
  import Uuid

  lemma FieldsOfValue(part: Partition)
    ensures var p := part.Value();
            && p.inTable == part.inTable && p.partitionType == part.partitionType && p.autoresize == part.autoresize
            && p.align == part.align && p.kind == part.kind && p.logical == part.logical
            && p.offset == part.offset && p.size == part.size
  {
  }

  // `hdimage_setup` in its three parts.
  lemma SetupSteps(options: Config, children: Children, parts: seq<Part>)
    ensures var cfg, s := Normalise(options), Setup(options, children, parts);
            if Listed(cfg, parts).None? then s == None
            else
              var g := Place(cfg, children, Begin(cfg), Listed(cfg, parts).value);
              s == if g.None? then None else Finish(cfg, g.value)
  {
    hide Normalise, Listed, Place, Finish;
  }

  // The areas of the tables, one by one.
  lemma AreasAre(cfg: Config)
    ensures var areas := TableAreas(cfg);
            if cfg.table.NoTable? then areas == [] && TableEnd(cfg) == 0
            else
              && areas != [] && areas[0] == FakePartition("[MBR]", Fake, SECTOR - MBR_TAIL_SIZE, MBR_TAIL_SIZE)
              && if !cfg.table.HasGpt() then areas == [areas[0]] && TableEnd(cfg) == SECTOR
                 else
                   && |areas| == 4 && areas[1] == FakePartition("[GPT header]", Fake, SECTOR, SECTOR)
                   && areas[2] == FakePartition("[GPT array]", Fake, cfg.gptLocation, (GPT_SECTORS - 1) * SECTOR)
                   && areas[3] == BackupArea(cfg) && TableEnd(cfg) == cfg.gptLocation + (GPT_SECTORS - 1) * SECTOR
  {
    hide FakePartition, BackupArea;
  }

  lemma OneByOne(before: seq<Part>, areas: seq<Part>)
    requires |areas| == 4
    ensures before + [areas[0]] + [areas[1]] + [areas[2]] + [areas[3]] == before + areas
  {
  }

  // `struct hdimage`, together with the fields of `struct image` that it uses.
  class HdImage {
    const options: Config
    const children: Children
    var align: nat
    var gptLocation: nat
    var fileSize: nat
    var imageSize: nat
    var extended: Partition?
    var partitions: seq<Partition>

    constructor (options: Config, children: Children, partitions: seq<Partition>)
      ensures this.options == options && this.children == children && this.partitions == partitions
      ensures extended == null
    {
      this.options, this.children, this.partitions := options, children, partitions;
      align, gptLocation := options.align, options.gptLocation;
      imageSize, fileSize := options.imageSize, 0;
      extended := null;
    }

    // The options with the defaults that have been filled in.
    function Cfg(): (r: Config)
      reads this`align, this`gptLocation
      ensures r.align == align && r.table == options.table
    {
      options.(align := align, gptLocation := gptLocation)
    }

    // -------------------------------------------------- autoresize, image

    // `setup_part_autoresize`
    method SetupPartAutoresize(part: Partition, resized: bool) returns (ok: bool, resized': bool)
      requires part.align > 0
      modifies part`size
      ensures ok <==> Autoresize(Cfg(), resized, old(part.Value())).Some?
      ensures ok ==> part.Value() == Autoresize(Cfg(), resized, old(part.Value())).value
      ensures ok ==> resized' == (resized || part.autoresize)
      ensures ok && part.autoresize ==> Resizes(Cfg(), resized, old(part.Value()), part.Value())
      ensures !ok <==>
                && part.autoresize
                && (|| resized || options.imageSize == 0 || Limit(Cfg()) < part.offset + part.align
                    || Limit(Cfg()) - part.offset - (Limit(Cfg()) - part.offset) % part.align < old(part.size))
    {
      ghost var was := part.Value();
      if part.autoresize {
        ResizeFails(Cfg(), resized, was);
        Resized(Cfg(), resized, was);
      }
      resized' := resized;
      if !part.autoresize {
        return true, resized;
      }
      if resized || options.imageSize == 0 {
        return false, resized;
      }
      var partsize := options.imageSize - part.offset;
      if options.table.HasGpt() {
        partsize := partsize - GPT_SECTORS * SECTOR;
      }
      if partsize > 0 {
        partsize := Rounddown(partsize, part.align);
      }
      if partsize <= 0 || partsize < part.size {
        return false, resized;
      }
      part.size := partsize;
      return true, true;
    }

    // `setup_part_image`
    method SetupPartImage(part: Partition) returns (ok: bool)
      requires part.align > 0
      modifies part`size, this`fileSize
      ensures ok <==> FitImage(children, old(part.Value())).Some?
      ensures ok ==> part.Value() == FitImage(children, old(part.Value())).value
      ensures ok ==> fileSize == Max(old(fileSize), DataEnd(children, part.Value()))
      ensures ok ==> fileSize == if part.image == None then old(fileSize)
                                 else Max(old(fileSize), part.offset + Taken(children[part.image.value], part.imageoffset))
      ensures ok && part.image.Some? && old(part.size) == 0 ==>
                var taken := Taken(children[part.image.value], part.imageoffset);
                if part.inTable then RoundedUp(taken, part.align, part.size) else part.size == taken
    {
      if part.image.Some? && part.image.value in children {
        RoundedUpIff(Taken(children[part.image.value], part.imageoffset), part.align,
                     Roundup(Taken(children[part.image.value], part.imageoffset), part.align));
      }
      if part.image.None? {
        return true;
      }
      if part.image.value !in children {
        return false;
      }
      var child := children[part.image.value];
      var dataSize := 0;
      if child.size != 0 {
        if part.imageoffset > child.size {
          return false;
        }
        dataSize := child.size - part.imageoffset;
      }
      if part.size == 0 {
        part.size := if part.inTable then Roundup(dataSize, part.align) else dataSize;
      }
      if dataSize > part.size {
        return false;
      }
      if part.offset + dataSize > fileSize {
        fileSize := part.offset + dataSize;
      }
      ok := true;
    }

    // -------------------------------------------------- overlaps

    // `image_has_hole_covering`
    method ImageHasHoleCovering(image: Option<string>, start: nat, end: nat) returns (r: bool)
      ensures r == HasHoleCovering(children, image, start, end)
    {
      if image.None? || image.value !in children {
        return false;
      }
      var holes := children[image.value].holes;
      for i := 0 to |holes|
        invariant forall h | 0 <= h < i :: !(holes[h].start <= start && end <= holes[h].end)
      {
        if holes[i].start <= start && end <= holes[i].end {
          return true;
        }
      }
      r := false;
    }

    // `check_overlap` of partition n with those before it
    method CheckOverlap(n: nat) returns (ok: bool)
      requires n < |partitions|
      ensures ok == NoOverlap(children, Values(partitions[..n]), partitions[n].Value())
      ensures ok <==> forall i | 0 <= i < n :: Clear(children, partitions[i].Value(), partitions[n].Value())
    {
      forall i | 0 <= i < n
        ensures Clear(children, partitions[i].Value(), partitions[n].Value())
           <==> Compatible(children, Values(partitions[..n])[i], partitions[n].Value())
      {
        ClearIff(children, partitions[i].Value(), partitions[n].Value());
      }
      var p := partitions[n];
      ghost var done := Values(partitions[..n]);
      for i := 0 to n
        invariant forall k | 0 <= k < i :: Compatible(children, done[k], p.Value())
      {
        var q := partitions[i];
        if p.offset >= q.offset + q.size || q.offset >= p.offset + p.size {
          continue;
        }
        var start := Max(p.offset, q.offset);
        var end := Min(p.offset + p.size, q.offset + q.size);
        var covered := ImageHasHoleCovering(q.image, start - q.offset, end - q.offset);
        if !covered {
          assert !Compatible(children, done[i], p.Value());
          return false;
        }
      }
      ok := true;
    }

    // -------------------------------------------------- one partition

    // The defaults and the checks of the types and UUIDs at the beginning of
    // the loop body of `hdimage_setup`.
    method ResolvePartition(part: Partition, n: nat) returns (ok: bool)
      requires align > 0
      modifies part`inTable, part`align, part`typeUuid, part`uuid
      ensures ok <==> Resolve(Cfg(), n, old(part.Value())).Some?
      ensures ok ==> part.Value() == Resolve(Cfg(), n, old(part.Value())).value
    {
      hide Uuid.Valid, TypeUuid;
      ghost var p0 := part.Value();
      if options.table.NoTable? {
        part.inTable := false;
      }
      if part.align == 0 {
        part.align := if part.inTable || options.table.NoTable? then align else 1;
      }
      assert part.Value() == Defaults(Cfg(), p0);
      if part.typeUuid.Some? && !options.table.HasGpt() {
        return false;
      }
      if part.uuid.Some? && !options.table.HasGpt() {
        return false;
      }
      if part.partitionType != 0 && !options.table.HasMbr() {
        return false;
      }
      if options.table.HasGpt() && part.inTable {
        var typeUuid := TypeUuid(Cfg(), part.Value());
        if typeUuid.None? {
          return false;
        }
        part.typeUuid := typeUuid;
        if part.uuid.Some? {
          var valid := Uuid.UuidValidate(part.uuid.value);
          if valid == -1 {
            return false;
          }
        } else {
          part.uuid := Some(options.generated(n));
        }
      }
      ok := true;
    }

    // The offset of a partition, and the first free position behind its boot record.
    method ChooseOffset(part: Partition, now: nat) returns (start: nat)
      requires align > 0 && part.align > 0
      modifies part`offset
      ensures part.Value() == old(part.Value()).(offset := Offset(Cfg(), now, old(part.Value())))
      ensures start == Advance(Cfg(), now, old(part.Value()))
    {
      hide Roundup, BackupOffset;
      start := now;
      if part.logical {
        // the boot record comes first
        start := start + align;
        start := Roundup(start, part.align);
      }
      if part.kind == Backup && part.offset == 0 {
        BackupRoundup(start, part.size);
        start := start + part.size;
        part.offset := Roundup(start, 4096) - part.size;
      }
      if part.offset == 0 && (part.inTable || options.table.NoTable?) {
        part.offset := Roundup(start, part.align);
      }
    }

    // The part of the loop body that computes the offset and the size.
    method FitPartition(part: Partition, now: nat, resized: bool, ghost g: Progress)
      returns (ok: bool, start: nat, resized': bool)
      requires align > 0 && part.align > 0 && g.now == now && g.resized == resized
      modifies part`offset, part`size, this`fileSize
      ensures ok <==> Fit(Cfg(), children, g, old(part.Value())).Some?
      ensures ok ==> part.Value() == Fit(Cfg(), children, g, old(part.Value())).value
      ensures ok ==> start == Advance(Cfg(), now, old(part.Value()))
      ensures ok ==> resized' == (resized || part.autoresize)
      ensures ok ==> fileSize == Max(old(fileSize), DataEnd(children, part.Value()))
    {
      hide Autoresize, FitImage, DataEnd, Offset, Advance;
      resized' := resized;
      start := ChooseOffset(part, now);
      if part.offset % part.align != 0 {
        return false, start, resized';
      }
      ok, resized' := SetupPartAutoresize(part, resized);
      if !ok {
        return;
      }
      ok := SetupPartImage(part);
    }

    // `[Extended]` grows to the end of its last logical partition, which is partition n.
    method StretchExtended(n: nat, now: nat)
      requires n < |partitions| && Distinct(partitions)
      requires forall i | 0 <= i < |partitions| && partitions[i].kind.Extended? :: partitions[i] == extended
      requires extended != null && extended.kind.Extended? && extended in partitions[..n] && extended.offset <= now
      modifies extended`size
      ensures Values(partitions[..n + 1]) == Stretch(old(Values(partitions[..n])), now) + [old(partitions[n].Value())]
    {
      hide Stretch;
      ghost var done := Values(partitions[..n]);
      extended.size := now - extended.offset;
      StretchValues(partitions[..n], done, now);
      assert partitions[..n + 1] == partitions[..n] + [partitions[n]];
    }

    // The end of the loop body: the checks, and the growth of the file and of
    // the extended partition.
    method CheckPartition(n: nat, start: nat) returns (ok: bool, now: nat)
      requires n < |partitions| && Distinct(partitions)
      requires forall i | 0 <= i < |partitions| && partitions[i].kind.Extended? :: partitions[i] == extended
      requires extended != null ==> extended.kind.Extended?
      requires partitions[n].logical ==>
        extended != null && extended in partitions[..n] && extended.offset <= start && align <= start
      modifies this`fileSize, if extended != null && partitions[n].logical then {extended} else {}
      ensures var done, r := old(Values(partitions[..n])), old(partitions[n].Value());
              && (ok <==> Fits(children, done, start, r))
              && (ok ==>
                    && now == Max(start, r.End())
                    && Values(partitions[..n + 1]) == (if r.logical then Stretch(done, now) else done) + [r]
                    && fileSize == if r.logical then Max(old(fileSize), r.offset - align + SECTOR) else old(fileSize))
    {
      hide NoOverlap, Stretch, Partition.Value, Values;
      var part := partitions[n];
      ghost var done := Values(partitions[..n]);
      FieldsOfValue(part);
      now := start;
      if part.size == 0 && part != extended {
        return false, now;
      }
      if !part.logical {
        ok := CheckOverlap(n);
        if !ok {
          return;
        }
      } else if start > part.offset {
        return false, now;
      }
      if part.inTable && part.size % SECTOR != 0 {
        return false, now;
      }
      now := Max(start, part.offset + part.size);
      assert partitions[..n + 1] == partitions[..n] + [part];
      ValuesAppend(partitions[..n], part);
      if part.logical {
        if part.offset - align + SECTOR > fileSize {
          fileSize := part.offset - align + SECTOR;
        }
        StretchExtended(n, now);
      }
      ok := true;
    }

    // The loop body of `hdimage_setup` for partition n.
    method PlacePartition(n: nat, now: nat, resized: bool, hybridEntries: nat)
      returns (ok: bool, now': nat, resized': bool, hybridEntries': nat)
      requires align > 0 && n < |partitions| && Distinct(partitions)
      requires forall i | 0 <= i < |partitions| && partitions[i].kind.Extended? :: partitions[i] == extended
      requires extended != null ==> extended.kind.Extended?
      requires partitions[n].logical ==> extended != null && extended in partitions[..n] && extended.offset <= now
      modifies partitions[n], this`fileSize, if extended != null && partitions[n].logical then {extended} else {}
      ensures var g := Progress(old(Values(partitions[..n])), now, old(fileSize), resized, hybridEntries);
              var g' := Step(Cfg(), children, g, old(partitions[n].Value()));
              && (ok <==> g'.Some?)
              && (ok ==>
                    && Values(partitions[..n + 1]) == g'.value.done
                    && now' == g'.value.now && fileSize == g'.value.fileSize
                    && resized' == g'.value.resized && hybridEntries' == g'.value.hybridEntries)
    {
      hide Step, Resolve, Fit, Advance, Fits, Stretch, DataEnd, Partition.Value, Values;
      var part := partitions[n];
      ghost var done := Values(partitions[..n]);
      ghost var g := Progress(done, now, fileSize, resized, hybridEntries);
      now', resized', hybridEntries' := now, resized, hybridEntries;
      StepParts(Cfg(), children, g, part.Value());
      ok := ResolvePartition(part, n);
      if !ok {
        return;
      }
      FieldsOfValue(part);
      if options.table.HasGpt() && part.inTable && part.partitionType != 0 {
        hybridEntries' := hybridEntries' + 1;
      }
      AdvanceGrows(Cfg(), now, part.Value());
      var start;
      ok, start, resized' := FitPartition(part, now, resized, g);
      if !ok {
        return;
      }
      FieldsOfValue(part);
      assert Values(partitions[..n]) == done;
      ok, now' := CheckPartition(n, start);
    }

    // -------------------------------------------------- the list

    // `ensure_extended_partition_index`
    method EnsureExtendedPartitionIndex() returns (index: nat)
      ensures index == ExtendedIndex(Cfg(), Values(partitions))
      ensures index == if options.extendedIndex != 0 then options.extendedIndex
                       else if |TableParts(Values(partitions))| > 4 then 4 else 0
    {
      CountIsTable(Values(partitions));
      if options.extendedIndex != 0 {
        return options.extendedIndex;
      }
      ghost var parts := Values(partitions);
      var count: nat := 0;
      for i := 0 to |partitions|
        invariant count <= 4
        invariant count + CountInTable(parts[i..]) == CountInTable(parts)
      {
        assert parts[i..][0] == parts[i] && parts[i..][1..] == parts[i + 1..];
        if partitions[i].inTable {
          count := count + 1;
          if count > 4 {
            return 4;
          }
        }
      }
      return 0;
    }

    // A round of that loop for a partition of the table: what is inserted
    // before it, and how the counters change.
    method SplitOne(part: Partition, index: nat, count0: nat, entries0: nat, inExtended0: bool, found0: bool)
      returns (ok: bool, inserted: seq<Partition>, count: nat, entries: nat, inExtended: bool, found: bool)
      requires part.inTable
      modifies this`extended, part`logical
      ensures var p := old(part.Value());
              var s := SplitOutcome(Cfg(), index, p, count0, entries0, inExtended0, found0);
              && ok == s.ok
              && (if s.starts
                      then extended != null && fresh(extended) && inserted == [extended]
                           && extended.Value() == ExtendedPartition(Cfg(), p) && extended.kind == Kind.Extended
                  else extended == old(extended) && inserted == [])
              && count == count0 + 1 && entries == s.entries && inExtended == s.inside && found == (found0 || s.starts)
              && part.Value() == p.(logical := s.inside)
    {
      hide ExtendedPartition;
      count, entries, inExtended, found := count0 + 1, entries0, inExtended0, found0;
      inserted := [];
      if index == count {
        var p := new Partition(ExtendedPartition(Cfg(), part.Value()));
        extended := p;
        // `[Extended]` comes right before it
        inserted := [p];
        inExtended, found := true, true;
        entries := entries + 1;
      }
      if part.forcedPrimary {
        inExtended := false;
      }
      part.logical := inExtended && !part.forcedPrimary;
      if !part.logical {
        entries := entries + 1;
      }
      ok := true;
      if part.forcedPrimary {
        if !found {
          ok := false;
        }
      } else if !inExtended && found {
        ok := false;
      }
      if entries > 4 {
        ok := false;
      }
    }

    // The loop of `setup_logical_partitions`: head is the list up to the
    // partition at hand, with `[Extended]` inserted.
    method SplitList(index: nat) returns (ok: bool)
      requires Distinct(partitions) && Fresh(Values(partitions)) && extended == null
      modifies this`partitions, this`extended, partitions
      ensures var s := SplitLogical(Cfg(), index, old(Values(partitions)), 0, 0, false, false);
              && (ok <==> s.Some?)
              && (ok ==> Values(partitions) == s.value)
      ensures Distinct(partitions)
      ensures forall p | p in partitions :: p == extended || p in old(partitions)
      ensures extended != null ==> fresh(extended) && extended.kind.Extended?
    {
      hide ExtendedPartition, SplitLogical, Prepend, SplitOutcome, Partition.Value, Fresh, Values, Distinct;
      ghost var parts := Values(partitions);
      var list := partitions;
      var head: seq<Partition> := [];
      var count: nat, entries: nat, inExtended, found := 0, 0, false, false;
      NothingSplit(parts);
      PrependNothing(SplitLogical(Cfg(), index, parts, 0, 0, false, false));
      for j := 0 to |list|
        invariant partitions == list
        invariant Distinct(head) && forall p | p in head :: p == extended || p in list[..j]
        invariant extended != null ==> fresh(extended) && extended.kind.Extended?
        invariant extended == null || found
        invariant found ==> index <= count
        invariant forall k | j <= k < |list| :: list[k].Value() == parts[k]
        invariant SplitLogical(Cfg(), index, parts, 0, 0, false, false)
               == Prepend(Values(head), SplitLogical(Cfg(), index, parts[j..], count, entries, inExtended, found))
      {
        var part := list[j];
        NotBefore(list, j);
        assert list[..j + 1] == list[..j] + [part];
        assert part !in head;
        ghost var before := Values(head);
        assert parts[j..][0] == part.Value() && parts[j..][1..] == parts[j + 1..];
        assert part.Value().inTable == part.inTable by {
          FieldsOfValue(part);
        }
        SplitAdvance(Cfg(), index, parts[j..], count, entries, inExtended, found, before);
        if !part.inTable {
          Appended(head, part);
          head := head + [part];
        } else {
          ghost var p := part.Value();
          StartsOnce(Cfg(), index, p, count, entries, inExtended, found);
          var inserted;
          ok, inserted, count, entries, inExtended, found := SplitOne(part, index, count, entries, inExtended, found);
          if !ok {
            return;
          }
          assert Values(head) == before;
          if inserted != [] {
            Appended(head, inserted[0]);
            head := head + [inserted[0]];
          }
          Appended(head, part);
          head := head + [part];
          ghost var a, b := ExtendedPartition(Cfg(), p), part.Value();
          assert before + [a] + [b] == before + [a, b];
        }
      }
      assert parts[|list|..] == [];
      SplitNothing(Cfg(), index, count, entries, inExtended, found, Values(head));
      partitions := head;
      ok := true;
    }

    // `setup_logical_partitions`
    method SetupLogicalPartitions() returns (ok: bool)
      requires Distinct(partitions) && Fresh(Values(partitions)) && extended == null
      modifies this`partitions, this`extended, partitions
      ensures ok <==> SetupLogical(Cfg(), old(Values(partitions))).Some?
      ensures ok ==> Values(partitions) == SetupLogical(Cfg(), old(Values(partitions))).value
      ensures ok ==> Distinct(partitions)
      ensures ok ==> forall p | p in partitions :: p == extended || p in old(partitions)
      ensures extended != null ==> fresh(extended) && extended.kind.Extended?
    {
      if options.extendedIndex > 4 {
        return false;
      }
      if options.table != Mbr {
        return true;
      }
      var index := EnsureExtendedPartitionIndex();
      if index == 0 {
        return true;
      }
      ok := SplitList(index);
    }

    // -------------------------------------------------- the whole image

    // `list_add_tail` of a fake partition
    method Append(p: Part)
      requires Distinct(partitions) && !p.kind.Extended?
      modifies this`partitions
      ensures Values(partitions) == old(Values(partitions)) + [p]
      ensures forall q | q in partitions :: q in old(partitions) || (fresh(q) && !q.kind.Extended?)
      ensures Distinct(partitions)
    {
      var part := new Partition(p);
      Appended(partitions, part);
      partitions := partitions + [part];
    }

    // The fake partitions of `hdimage_setup`
    method AppendTableAreas() returns (now: nat)
      requires Distinct(partitions)
      modifies this`partitions
      ensures Values(partitions) == old(Values(partitions)) + TableAreas(Cfg())
      ensures now == TableEnd(Cfg())
      ensures forall p | p in partitions :: p in old(partitions) || (fresh(p) && !p.kind.Extended?)
      ensures Distinct(partitions)
    {
      hide FakePartition, BackupArea, Partition.Value, Values, Distinct, TableAreas, TableEnd;
      AreasAre(Cfg());
      ghost var before := Values(partitions);
      now := 0;
      if options.table.NoTable? {
        assert Values(partitions) + [] == Values(partitions);
        return;
      }
      Append(FakePartition("[MBR]", Fake, SECTOR - MBR_TAIL_SIZE, MBR_TAIL_SIZE));
      now := SECTOR;
      if options.table.HasGpt() {
        Append(FakePartition("[GPT header]", Fake, SECTOR, SECTOR));
        Append(FakePartition("[GPT array]", Fake, gptLocation, (GPT_SECTORS - 1) * SECTOR));
        now := gptLocation + (GPT_SECTORS - 1) * SECTOR;
        Append(BackupArea(Cfg()));
        ghost var areas := TableAreas(Cfg());
        OneByOne(before, areas);
      }
    }

    // The logical partitions, and behind the list the areas of the tables.
    method ExtendList() returns (ok: bool, now: nat)
      requires Distinct(partitions) && Fresh(Values(partitions)) && extended == null
      modifies this`fileSize, this`partitions, this`extended, partitions
      ensures var s := SetupLogical(Cfg(), old(Values(partitions)));
              && (ok <==> s.Some? && DiskIdsOk(Cfg()))
              && (ok ==> Values(partitions) == s.value + TableAreas(Cfg()))
      ensures ok ==> Distinct(partitions) && now == TableEnd(Cfg()) && now == fileSize
      ensures ok ==> forall i | 0 <= i < |partitions| :: fresh(partitions[i]) || partitions[i] in old(partitions)
      ensures ok ==> forall i | 0 <= i < |partitions| && partitions[i].kind.Extended? :: partitions[i] == extended
      ensures extended != null ==> fresh(extended) && extended.kind.Extended?
    {
      hide SetupLogical, TableAreas, TableEnd, DiskIdsOk, Partition.Value, Distinct, Values;
      now := 0;
      KindsOfFresh(partitions);
      ok := SetupLogicalPartitions();
      if !ok || !DiskIdsOk(Cfg()) {
        return false, now;
      }
      assert forall p | p in partitions :: fresh(p) || p in old(partitions);
      now := AppendTableAreas();
      fileSize := now;
    }

    // The first half of `hdimage_setup`: defaults, logical partitions, and the
    // areas of the tables.
    method PrepareList() returns (ok: bool, now: nat)
      requires Distinct(partitions) && Fresh(Values(partitions)) && extended == null
      requires align == options.align && gptLocation == options.gptLocation
      modifies this`align, this`gptLocation, this`fileSize, this`partitions, this`extended, partitions
      ensures ok <==> Listed(Normalise(options), old(Values(partitions))).Some?
      ensures ok ==> Cfg() == Normalise(options)
      ensures ok ==> Values(partitions) == Listed(Cfg(), old(Values(partitions))).value
      ensures ok ==> Distinct(partitions) && now == TableEnd(Cfg()) && now == fileSize
      ensures ok ==> forall i | 0 <= i < |partitions| :: fresh(partitions[i]) || partitions[i] in old(partitions)
      ensures ok ==> forall i | 0 <= i < |partitions| && partitions[i].kind.Extended? :: partitions[i] == extended
      ensures extended != null ==> fresh(extended) && extended.kind.Extended?
    {
      hide SetupLogical, TableAreas, TableEnd, DiskIdsOk, Partition.Value, Values, Distinct, Fresh;
      now := 0;
      if align == 0 {
        align := if options.table.NoTable? then 1 else SECTOR;
      }
      if gptLocation == 0 {
        gptLocation := 2 * SECTOR;
      }
      if !options.table.NoTable? && align % SECTOR != 0 {
        return false, now;
      }
      ok, now := ExtendList();
    }

    // `hd->extended_partition` points to the only extended partition in the list.
    ghost predicate PointsToExtended()
      reads this
    {
      forall i | 0 <= i < |partitions| && partitions[i].kind.Extended? :: partitions[i] == extended
    }

    // The only extended partition in the list is the object that
    // `hd->extended_partition` points to; it is at index k if there is one.
    ghost predicate Linked(k: nat)
      reads `partitions, `extended
    {
      && Distinct(partitions)
      && (forall i | 0 <= i < |partitions| && partitions[i].kind.Extended? :: partitions[i] == extended && i == k)
      && (extended != null ==> extended.kind.Extended?)
    }

    // A logical partition has `[Extended]` before it, at a position passed already.
    lemma FindContainer(k: nat, n: nat, now: nat, todo: seq<Part>)
      requires n < |partitions| == |todo| && todo[n] == partitions[n].Value()
      requires Plain(todo) || (Divided(Cfg(), todo, k) && partitions[k] == extended)
      requires Below(Values(partitions[..n]), now)
      ensures partitions[n].logical ==> extended != null && extended in partitions[..n] && extended.offset <= now
    {
      if partitions[n].logical {
        LogicalIsInside(Cfg(), todo, k, n);
        assert Values(partitions[..n])[k] == extended.Value();
        assert partitions[..n][k] == extended;
      }
    }

    // The loop body, for a list whose values are known from n on.
    method PlaceInList(n: nat, now: nat, resized: bool, hybridEntries: nat, ghost todo: seq<Part>, ghost k: nat)
      returns (ok: bool, now': nat, resized': bool, hybridEntries': nat)
      requires align > 0 && n < |partitions| == |todo| && Linked(k)
      requires forall i | n <= i < |partitions| :: partitions[i].Value() == todo[i]
      requires Below(Values(partitions[..n]), now)
      requires Plain(todo) || (Divided(Cfg(), todo, k) && partitions[k] == extended)
      modifies partitions[n], this`fileSize, if extended != null && partitions[n].logical then {extended} else {}
      ensures forall i | n < i < |partitions| :: partitions[i].Value() == todo[i]
      ensures var g := Progress(old(Values(partitions[..n])), now, old(fileSize), resized, hybridEntries);
              var g' := Step(Cfg(), children, g, todo[n]);
              && (ok <==> g'.Some?)
              && (ok ==>
                    && g'.value == Progress(Values(partitions[..n + 1]), now', fileSize, resized', hybridEntries')
                    && Below(Values(partitions[..n + 1]), now'))
    {
      hide Step, Partition.Value, Below, Divided, Plain, Values;
      ghost var g := Progress(Values(partitions[..n]), now, fileSize, resized, hybridEntries);
      FindContainer(k, n, now, todo);
      ok, now', resized', hybridEntries' := PlacePartition(n, now, resized, hybridEntries);
      if ok {
        StepKeepsBelow(Cfg(), children, g, todo[n]);
      }
    }

    // `[Extended]` is where the values say.
    lemma FindExtended(k: nat, todo: seq<Part>)
      requires Distinct(partitions) && todo == Values(partitions)
      requires forall i | 0 <= i < |partitions| && partitions[i].kind.Extended? :: partitions[i] == extended
      requires extended != null ==> extended.kind.Extended?
      requires Plain(todo) || Divided(Cfg(), todo, k)
      ensures Linked(k)
      ensures Plain(todo) || (k < |partitions| && todo[k].kind.Extended? && partitions[k] == extended)
    {
      assert forall i | 0 <= i < |partitions| :: todo[i].kind == partitions[i].kind;
      if Divided(Cfg(), todo, k) {
        assert partitions[k].kind.Extended?;
      }
    }

    // The loop of `hdimage_setup`
    method PlaceAll(now0: nat, ghost parts: seq<Part>) returns (ok: bool, now: nat, hybridEntries: nat)
      requires align > 0 && Fresh(parts)
      requires Distinct(partitions)
      requires forall i | 0 <= i < |partitions| && partitions[i].kind.Extended? :: partitions[i] == extended
      requires extended != null ==> extended.kind.Extended?
      requires Listed(Cfg(), parts) == Some(Values(partitions))
      requires now0 == fileSize == TableEnd(Cfg())
      modifies this`fileSize, partitions, if extended != null then {extended} else {}
      ensures var g := Place(Cfg(), children, Begin(Cfg()), old(Values(partitions)));
              && (ok <==> g.Some?)
              && (ok ==>
                    && Values(partitions) == g.value.done && now == g.value.now
                    && fileSize == g.value.fileSize && hybridEntries == g.value.hybridEntries)
    {
      hide Step, Place, Listed, TableEnd, Partition.Value, Below, Divided, Plain, Fresh, Linked, Values, Distinct;
      ghost var todo := Values(partitions);
      ghost var k := ListedShape(Cfg(), parts);
      FindExtended(k, todo);
      now, hybridEntries := now0, 0;
      var resized := false;
      NothingPlaced(partitions, todo);
      NothingBelow(now);
      for n := 0 to |partitions|
        invariant forall i | n <= i < |partitions| :: partitions[i].Value() == todo[i]
        invariant Below(Values(partitions[..n]), now)
        invariant Place(Cfg(), children, Begin(Cfg()), todo)
               == Place(Cfg(), children, Progress(Values(partitions[..n]), now, fileSize, resized, hybridEntries), todo[n..])
      {
        ghost var g := Progress(Values(partitions[..n]), now, fileSize, resized, hybridEntries);
        PlaceNext(Cfg(), children, g, todo, n);
        ok, now, resized, hybridEntries := PlaceInList(n, now, resized, hybridEntries, todo, k);
        if !ok {
          return;
        }
      }
      PlaceLast(Cfg(), children, Progress(Values(partitions), now, fileSize, resized, hybridEntries));
      assert todo[|partitions|..] == [] && partitions[..|partitions|] == partitions;
      ok := true;
    }

    // The end of `hdimage_setup`
    method FinishSetup(now: nat, hybridEntries: nat, ghost g: Progress) returns (ok: bool)
      requires g.now == now && g.fileSize == fileSize && g.hybridEntries == hybridEntries && imageSize == options.imageSize
      modifies this`imageSize, this`fileSize
      ensures var l := Finish(Cfg(), g);
              && (ok <==> l.Some?)
              && (ok ==>
                    && l.value.parts == g.done && l.value.cfg == Cfg()
                    && imageSize == l.value.imageSize && fileSize == l.value.fileSize)
    {
      if hybridEntries > 3 {
        return false;
      }
      if options.table.Hybrid? && hybridEntries == 0 {
        return false;
      }
      if imageSize > 0 && now > imageSize {
        return false;
      }
      if imageSize == 0 {
        imageSize := now;
      }
      if options.fill || (options.table.HasGpt() && !options.gptNoBackup) {
        fileSize := imageSize;
      }
      ok := true;
    }

    // `hdimage_setup`
    method HdimageSetup() returns (ok: bool)
      requires Distinct(partitions) && Fresh(Values(partitions)) && extended == null
      requires imageSize == options.imageSize && align == options.align && gptLocation == options.gptLocation
      modifies this, partitions
      ensures var l := Setup(options, children, old(Values(partitions)));
              && (ok <==> l.Some?)
              && (ok ==>
                    && Values(partitions) == l.value.parts && Cfg() == l.value.cfg
                    && imageSize == l.value.imageSize && fileSize == l.value.fileSize
                    && Distinct(partitions) && PointsToExtended())
    {
      hide Setup, Finish, Normalise, Listed, Place, TableEnd, Partition.Value, Values, Distinct;
      ghost var parts := Values(partitions);
      SetupSteps(options, children, parts);
      var now, hybridEntries;
      ok, now := PrepareList();
      if !ok {
        return;
      }
      ghost var g := Place(Cfg(), children, Begin(Cfg()), Values(partitions));
      ok, now, hybridEntries := PlaceAll(now, parts);
      if !ok {
        return;
      }
      ok := FinishSetup(now, hybridEntries, g.value);
    }
  }

  lemma KindsOfFresh(list: seq<Partition>)
    requires Fresh(Values(list))
    ensures forall p | p in list :: !p.kind.Extended?
  {
    forall p | p in list
      ensures !p.kind.Extended?
    {
      var i :| 0 <= i < |list| && list[i] == p;
      assert Values(list)[i].kind == p.kind;
    }
  }

  lemma PlaceNext(cfg: Config, children: Children, g: Progress, todo: seq<Part>, n: nat)
    requires cfg.align > 0 && n < |todo|
    ensures var g' := Step(cfg, children, g, todo[n]);
            Place(cfg, children, g, todo[n..]) == if g'.None? then None else Place(cfg, children, g'.value, todo[n + 1..])
  {
    hide Step;
    assert todo[n..][0] == todo[n] && todo[n..][1..] == todo[n + 1..];
  }

  lemma PlaceLast(cfg: Config, children: Children, g: Progress)
    requires cfg.align > 0
    ensures Place(cfg, children, g, []) == Some(g)
  {
  }

  lemma NothingPlaced(list: seq<Partition>, todo: seq<Part>)
    ensures todo[0..] == todo && Values(list[..0]) == []
  {
  }

  lemma NothingBelow(now: nat)
    ensures Below([], now)
  {
  }

  // A logical partition comes behind `[Extended]`.
  lemma LogicalIsInside(cfg: Config, todo: seq<Part>, k: nat, n: nat)
    requires n < |todo| && todo[n].logical
    requires Plain(todo) || Divided(cfg, todo, k)
    ensures k < n && todo[k].kind.Extended?
  {
    if Divided(cfg, todo, k) {
      forall i | 0 <= i < k
        ensures !todo[i].logical
      {
        assert todo[i] == todo[..k][i];
      }
    }
  }

  lemma DistinctAppend(head: seq<Partition>, p: Partition)
    requires Distinct(head) && p !in head
    ensures Distinct(head + [p])
  {
    var list := head + [p];
    forall i, j | 0 <= i < j < |list|
      ensures list[i] != list[j]
    {
      assert list[i] == head[i];
    }
  }

  // One more object behind a list.
  lemma Appended(head: seq<Partition>, p: Partition)
    requires Distinct(head) && p !in head
    ensures Distinct(head + [p]) && Values(head + [p]) == Values(head) + [p.Value()]
    ensures forall q | q in head + [p] :: q == p || q in head
  {
    DistinctAppend(head, p);
    ValuesAppend(head, p);
  }

  lemma NothingSplit(parts: seq<Part>)
    ensures parts[0..] == parts && Values([]) == [] && Distinct([])
  {
  }

  lemma SplitAdvance(cfg: Config, index: nat, parts: seq<Part>, count: nat, entries: nat, inExtended: bool,
                     found: bool, done: seq<Part>)
    requires parts != []
    ensures var p, all := parts[0], Prepend(done, SplitLogical(cfg, index, parts, count, entries, inExtended, found));
            if !p.inTable then
              all == Prepend(done + [p], SplitLogical(cfg, index, parts[1..], count, entries, inExtended, found))
            else
              var s := SplitOutcome(cfg, index, p, count, entries, inExtended, found);
              if !s.ok then all == None
              else if s.starts then
                all == Prepend(done + [ExtendedPartition(cfg, p), p.(logical := s.inside)],
                               SplitLogical(cfg, index, parts[1..], count + 1, s.entries, s.inside, true))
              else
                all == Prepend(done + [p.(logical := s.inside)],
                               SplitLogical(cfg, index, parts[1..], count + 1, s.entries, s.inside, found))
  {
    hide SplitLogical, Prepend, SplitOutcome, ExtendedPartition;
    SplitStep(cfg, index, parts, count, entries, inExtended, found);
    var p := parts[0];
    PrependMore(done, [], None);
    if !p.inTable {
      PrependMore(done, [p], SplitLogical(cfg, index, parts[1..], count, entries, inExtended, found));
    } else {
      var s := SplitOutcome(cfg, index, p, count, entries, inExtended, found);
      var added := (if s.starts then [ExtendedPartition(cfg, p)] else []) + [p.(logical := s.inside)];
      assert added == if s.starts then [ExtendedPartition(cfg, p), p.(logical := s.inside)] else [p.(logical := s.inside)];
      PrependMore(done, added, SplitLogical(cfg, index, parts[1..], count + 1, s.entries, s.inside, found || s.starts));
    }
  }

  lemma SplitNothing(cfg: Config, index: nat, count: nat, entries: nat, inExtended: bool, found: bool, done: seq<Part>)
    ensures Prepend(done, SplitLogical(cfg, index, [], count, entries, inExtended, found)) == Some(done)
  {
    assert done + [] == done;
  }

  lemma StartsOnce(cfg: Config, index: nat, p: Part, count: nat, entries: nat, inExtended: bool, found: bool)
    requires found ==> index <= count
    ensures var s := SplitOutcome(cfg, index, p, count, entries, inExtended, found);
            && (s.starts ==> !found)
            && (s.starts ==> index <= count + 1)
  {
  }

  // Stretching the object of the extended partition stretches it in the list.
  lemma StretchValues(list: seq<Partition>, done: seq<Part>, now: nat)
    requires |done| == |list|
    requires forall i | 0 <= i < |list| && done[i].kind.Extended? :: done[i].offset <= now
    requires forall i | 0 <= i < |list| ::
      list[i].Value() == if done[i].kind.Extended? then done[i].(size := now - done[i].offset) else done[i]
    ensures Values(list) == Stretch(done, now)
  {
  }

  lemma AdvanceGrows(cfg: Config, now: nat, p: Part)
    requires cfg.align > 0 && p.align > 0
    ensures now <= Advance(cfg, now, p)
    ensures p.logical ==> cfg.align <= Advance(cfg, now, p)
  {
    ReserveGrows(cfg, now, p);
  }

  lemma BackupRoundup(now: nat, size: nat)
    ensures Roundup(now + size, 4096) - size == BackupOffset(now, size)
  {
    if now + size == 0 {
      RoundupZero(4096);
    }
  }
}
