/**
  The chain of extended boot records in the output, as a reader follows it that
  only knows where the extended partition begins.
 */
module EbrChain {
  import opened Bytes
  import opened Files
  import opened Arith
  import opened Model
  import opened HdLayout
  import opened HdOverlap
  import opened HdShape
  import opened Records
  import opened HdWriter
  import opened HdContent

  // ------------------------------------------------- the first logical partition

  lemma Associate(x: nat, y: nat, z: nat)
    ensures x * (y * z) == (x * y) * z
  {
  }

  lemma DivisibleTrans(n: nat, a: nat, b: nat)
    requires a > 0 && b > 0 && n % a == 0 && a % b == 0
    ensures n % b == 0
  {
    DivMod(n, a);
    DivMod(a, b);
    assert n == (n / a) * ((a / b) * b) == ((n / a) * (a / b)) * b by {
      Associate(n / a, a / b, b);
    }
    MultipleMod((n / a) * (a / b), b);
  }

  lemma StretchKeepsOffsets(done: seq<Part>, now: nat)
    ensures var s := Stretch(done, now); forall i | 0 <= i < |done| :: s[i].offset == done[i].offset
  {
  }

  lemma ExtendedPlace(cfg: Config, children: Children, now: nat, start: nat, first: Part, e: Part)
    requires cfg.align > 0 && !cfg.table.NoTable? && now > 0
    requires Placed(cfg, children, now, start, ExtendedPartition(cfg, first), e)
    ensures start == now && !e.logical && e.size == 0
    ensures first.offset > cfg.align ==> e.offset == first.offset - cfg.align
    ensures 0 < first.offset < cfg.align ==> e.offset + cfg.align > first.offset
    ensures first.offset == 0 || first.offset == cfg.align ==> e.offset == Roundup(now, cfg.align) && e.offset >= now
  {
    RoundupIsLeastMultiple(now, cfg.align);
  }

  lemma FirstPlace(cfg: Config, children: Children, now: nat, start: nat, first: Part, r: Part)
    requires cfg.align > 0 && !cfg.table.NoTable?
    requires first.logical && first.inTable && first.kind == Configured
    requires Placed(cfg, children, now, start, first, r)
    ensures r.align > 0 && r.logical
    ensures start == Roundup(now + cfg.align, r.align) && start >= now + cfg.align
    ensures first.offset != 0 ==> r.offset == first.offset
    ensures first.offset == 0 ==> r.offset == start
  {
    RoundupIsLeastMultiple(now + cfg.align, r.align);
    RoundupMultiple(start, r.align);
  }

  // When the first partition behind `[Extended]` is logical, its distance from
  // there is the image alignment, unless it had to be moved further.
  lemma FirstDistance(cfg: Config, children: Children, g: Progress, g1: Progress, g2: Progress, first: Part)
    returns (e: Part, r: Part)
    requires cfg.align > 0 && !cfg.table.NoTable? && g.now > 0
    requires first.logical && first.inTable && first.kind == Configured
    requires Step(cfg, children, g, ExtendedPartition(cfg, first)) == Some(g1)
    requires Step(cfg, children, g1, first) == Some(g2)
    ensures g1.done == g.done + [e] && |g2.done| == |g.done| + 2
    ensures g2.done[|g.done|].offset == e.offset && g2.done[|g.done| + 1] == r
    ensures if first.offset != 0 then r.offset == e.offset + cfg.align
            else e.offset == Roundup(g.now, cfg.align) && r.offset == Roundup(e.offset + cfg.align, r.align)
    ensures r.align > 0
  {
    hide Step, Fits, Placed, ExtendedPartition, Stretch;
    var start1, start;
    e, start1 := StepIs(cfg, children, g, ExtendedPartition(cfg, first));
    r, start := StepIs(cfg, children, g1, first);
    ExtendedPlace(cfg, children, g.now, start1, first, e);
    FirstPlace(cfg, children, g1.now, start, first, r);
    FitsLogical(children, g1.done, start, r);
    assert start1 == g.now;
    assert g1.now == Max(g.now, e.offset);
    StretchKeepsOffsets(g1.done, g2.now);
  }

  // `[Extended]` is at index e, and a logical partition follows.
  ghost predicate HasChain(parts: seq<Part>, e: nat) {
    InOrder(parts, e) && parts[e + 1].logical
  }

  lemma NoneInTail(cfg: Config, todo: seq<Part>, k: nat, tail: seq<Part>)
    requires Divided(cfg, todo, k) && tail == todo[k + 2..]
    ensures forall i | 0 <= i < |tail| :: !tail[i].kind.Extended?
  {
    forall i | 0 <= i < |tail|
      ensures !tail[i].kind.Extended?
    {
      assert tail[i] == todo[k + 1..][i + 1];
    }
  }

  lemma SetupIsPlace(options: Config, children: Children, parts: seq<Part>)
    requires Setup(options, children, parts).Some?
    ensures var l := Setup(options, children, parts).value;
            && l.cfg == Normalise(options) && Listed(l.cfg, parts).Some?
            && Place(l.cfg, children, Begin(l.cfg), Listed(l.cfg, parts).value).Some?
            && l.parts == Place(l.cfg, children, Begin(l.cfg), Listed(l.cfg, parts).value).value.done
  {
    hide Place, Listed;
  }

  lemma DividedParts(cfg: Config, todo: seq<Part>, k: nat)
    requires Divided(cfg, todo, k)
    ensures k + 1 < |todo| && Plain(todo[..k]) && todo[k] == ExtendedPartition(cfg, todo[k + 1])
    ensures todo == todo[..k] + ([todo[k]] + ([todo[k + 1]] + todo[k + 2..]))
  {
  }

  lemma NotTwice(parts: seq<Part>, e: nat)
    requires InOrder(parts, e)
    ensures !parts[e + 1].kind.Extended? && parts[e + 1].inTable
  {
  }

  lemma ChainFacts(parts: seq<Part>, e: nat)
    requires HasChain(parts, e)
    ensures e + 1 < |parts| && parts[e].kind.Extended? && parts[e + 1].logical
  {
  }

  lemma PlainHasNone(parts: seq<Part>, e: nat)
    requires e < |parts| && parts[e].kind.Extended?
    ensures !Plain(parts)
  {
  }

  lemma OneExtended(parts: seq<Part>, k: nat, e: nat)
    requires InOrder(parts, k) && e < |parts| && parts[e].kind.Extended?
    ensures k == e
  {
  }

  lemma LogicalIsKept(cfg: Config, p: Part, r: Part)
    requires SameOptions(cfg, p, r)
    ensures r.logical == p.logical
  {
  }

  lemma ChainIsDivided(cfg: Config, todo: seq<Part>, final: seq<Part>, k: nat, e: nat)
    requires Plain(todo) || Divided(cfg, todo, k)
    requires |todo| == |final| && !cfg.table.NoTable? && forall i | 0 <= i < |todo| :: SameOptions(cfg, todo[i], final[i])
    requires HasChain(final, e)
    ensures Divided(cfg, todo, k) && k == e
    ensures todo[k + 1].logical && todo[k + 1].inTable && !todo[k + 1].kind.Extended?
  {
    hide SameOptions, Plain, Divided, InOrder;
    assert final[e + 1].logical && final[e].kind.Extended? && e + 1 < |final| by {
      ChainFacts(final, e);
    }
    OrderIsKept(cfg, todo, final, k);
    if Plain(todo) {
      PlainHasNone(final, e);
    }
    DividedIsInOrder(cfg, todo, k);
    OneExtended(final, k, e);
    LogicalIsKept(cfg, todo[e + 1], final[e + 1]);
    NotTwice(todo, k);
  }

  // Only partitions of the configuration are logical.
  lemma LogicalIsConfigured(cfg: Config, parts: seq<Part>, i: nat)
    requires Fresh(parts) && Listed(cfg, parts).Some? && i < |Listed(cfg, parts).value|
    requires Listed(cfg, parts).value[i].logical && !Listed(cfg, parts).value[i].kind.Extended?
    ensures Listed(cfg, parts).value[i].kind == Configured
  {
    hide SplitLogical, DiskIdsOk, TableAreas;
    var split := SetupLogical(cfg, parts).value;
    AreasAreBare(cfg);
    if i < |split| && split != parts {
      SplitKinds(cfg, ExtendedIndex(cfg, parts), parts, 0, 0, false, false);
    }
  }

  // The list of a layout with a chain, split at `[Extended]`.
  lemma ChainSplit(options: Config, children: Children, parts: seq<Part>, l: Layout, e: nat)
    returns (pre: seq<Part>, first: Part, tail: seq<Part>)
    requires Accepted(options, children, parts, l) && options.table == Mbr && HasChain(l.parts, e)
    ensures l.cfg.align > 0 && l.cfg.table == Mbr
    ensures Listed(l.cfg, parts).Some? && |Listed(l.cfg, parts).value| == |l.parts| && e + 1 < |l.parts|
    ensures pre == Listed(l.cfg, parts).value[..e] && Plain(pre) && first == Listed(l.cfg, parts).value[e + 1]
    ensures first.logical && first.inTable && first.kind == Configured && forall i | 0 <= i < |tail| :: !tail[i].kind.Extended?
    ensures var g := Place(l.cfg, children, Begin(l.cfg), pre);
            && g.Some? && |g.value.done| == e
            && var all := Place(l.cfg, children, g.value, [ExtendedPartition(l.cfg, first)] + ([first] + tail));
               all.Some? && all.value.done == l.parts
  {
    hide Setup, Step, Place, Listed, SameOptions, Sound, Predicted, Plain, Divided, HasChain, Stays;
    hide ExtendedPartition, TableEnd;
    ListedWhenSetup(options, children, parts);
    SetupIsComplete(options, children, parts);
    SetupIsPlace(options, children, parts);
    var cfg, todo := l.cfg, Listed(l.cfg, parts).value;
    var k := ListedShape(cfg, parts);
    ChainIsDivided(cfg, todo, l.parts, k, e);
    DividedParts(cfg, todo, k);
    LogicalIsConfigured(cfg, parts, e + 1);
    pre, first, tail := todo[..k], todo[k + 1], todo[k + 2..];
    NoneInTail(cfg, todo, k, tail);
    PlaceConcat(cfg, children, Begin(cfg), pre, [todo[k]] + ([first] + tail));
    PlaceKeepsOrder(cfg, children, Begin(cfg), pre);
  }

  // Where the partitions before `[Extended]` end.
  function EndBefore(cfg: Config, children: Children, parts: seq<Part>, e: nat): nat
    requires cfg.align > 0 && Listed(cfg, parts).Some? && e <= |Listed(cfg, parts).value|
  {
    var g := Place(cfg, children, Begin(cfg), Listed(cfg, parts).value[..e]);
    if g.Some? then g.value.now else 0
  }

  lemma PlaceFirst(cfg: Config, children: Children, g: Progress, first: Part, tail: seq<Part>)
    requires cfg.align > 0 && !cfg.table.NoTable? && g.now > 0
    requires first.logical && first.inTable && first.kind == Configured
    requires Place(cfg, children, g, [ExtendedPartition(cfg, first)] + ([first] + tail)).Some?
    ensures var d := Place(cfg, children, g, [ExtendedPartition(cfg, first)] + ([first] + tail)).value.done;
            && |d| >= |g.done| + 2
            && var ext, r := d[|g.done|], d[|g.done| + 1];
               && r.align > 0
               && if first.offset != 0 then r.offset == ext.offset + cfg.align
                  else ext.offset == Roundup(g.now, cfg.align) && r.offset == Roundup(ext.offset + cfg.align, r.align)
  {
    hide Step, ExtendedPartition, SameOptions, Roundup;
    var ext := ExtendedPartition(cfg, first);
    assert ([ext] + ([first] + tail))[1..] == [first] + tail;
    assert ([first] + tail)[1..] == tail;
    var g1 := Step(cfg, children, g, ext).value;
    assert Place(cfg, children, g, [ext] + ([first] + tail)) == Place(cfg, children, g1, [first] + tail);
    var g2 := Step(cfg, children, g1, first).value;
    var x, r := FirstDistance(cfg, children, g, g1, g2, first);
    assert Place(cfg, children, g1, [first] + tail) == Place(cfg, children, g2, tail);
    PlaceKeepsOrder(cfg, children, g2, tail);
  }

  lemma MbrNow(cfg: Config, children: Children, pre: seq<Part>)
    requires cfg.align > 0 && cfg.table == Mbr && Place(cfg, children, Begin(cfg), pre).Some?
    requires Plain(pre)
    ensures Place(cfg, children, Begin(cfg), pre).value.now > 0
  {
    hide Place;
    FileSizeBelowNow(cfg, children, Begin(cfg), pre);
    PlaceIsSound(cfg, children, Begin(cfg), pre);
  }

  // Where the first logical partition is, as the configuration decides: an
  // explicit offset leaves exactly the image alignment for its boot record.
  lemma SetupFirst(options: Config, children: Children, parts: seq<Part>, l: Layout, e: nat)
    requires Accepted(options, children, parts, l) && options.table == Mbr && HasChain(l.parts, e)
    ensures l.cfg.align > 0 && Listed(l.cfg, parts).Some? && |Listed(l.cfg, parts).value| == |l.parts|
    ensures var ext, first := l.parts[e], l.parts[e + 1];
            && first.align > 0
            && if Listed(l.cfg, parts).value[e + 1].offset != 0
               then first.offset == ext.offset + l.cfg.align
               else
                 && ext.offset == Roundup(EndBefore(l.cfg, children, parts, e), l.cfg.align)
                 && first.offset == Roundup(ext.offset + l.cfg.align, first.align)
  {
    hide Setup, Step, Place, Listed, HasChain, ExtendedPartition, TableEnd, Plain, Accepted;
    var pre, first, tail := ChainSplit(options, children, parts, l, e);
    MbrNow(l.cfg, children, pre);
    PlaceFirst(l.cfg, children, Place(l.cfg, children, Begin(l.cfg), pre).value, first, tail);
  }

  // ------------------------------------------------- whole sectors

  // The alignment of a partition of the table is a multiple of the image
  // alignment; `hdimage_setup` reports it if not, but goes on.
  ghost predicate Aligned(cfg: Config, parts: seq<Part>)
    requires cfg.align > 0
  {
    forall i | 0 <= i < |parts| && parts[i].inTable :: parts[i].align % cfg.align == 0
  }

  lemma SelfDivides(n: nat)
    requires n > 0
    ensures n % n == 0
  {
  }

  lemma {:induction false} SplitAligned(cfg: Config, index: nat, parts: seq<Part>, count: nat, entries: nat,
                                        inExtended: bool, found: bool)
    requires cfg.align > 0 && Aligned(cfg, parts)
    requires SplitLogical(cfg, index, parts, count, entries, inExtended, found).Some?
    ensures Aligned(cfg, SplitLogical(cfg, index, parts, count, entries, inExtended, found).value)
    decreases |parts|
  {
    if parts == [] {
    } else {
      var p, rest := parts[0], parts[1..];
      if !p.inTable {
        SplitAligned(cfg, index, rest, count, entries, inExtended, found);
      } else {
        var starts := index == count + 1;
        var inside := (inExtended || starts) && !p.forcedPrimary;
        var entries' := entries + (if starts then 1 else 0) + (if inside then 0 else 1);
        SplitAligned(cfg, index, rest, count + 1, entries', inside, found || starts);
        SelfDivides(cfg.align);
      }
    }
  }

  lemma ListedAligned(cfg: Config, parts: seq<Part>)
    requires cfg.align > 0 && Aligned(cfg, parts) && Listed(cfg, parts).Some?
    ensures Aligned(cfg, Listed(cfg, parts).value)
  {
    hide SplitLogical, DiskIdsOk, TableAreas;
    AreasAreBare(cfg);
    var split := SetupLogical(cfg, parts).value;
    if split != parts {
      SplitAligned(cfg, ExtendedIndex(cfg, parts), parts, 0, 0, false, false);
    }
  }

  // Partitions of the table begin at sectors, and are whole sectors long.
  lemma WholeSectors(options: Config, children: Children, parts: seq<Part>, l: Layout, i: nat)
    requires Accepted(options, children, parts, l) && !options.table.NoTable?
    requires i < |l.parts| && l.parts[i].inTable && Aligned(Normalise(options), parts)
    ensures l.parts[i].offset % SECTOR == 0 && l.parts[i].offset % l.cfg.align == 0
    ensures !l.parts[i].kind.Extended? ==> l.parts[i].size % SECTOR == 0
  {
    hide Setup, Listed, Predicted, Normalise;
    ListedWhenSetup(options, children, parts);
    SetupIsComplete(options, children, parts);
    SetupIsExplicit(options, children, parts);
    AlignIsSectors(options, children, parts);
    ListedAligned(l.cfg, parts);
    var p, r := Listed(l.cfg, parts).value[i], l.parts[i];
    assert SameOptions(l.cfg, p, r) && Explicit(l.cfg, p, r) && Sound(l.cfg, children, r);
    SelfDivides(l.cfg.align);
    assert r.align % l.cfg.align == 0;
    DivisibleTrans(r.offset, r.align, l.cfg.align);
    DivisibleTrans(r.offset, l.cfg.align, SECTOR);
  }

  // ------------------------------------------------- the reader

  datatype Found = Found(partitionType: nat, start: nat, size: nat)

  predicate HasSignature(disk: seq<byte>, pos: nat) {
    pos + SECTOR <= |disk| && disk[pos + 510] == 0x55 && disk[pos + 511] == 0xaa
  }

  // Follow the chain from the boot record at pos: the first entry counts from
  // this record, the second from the beginning of the extended partition.
  function Walk(disk: seq<byte>, ext: nat, pos: nat, fuel: nat): seq<Found>
    decreases fuel
  {
    if fuel == 0 || !HasSignature(disk, pos) then []
    else
      var a, b := ReadSlot(disk[pos + 446..pos + 462]), ReadSlot(disk[pos + 462..pos + 478]);
      [Found(a.partitionType, pos + SECTOR * a.start, SECTOR * a.sectors)]
      + if b.partitionType == 0x0f then Walk(disk, ext, ext + SECTOR * b.start, fuel - 1) else []
  }

  // The logical partitions of a layout from index i on.
  function Logicals(parts: seq<Part>, i: nat): seq<Found>
    decreases |parts| - i
  {
    if i >= |parts| then []
    else
      (if parts[i].logical then [Found(parts[i].partitionType, parts[i].offset, parts[i].size)] else [])
      + Logicals(parts, i + 1)
  }

  lemma {:induction false} LogicalsAreNext(parts: seq<Part>, i: nat)
    requires i < |parts|
    ensures var next := NextLogical(parts, i);
            Logicals(parts, i + 1) == if next.None? then [] else Logicals(parts, next.value)
    decreases |parts| - i
  {
    if i + 1 == |parts| || parts[i + 1].logical {
    } else {
      LogicalsAreNext(parts, i + 1);
      assert [] + Logicals(parts, i + 2) == Logicals(parts, i + 2);
    }
  }

  // A logical partition, and those behind it.
  lemma LogicalsFrom(parts: seq<Part>, i: nat)
    requires i < |parts| && parts[i].logical
    ensures var p, next := parts[i], NextLogical(parts, i);
            Logicals(parts, i)
            == [Found(p.partitionType, p.offset, p.size)] + if next.None? then [] else Logicals(parts, next.value)
  {
    hide NextLogical;
    LogicalsAreNext(parts, i);
  }

  // ------------------------------------------------- the records on the disk

  lemma LogicalIsNoArea(options: Config, children: Children, parts: seq<Part>, l: Layout, i: nat)
    requires Accepted(options, children, parts, l) && i < |l.parts| && l.parts[i].logical
    ensures i < |l.parts| - |TableAreas(l.cfg)| && !l.parts[i].kind.Extended?
  {
    hide Setup, TableAreas, Below, Pairwise, Spaced, Contained, Guarded, PrimariesOutside;
    AreasInPlace(options, children, parts, l);
    SetupInv(options, children, parts);
    forall j | AreaIndex(l, 0) <= j < |l.parts|
      ensures !l.parts[j].logical
    {
      assert !l.parts[AreaIndex(l, j - AreaIndex(l, 0))].logical;
    }
  }

  lemma FirstOfPart(children: Children, align: nat, parts: seq<Part>, i: nat)
    requires i < |parts| && parts[i].logical
    ensures var before, first := PartsWrites(children, align, parts, i), PartsWrites(children, align, parts, i + 1);
            && |first| > |before| && first[..|before| + 1] == before + [EbrWrite(align, parts, i)]
            && forall v | |before| < v < |first| :: WritesImage(children, parts[i]) && first[v] == ImageWrite(children, parts[i])
  {
    hide ImageWrite, EbrWrite, WritesImage;
  }

  lemma EbrByteStays(options: Config, children: Children, parts: seq<Part>, l: Layout, i: nat, t: nat)
    requires Accepted(options, children, parts, l) && i < |l.parts| && l.parts[i].logical && t < 66
    ensures var o, pos := Output(children, l), l.parts[i].offset - l.cfg.align + 446 + t;
            0 <= pos < |o| && o[pos] == EbrBytes(EbrEntries(l.cfg.align, l.parts, i))[t]
  {
    hide Setup, PartsWrites, TableWrites, Overwrite, Inserted, Render, EbrBytes, EbrEntries;
    var align, p := l.cfg.align, l.parts[i];
    PartFacts(options, children, parts, l, i);
    LogicalIsNoArea(options, children, parts, l, i);
    var w := EbrWrite(align, l.parts, i);
    assert w.offset == p.offset - align + 446;
    LaterWritesMiss(options, children, parts, l, i, w.offset + t);
    var before, first := PartsWrites(children, align, l.parts, i), PartsWrites(children, align, l.parts, i + 1);
    var all := Writes(children, l);
    FirstOfPart(children, align, l.parts, i);
    var own := first[|before| + 1..];
    var rest := all[|first|..];
    assert all == before + [w] + (own + rest) by {
      assert first == before + [w] + own;
      assert all == first + rest;
    }
    forall v | 0 <= v < |own + rest|
      ensures Misses((own + rest)[v], w.offset + t)
    {
      if v < |own| {
        assert own[v] == first[|before| + 1 + v];
      } else {
        assert (own + rest)[v] == all[|first| + (v - |own|)];
      }
    }
    WrittenByteStays(Fill(l.fileSize, 0), before, w, own + rest, t);
  }

  // The table of the boot record of partition i is in the output as it was written.
  lemma EbrStays(options: Config, children: Children, parts: seq<Part>, l: Layout, i: nat)
    requires Accepted(options, children, parts, l) && i < |l.parts| && l.parts[i].logical
    ensures var o, pos := Output(children, l), l.parts[i].offset - l.cfg.align;
            && 0 <= pos && pos + SECTOR <= |o|
            && o[pos + 446..pos + SECTOR] == EbrBytes(EbrEntries(l.cfg.align, l.parts, i))
  {
    hide Setup, Output, EbrBytes, EbrEntries;
    var o, pos := Output(children, l), l.parts[i].offset - l.cfg.align;
    var ebr := EbrBytes(EbrEntries(l.cfg.align, l.parts, i));
    EbrByteStays(options, children, parts, l, i, 0);
    EbrByteStays(options, children, parts, l, i, 65);
    forall t | 0 <= t < 66
      ensures o[pos + 446 + t] == ebr[t]
    {
      EbrByteStays(options, children, parts, l, i, t);
    }
    PartFacts(options, children, parts, l, i);
    SameBytes(o[pos + 446..pos + SECTOR], ebr);
  }

  // What a reader finds in such a table.
  lemma EbrIsRead(disk: seq<byte>, pos: nat, entries: seq<MbrEntry>)
    requires pos + SECTOR <= |disk| && disk[pos + 446..pos + SECTOR] == EbrBytes(entries)
    requires 1 <= |entries| <= 2
    ensures HasSignature(disk, pos)
    ensures ReadSlot(disk[pos + 446..pos + 462]) == SlotOf(entries[0])
    ensures ReadSlot(disk[pos + 462..pos + 478]) == if |entries| == 1 then EMPTY else SlotOf(entries[1])
  {
    hide ReadSlot, EntryBytes, TableBytes, SlotOf;
    var b := EbrBytes(entries);
    SlotOfTable(entries, 4, 0);
    SlotOfTable(entries, 4, 1);
    var table := TableBytes(entries, 4);
    assert b == table + [0x55, 0xaa];
    var d := disk[pos + 446..pos + SECTOR];
    SubSlice(disk, pos + 446, pos + SECTOR, 0, 16);
    SubSlice(disk, pos + 446, pos + SECTOR, 16, 32);
    assert d[0..16] == table[16 * 0..16 * 0 + 16];
    assert d[16..32] == table[16 * 1..16 * 1 + 16];
    assert d[64] == 0x55 && d[65] == 0xaa;
    assert disk[pos + 446..pos + 462] == EntryBytes(entries[0]);
    SlotOfEntry(entries[0]);
    if |entries| == 2 {
      assert disk[pos + 462..pos + 478] == EntryBytes(entries[1]);
      SlotOfEntry(entries[1]);
    } else {
      assert disk[pos + 462..pos + 478] == Fill(16, 0);
      SlotOfNothing();
    }
  }

  // ------------------------------------------------- the walk

  // The layouts whose boot records hold all their numbers: there are logical
  // partitions, at whole sectors, and the sectors have 32-bit numbers.
  ghost predicate Chained(options: Config, children: Children, parts: seq<Part>, l: Layout, e: nat) {
    && Accepted(options, children, parts, l)
    && options.table == Mbr
    && Aligned(Normalise(options), parts)
    && l.imageSize < 0x200_0000_0000
    && HasChain(l.parts, e)
  }

  lemma {:induction false} ExtendedIsFound(parts: seq<Part>, e: nat)
    requires e < |parts| && parts[e].kind.Extended? && forall i | 0 <= i < e :: !parts[i].kind.Extended?
    ensures ExtendedOffset(parts) == parts[e].offset
    decreases e
  {
    if e == 0 {
    } else {
      ExtendedIsFound(parts[1..], e - 1);
    }
  }

  lemma HasSize(options: Config, children: Children, parts: seq<Part>, l: Layout, i: nat)
    requires Accepted(options, children, parts, l) && i < |l.parts|
    ensures l.parts[i].size > 0 || l.parts[i].kind.Extended?
  {
    hide Setup, Listed, SameOptions, Predicted;
    SetupIsComplete(options, children, parts);
    assert Sound(l.cfg, children, l.parts[i]);
  }

  lemma {:induction false} SplitInTable(cfg: Config, index: nat, parts: seq<Part>, count: nat, entries: nat,
                                        inExtended: bool, found: bool)
    requires Fresh(parts) && SplitLogical(cfg, index, parts, count, entries, inExtended, found).Some?
    ensures var s := SplitLogical(cfg, index, parts, count, entries, inExtended, found).value;
            forall i | 0 <= i < |s| && s[i].logical :: s[i].inTable
    decreases |parts|
  {
    if parts == [] {
    } else {
      var p, rest := parts[0], parts[1..];
      if !p.inTable {
        SplitInTable(cfg, index, rest, count, entries, inExtended, found);
      } else {
        var starts := index == count + 1;
        var inside := (inExtended || starts) && !p.forcedPrimary;
        var entries' := entries + (if starts then 1 else 0) + (if inside then 0 else 1);
        SplitInTable(cfg, index, rest, count + 1, entries', inside, found || starts);
      }
    }
  }

  lemma LogicalInTable(options: Config, children: Children, parts: seq<Part>, l: Layout, i: nat)
    requires Accepted(options, children, parts, l) && options.table == Mbr && i < |l.parts| && l.parts[i].logical
    ensures l.parts[i].inTable
  {
    hide Setup, SplitLogical, DiskIdsOk, TableAreas, Sound, Predicted;
    ListedWhenSetup(options, children, parts);
    SetupIsComplete(options, children, parts);
    var todo := Listed(l.cfg, parts).value;
    assert SameOptions(l.cfg, todo[i], l.parts[i]);
    var split := SetupLogical(l.cfg, parts).value;
    AreasAreBare(l.cfg);
    if i < |split| && split != parts {
      SplitInTable(l.cfg, ExtendedIndex(l.cfg, parts), parts, 0, 0, false, false);
    }
  }

  // The numbers of logical partition i, in whole sectors.
  lemma ChainNumbers(options: Config, children: Children, parts: seq<Part>, l: Layout, e: nat, i: nat)
    requires Chained(options, children, parts, l, e) && i < |l.parts| && l.parts[i].logical
    ensures var p, ext, align := l.parts[i], l.parts[e].offset, l.cfg.align;
            && align >= SECTOR && align % SECTOR == 0
            && p.offset % SECTOR == 0 && p.size % SECTOR == 0 && ext % SECTOR == 0
            && ext + align <= p.offset && p.End() <= l.imageSize
            && ExtendedOffset(l.parts) == ext
            && !p.kind.Extended? && p.size > 0
  {
    hide Setup, Below, Pairwise, Spaced, Guarded, PrimariesOutside, Held;
    SetupIsSafe(options, children, parts);
    SetupInv(options, children, parts);
    HasSize(options, children, parts, l, i);
    AlignIsSectors(options, children, parts);
    LogicalIsNoArea(options, children, parts, l, i);
    LogicalInTable(options, children, parts, l, i);
    WholeSectors(options, children, parts, l, i);
    WholeSectors(options, children, parts, l, e);
    ExtendedIsFound(l.parts, e);
  }

  // Numbers that a boot record can hold.
  predicate Readable(align: nat, ext: nat, p: Part) {
    && align % SECTOR == 0 && p.offset % SECTOR == 0 && p.size % SECTOR == 0 && ext % SECTOR == 0
    && ext + align <= p.offset && p.End() < 0x200_0000_0000
  }

  lemma SectorNumber(n: nat)
    requires n % SECTOR == 0 && n < 0x200_0000_0000
    ensures SECTOR * U32(n / SECTOR) == n
  {
  }

  // One boot record of the walk, with its two slots.
  lemma WalkStep(disk: seq<byte>, ext: nat, pos: nat, fuel: nat, a: Slot, b: Slot)
    requires fuel > 0 && HasSignature(disk, pos) && pos + SECTOR <= |disk|
    requires ReadSlot(disk[pos + 446..pos + 462]) == a && ReadSlot(disk[pos + 462..pos + 478]) == b
    ensures Walk(disk, ext, pos, fuel)
         == [Found(a.partitionType, pos + SECTOR * a.start, SECTOR * a.sectors)]
          + if b.partitionType == 0x0f then Walk(disk, ext, ext + SECTOR * b.start, fuel - 1) else []
  {
    hide ReadSlot, HasSignature;
  }

  // The slots that a boot record has for its partition, and for the next boot record.
  lemma OwnSlot(align: nat, ext: nat, p: Part)
    requires Readable(align, ext, p)
    ensures align <= p.offset
    ensures var a := SlotOf(LogicalEntry(align, p));
            a.partitionType == p.partitionType && SECTOR * a.start == align && SECTOR * a.sectors == p.size
  {
    hide U32, LbaToChs;
    SectorNumber(align);
    SectorNumber(p.size);
  }

  lemma LinkSlot(align: nat, ext: nat, n: Part)
    requires Readable(align, ext, n)
    ensures var b := SlotOf(LinkEntry(align, ext, n)); b.partitionType == 0x0f && ext + SECTOR * b.start == n.offset - align
  {
    hide U32, LbaToChs;
    SectorNumber(n.offset - align - ext);
  }

  // The same for any disk that has the boot record in its place.
  lemma ReadOne(disk: seq<byte>, align: nat, parts: seq<Part>, ext: nat, i: nat, fuel: nat)
    requires i < |parts| && fuel > 0 && ext == ExtendedOffset(parts)
    requires Readable(align, ext, parts[i])
    requires NextLogical(parts, i).Some? ==> Readable(align, ext, parts[NextLogical(parts, i).value])
    requires var pos := parts[i].offset - align;
             pos + SECTOR <= |disk| && disk[pos + 446..pos + SECTOR] == EbrBytes(EbrEntries(align, parts, i))
    ensures var p, next := parts[i], NextLogical(parts, i);
            Walk(disk, ext, p.offset - align, fuel)
            == [Found(p.partitionType, p.offset, p.size)]
             + if next.None? then [] else Walk(disk, ext, parts[next.value].offset - align, fuel - 1)
  {
    hide EbrBytes, ReadSlot, HasSignature, ExtendedOffset, NextLogical, SlotOf, Walk, Readable, LogicalEntry, LinkEntry;
    var p, next := parts[i], NextLogical(parts, i);
    var entries := EbrEntries(align, parts, i);
    OwnSlot(align, ext, p);
    EbrIsRead(disk, p.offset - align, entries);
    if next.Some? {
      LinkSlot(align, ext, parts[next.value]);
      WalkStep(disk, ext, p.offset - align, fuel, SlotOf(entries[0]), SlotOf(entries[1]));
    } else {
      WalkStep(disk, ext, p.offset - align, fuel, SlotOf(entries[0]), EMPTY);
    }
  }

  lemma AcceptedWhenChained(options: Config, children: Children, parts: seq<Part>, l: Layout, e: nat)
    requires Chained(options, children, parts, l, e)
    ensures Accepted(options, children, parts, l)
    ensures l.imageSize < 0x200_0000_0000 && e < |l.parts|
  {
  }

  // One step of the reader: logical partition i, and where it goes on.
  lemma ChainStep(options: Config, children: Children, parts: seq<Part>, l: Layout, e: nat, i: nat, fuel: nat)
    requires Chained(options, children, parts, l, e) && i < |l.parts| && l.parts[i].logical && fuel > 0
    ensures var p, align, next := l.parts[i], l.cfg.align, NextLogical(l.parts, i);
            && p.offset >= align
            && (next.Some? ==> l.parts[next.value].offset >= align)
            && Walk(Output(children, l), l.parts[e].offset, p.offset - align, fuel)
            == [Found(p.partitionType, p.offset, p.size)]
             + if next.None? then []
               else Walk(Output(children, l), l.parts[e].offset, l.parts[next.value].offset - align, fuel - 1)
  {
    hide Setup, Output, Chained, Accepted, HasChain, InOrder, EbrBytes, EbrEntries, U32, Walk, NextLogical;
    hide ExtendedOffset;
    AcceptedWhenChained(options, children, parts, l, e);
    ChainNumbers(options, children, parts, l, e, i);
    var next := NextLogical(l.parts, i);
    if next.Some? {
      ChainNumbers(options, children, parts, l, e, next.value);
    }
    EbrStays(options, children, parts, l, i);
    ReadOne(Output(children, l), l.cfg.align, l.parts, l.parts[e].offset, i, fuel);
  }

  // The two addresses of a slot, in cylinder, head and sector, are these sectors.
  ghost predicate Spans(s: Slot, first: int, last: int) {
    s.active == 0 && Addresses(s.first, first) && Addresses(s.last, last)
  }

  // An entry for whole sectors with 32-bit numbers
  ghost predicate Whole(e: MbrEntry, offset: nat, size: nat) {
    && !e.bootable && 0 <= e.start && 0 < e.sectors && 0 <= e.base
    && SECTOR * (e.base + e.start) == offset && SECTOR * e.sectors == size && offset + size < 0x200_0000_0000
  }

  lemma WholeAddresses(e: MbrEntry, offset: nat, size: nat)
    requires Whole(e, offset, size)
    ensures !e.bootable && offset / SECTOR + size / SECTOR == (offset + size) / SECTOR
    ensures FirstSector(e) == offset / SECTOR && LastSector(e) == (offset + size) / SECTOR - 1
  {
    assert e.base + e.start == offset / SECTOR && e.sectors == size / SECTOR;
  }

  lemma EntrySpans(e: MbrEntry, offset: nat, size: nat)
    requires Whole(e, offset, size)
    ensures Spans(SlotOf(e), offset / SECTOR, (offset + size) / SECTOR - 1)
  {
    hide Whole, LbaToChs, Addresses, FirstSector, LastSector, U32;
    WholeAddresses(e, offset, size);
    ChsAddresses(FirstSector(e));
    ChsAddresses(LastSector(e));
  }

  lemma LogicalSpans(align: nat, ext: nat, p: Part)
    requires Readable(align, ext, p) && p.size > 0
    ensures Spans(SlotOf(LogicalEntry(align, p)), p.offset / SECTOR, p.End() / SECTOR - 1)
  {
    hide SlotOf, Spans;
    EntrySpans(LogicalEntry(align, p), p.offset, p.size);
  }

  lemma LinkSpans(align: nat, ext: nat, n: Part)
    requires Readable(align, ext, n) && n.size > 0
    ensures SlotOf(LinkEntry(align, ext, n)).partitionType == EXTENDED_TYPE
    ensures Spans(SlotOf(LinkEntry(align, ext, n)), (n.offset - align) / SECTOR, n.End() / SECTOR - 1)
  {
    hide Spans, LbaToChs;
    EntrySpans(LinkEntry(align, ext, n), n.offset - align, n.size + align);
  }

  // In the boot record of partition i on a disk, the first entry spans the
  // partition, and the second one the next boot record with its partition.
  ghost predicate HasAddresses(disk: seq<byte>, align: nat, parts: seq<Part>, i: nat)
    requires i < |parts|
  {
    var p, next := parts[i], NextLogical(parts, i);
    && p.offset >= align && p.offset - align + SECTOR <= |disk|
    && var at := p.offset - align + 446;
       var first, second := ReadSlot(disk[at..at + 16]), ReadSlot(disk[at + 16..at + 32]);
       && Spans(first, p.offset / SECTOR, p.End() / SECTOR - 1)
       && if next.None? then second == EMPTY
          else
            var n := parts[next.value];
            && second.partitionType == EXTENDED_TYPE
            && Spans(second, (n.offset - align) / SECTOR, n.End() / SECTOR - 1)
  }

  // The addresses in a boot record are absolute: those of the logical partition,
  // and those from the next boot record to the end of its partition.
  lemma EbrAddresses(options: Config, children: Children, parts: seq<Part>, l: Layout, e: nat, i: nat)
    requires Chained(options, children, parts, l, e) && i < |l.parts| && l.parts[i].logical
    ensures HasAddresses(Output(children, l), l.cfg.align, l.parts, i)
  {
    hide Setup, Output, Accepted, Chained, HasChain, InOrder, EbrBytes, LogicalEntry, LinkEntry, ReadSlot;
    hide NextLogical, ExtendedOffset;
    hide Spans, SlotOf;
    AcceptedWhenChained(options, children, parts, l, e);
    ChainNumbers(options, children, parts, l, e, i);
    var next := NextLogical(l.parts, i);
    if next.Some? {
      ChainNumbers(options, children, parts, l, e, next.value);
    }
    EbrStays(options, children, parts, l, i);
    LogicalSpans(l.cfg.align, l.parts[e].offset, l.parts[i]);
    if next.Some? {
      LinkSpans(l.cfg.align, l.parts[e].offset, l.parts[next.value]);
    }
    EbrIsRead(Output(children, l), l.parts[i].offset - l.cfg.align, EbrEntries(l.cfg.align, l.parts, i));
  }

  // From the boot record of any logical partition, the reader finds this one
  // and all those behind it, and stops.
  lemma {:induction false} WalkFrom(options: Config, children: Children, parts: seq<Part>, l: Layout, e: nat, i: nat,
                                    fuel: nat)
    requires Chained(options, children, parts, l, e) && i < |l.parts| && l.parts[i].logical
    requires fuel >= |Logicals(l.parts, i)|
    ensures l.parts[i].offset >= l.cfg.align
    ensures Walk(Output(children, l), l.parts[e].offset, l.parts[i].offset - l.cfg.align, fuel) == Logicals(l.parts, i)
    decreases |l.parts| - i
  {
    hide Setup, Accepted, Output, Chained, Walk, NextLogical, Aligned, InOrder, Logicals;
    AcceptedWhenChained(options, children, parts, l, e);
    LogicalsFrom(l.parts, i);
    ChainStep(options, children, parts, l, e, i, fuel);
    var next := NextLogical(l.parts, i);
    if next.None? {
    } else {
      WalkFrom(options, children, parts, l, e, next.value, fuel - 1);
    }
  }

  // ------------------------------------------------- the space before the first record

  // From the beginning of `[Extended]` to the end of its first partition there
  // is nothing but logical partitions.
  ghost predicate BaseGuarded(done: seq<Part>, e: nat) {
    && e + 1 < |done| && done[e].kind.Extended? && done[e].image == None && done[e + 1].logical
    && done[e + 1].End() <= done[e].End()
    && (forall j | 0 <= j < |done| :: j != e ==> !done[j].kind.Extended?)
    && (forall j | 0 <= j < |done| && j != e && !done[j].logical ::
          Apart(done[e].offset, done[e + 1].End(), done[j].offset, done[j].End()))
  }

  lemma StepKeepsBase(cfg: Config, children: Children, g: Progress, p: Part, e: nat)
    requires cfg.align > 0 && Step(cfg, children, g, p).Some? && !p.kind.Extended?
    requires Below(g.done, g.now) && BaseGuarded(g.done, e)
    ensures BaseGuarded(Step(cfg, children, g, p).value.done, e)
  {
    hide Step, Placed, Compatible, Stretch;
    var r, start := StepIs(cfg, children, g, p);
    var g' := Step(cfg, children, g, p).value;
    PlacedBounds(cfg, children, g.now, start, p, r);
    StretchIs(g.done, g'.now);
    if !r.logical {
      assert Compatible(children, g.done[e], r);
      ContainerApart(children, g.done[e], r);
    }
  }

  lemma {:induction false} PlaceKeepsBase(cfg: Config, children: Children, g: Progress, todo: seq<Part>, e: nat)
    requires cfg.align > 0 && Place(cfg, children, g, todo).Some?
    requires forall i | 0 <= i < |todo| :: !todo[i].kind.Extended?
    requires Below(g.done, g.now) && BaseGuarded(g.done, e)
    ensures BaseGuarded(Place(cfg, children, g, todo).value.done, e)
    decreases |todo|
  {
    hide Step, BaseGuarded, Below;
    if todo == [] {
    } else {
      StepKeepsBase(cfg, children, g, todo[0], e);
      StepKeepsBelow(cfg, children, g, todo[0]);
      PlaceKeepsBase(cfg, children, Step(cfg, children, g, todo[0]).value, todo[1..], e);
    }
  }

  lemma FirstGuardsBase(cfg: Config, children: Children, g: Progress, first: Part, e: nat)
    requires cfg.align > 0 && Step(cfg, children, g, first).Some? && first.logical && !first.kind.Extended?
    requires Below(g.done, g.now) && Open(g.done, e) && e + 1 == |g.done|
    ensures BaseGuarded(Step(cfg, children, g, first).value.done, e)
  {
    hide Step, Placed, Fits, Stretch;
    var r, start := StepIs(cfg, children, g, first);
    var g' := Step(cfg, children, g, first).value;
    PlacedBounds(cfg, children, g.now, start, first, r);
    StretchIs(g.done, g'.now);
  }

  lemma StepAppends(cfg: Config, children: Children, g: Progress, p: Part)
    requires cfg.align > 0 && Step(cfg, children, g, p).Some?
    ensures |Step(cfg, children, g, p).value.done| == |g.done| + 1
  {
    hide Step;
    var r, start := StepIs(cfg, children, g, p);
  }

  lemma PlaceGuardsBase(cfg: Config, children: Children, g: Progress, first: Part, tail: seq<Part>)
    requires cfg.align > 0 && !cfg.table.NoTable?
    requires Inv(cfg.align, children, g.done, g.now) && Plain(g.done)
    requires first.logical && first.inTable && first.kind == Configured
    requires forall i | 0 <= i < |tail| :: !tail[i].kind.Extended?
    requires Place(cfg, children, g, [ExtendedPartition(cfg, first)] + ([first] + tail)).Some?
    ensures BaseGuarded(Place(cfg, children, g, [ExtendedPartition(cfg, first)] + ([first] + tail)).value.done, |g.done|)
  {
    hide Step, ExtendedPartition, SameOptions, BaseGuarded, Open, Pairwise, Spaced, Contained, Guarded;
    hide PrimariesOutside, Held, Below, Plain;
    var ext := ExtendedPartition(cfg, first);
    assert ([ext] + ([first] + tail))[1..] == [first] + tail;
    assert ([first] + tail)[1..] == tail;
    var g1 := Step(cfg, children, g, ext).value;
    var g2 := Step(cfg, children, g1, first).value;
    assert Place(cfg, children, g, [ext] + ([first] + tail)) == Place(cfg, children, g1, [first] + tail);
    assert Place(cfg, children, g1, [first] + tail) == Place(cfg, children, g2, tail);
    OpensExtended(cfg, children, g, first);
    StepKeepsBelow(cfg, children, g, ext);
    StepAppends(cfg, children, g, ext);
    FirstGuardsBase(cfg, children, g1, first, |g.done|);
    StepKeepsBelow(cfg, children, g1, first);
    PlaceKeepsBase(cfg, children, g2, tail, |g.done|);
  }

  lemma SetupGuardsBase(options: Config, children: Children, parts: seq<Part>, l: Layout, e: nat)
    requires Accepted(options, children, parts, l) && options.table == Mbr && HasChain(l.parts, e)
    ensures BaseGuarded(l.parts, e)
  {
    hide Setup, Step, Place, Listed, HasChain, ExtendedPartition, TableEnd, Plain, Accepted, BaseGuarded, Inv;
    var pre, first, tail := ChainSplit(options, children, parts, l, e);
    InvEmpty(l.cfg.align, children, Begin(l.cfg).now);
    PlacePlain(l.cfg, children, Begin(l.cfg), pre);
    PlaceKeepsPlain(l.cfg, children, Begin(l.cfg), pre);
    PlaceGuardsBase(l.cfg, children, Place(l.cfg, children, Begin(l.cfg), pre).value, first, tail);
  }

  // ------------------------------------------------- when the chain is broken

  lemma {:induction false} UntouchedByte(f: seq<byte>, writes: seq<Write>, pos: nat)
    requires forall w | 0 <= w < |writes| :: Misses(writes[w], pos)
    ensures At(Render(f, writes), pos) == At(f, pos)
    decreases |writes|
  {
    hide Overwrite;
    if writes == [] {
    } else {
      OverwriteAt(f, writes[0].offset, writes[0].data);
      UntouchedByte(Overwrite(f, writes[0].offset, writes[0].data), writes[1..], pos);
    }
  }

  // Nothing belonging to partition j is in the first sector of `[Extended]`
  // when the first boot record is not there.
  lemma OwnedOutside(align: nat, parts: seq<Part>, e: nat, j: nat, w: Write, pos: nat)
    requires BaseGuarded(parts, e) && Spaced(align, parts) && j < |parts| && j != e
    requires align >= SECTOR && parts[e].offset + align + SECTOR <= parts[e + 1].offset
    requires forall i | 0 <= i <= e :: !parts[i].logical
    requires Owned(align, parts[j], w) && parts[e].offset <= pos < parts[e].offset + SECTOR
    ensures Misses(w, pos)
  {
    if parts[j].logical && j != e + 1 {
      assert e + 1 < j;
      assert parts[e + 1].End() + align <= parts[j].offset;
    }
  }

  lemma FirstSectorMissed(options: Config, children: Children, parts: seq<Part>, l: Layout, e: nat, w: nat, pos: nat)
    requires Chained(options, children, parts, l, e)
    requires l.parts[e].offset + l.cfg.align + SECTOR <= l.parts[e + 1].offset
    requires w < |Writes(children, l)| && l.parts[e].offset <= pos < l.parts[e].offset + SECTOR
    ensures Misses(Writes(children, l)[w], pos)
  {
    hide Setup, PartsWrites, PartWrites, TableWrites, Owned, Misses, BaseGuarded, Pairwise, Spaced, Contained;
    hide Guarded, PrimariesOutside, Below;
    SetupInv(options, children, parts);
    SetupGuardsBase(options, children, parts, l, e);
    AlignIsSectors(options, children, parts);
    var align, parted := l.cfg.align, PartsWrites(children, l.cfg.align, l.parts, |l.parts|);
    NoWritesYet(children, align, l.parts);
    PartsWritesPrefix(children, align, l.parts, 0, |l.parts|);
    if w < |parted| {
      var j :| 0 <= j < |l.parts| && parted[w] in PartWrites(children, align, l.parts, j);
      var v :| 0 <= v < |PartWrites(children, align, l.parts, j)| && PartWrites(children, align, l.parts, j)[v] == parted[w];
      PartFacts(options, children, parts, l, j);
      PartWritesOwned(children, align, l.parts, j, v);
      WriterIsNoContainer(options, children, parts, l, j);
      OwnedOutside(align, l.parts, e, j, parted[w], pos);
    } else {
      var j := TableWriteInArea(options, children, parts, l, w - |parted|);
      InsideIsOwned(align, l.parts[j], Writes(children, l)[w]);
      OwnedOutside(align, l.parts, e, j, Writes(children, l)[w], pos);
    }
  }

  lemma FirstSectorIsEmpty(options: Config, children: Children, parts: seq<Part>, l: Layout, e: nat)
    requires Chained(options, children, parts, l, e)
    requires l.parts[e].offset + l.cfg.align + SECTOR <= l.parts[e + 1].offset
    ensures !HasSignature(Output(children, l), l.parts[e].offset)
  {
    hide Setup, Writes, Chained, Render;
    AcceptedWhenChained(options, children, parts, l, e);
    var pos := l.parts[e].offset + 510;
    forall w | 0 <= w < |Writes(children, l)|
      ensures Misses(Writes(children, l)[w], pos)
    {
      FirstSectorMissed(options, children, parts, l, e, w, pos);
    }
    UntouchedByte(Fill(l.fileSize, 0), Writes(children, l), pos);
  }

  lemma {:induction false} LogicalsBefore(parts: seq<Part>, i: nat, e: nat)
    requires i <= e <= |parts| && forall j | 0 <= j < e :: !parts[j].logical
    ensures Logicals(parts, i) == Logicals(parts, e)
    decreases e - i
  {
    if i == e {
    } else {
      LogicalsBefore(parts, i + 1, e);
      assert [] + Logicals(parts, i + 1) == Logicals(parts, i + 1);
    }
  }

  // A reader that starts at `[Extended]` finds exactly the logical partitions,
  // in the order of the list, and then stops.
  ghost predicate ChainWorks(children: Children, l: Layout, e: nat)
    requires e < |l.parts|
  {
    forall fuel: nat | fuel >= |Logicals(l.parts, 0)| ::
      Walk(Output(children, l), l.parts[e].offset, l.parts[e].offset, fuel) == Logicals(l.parts, 0)
  }

  lemma NothingRead(disk: seq<byte>, ext: nat, pos: nat, fuel: nat)
    requires !HasSignature(disk, pos)
    ensures Walk(disk, ext, pos, fuel) == []
  {
  }

  lemma LogicalIsListed(parts: seq<Part>, i: nat)
    requires i < |parts| && parts[i].logical
    ensures Logicals(parts, i) != []
  {
  }

  // The chain works if and only if the first logical partition is exactly the
  // image alignment behind `[Extended]`.
  lemma ChainWorksIff(options: Config, children: Children, parts: seq<Part>, l: Layout, e: nat)
    requires Chained(options, children, parts, l, e)
    ensures e + 1 < |l.parts|
    ensures ChainWorks(children, l, e) <==> l.parts[e + 1].offset == l.parts[e].offset + l.cfg.align
  {
    hide Setup, Output, Walk, Logicals, BaseGuarded, Listed;
    var ext, first, align := l.parts[e].offset, l.parts[e + 1], l.cfg.align;
    LogicalsBefore(l.parts, 0, e + 1);
    ChainNumbers(options, children, parts, l, e, e + 1);
    if first.offset == ext + align {
      forall fuel: nat | fuel >= |Logicals(l.parts, 0)|
        ensures Walk(Output(children, l), ext, ext, fuel) == Logicals(l.parts, 0)
      {
        WalkFrom(options, children, parts, l, e, e + 1, fuel);
      }
    } else {
      FirstSectorIsEmpty(options, children, parts, l, e);
      var fuel := |Logicals(l.parts, 0)|;
      NothingRead(Output(children, l), ext, ext, fuel);
      LogicalIsListed(l.parts, e + 1);
    }
  }

  // The alignment of a partition of the table, as configured or by default.
  function AlignOf(cfg: Config, p: Part): nat {
    if p.align != 0 then p.align else cfg.align
  }

  lemma FirstAlign(options: Config, children: Children, parts: seq<Part>, l: Layout, e: nat)
    requires Chained(options, children, parts, l, e)
    ensures l.cfg == Normalise(options)
    ensures Listed(l.cfg, parts).Some? && |Listed(l.cfg, parts).value| == |l.parts| && e + 1 < |l.parts|
    ensures l.parts[e + 1].align == AlignOf(l.cfg, Listed(l.cfg, parts).value[e + 1])
  {
    hide Setup, Listed, Predicted, Sound, SameOptions, Place;
    AcceptedWhenChained(options, children, parts, l, e);
    SetupIsPlace(options, children, parts);
    SetupIsComplete(options, children, parts);
    SetupIsExplicit(options, children, parts);
    LogicalInTable(options, children, parts, l, e + 1);
    assert Explicit(l.cfg, Listed(l.cfg, parts).value[e + 1], l.parts[e + 1]);
  }

  lemma AddAlign(n: nat, align: nat)
    requires align > 0 && n % align == 0
    ensures (n + align) % align == 0
  {
    DivMod(n, align);
    assert n + align == (n / align + 1) * align;
    MultipleMod(n / align + 1, align);
  }

  // What that means for the configuration: the first logical partition has an
  // explicit offset, or its alignment divides the end of the first boot record's
  // space, as it does when it is the image alignment.
  lemma ChainWorksWhen(options: Config, children: Children, parts: seq<Part>, l: Layout, e: nat)
    requires Chained(options, children, parts, l, e)
    ensures var cfg := Normalise(options);
            && Listed(cfg, parts).Some? && e + 1 < |Listed(cfg, parts).value| && e < |l.parts|
            && var first := Listed(cfg, parts).value[e + 1];
               && AlignOf(cfg, first) > 0
               && (ChainWorks(children, l, e) <==>
                    || first.offset != 0
                    || (Roundup(EndBefore(cfg, children, parts, e), cfg.align) + cfg.align) % AlignOf(cfg, first) == 0)
               && (AlignOf(cfg, first) == cfg.align ==> ChainWorks(children, l, e))
  {
    hide Setup, Output, Walk, Logicals, BaseGuarded, Listed, ChainWorks, Roundup, EndBefore, Normalise, AlignOf;
    ChainWorksIff(options, children, parts, l, e);
    SetupFirst(options, children, parts, l, e);
    FirstAlign(options, children, parts, l, e);
    WholeSectors(options, children, parts, l, e);
    AlignIsSectors(options, children, parts);
    var end, align := l.parts[e].offset + l.cfg.align, l.parts[e + 1].align;
    RoundupIsLeastMultiple(end, align);
    if end % align == 0 {
      RoundupMultiple(end, align);
    }
    if align == l.cfg.align {
      AddAlign(l.parts[e].offset, align);
    }
  }

  // ------------------------------------------------- a configuration with a broken chain

  // One logical partition, aligned to 4K in an image aligned to sectors.
  function Narrow(): Config {
    Config(Mbr, 512, 1, 0, false, false, 0, None, Unsigned, [], n => "", "")
  }

  function Wide(): Part {
    Part("data", Configured, Flags(false, false, false, false), 0x83, false, false, true, None, 0, false,
         0, 4096, 4096, false, true, None, None)
  }

  lemma WideList()
    ensures var cfg, p := Normalise(Narrow()), Wide();
            Listed(cfg, [p]) == Some([ExtendedPartition(cfg, p), p.(logical := true), FakePartition("[MBR]", Fake, 440, 72)])
  {
    var cfg, p := Normalise(Narrow()), Wide();
    hide ExtendedPartition, FakePartition;
    assert SplitLogical(cfg, 1, [], 1, 1, true, true) == Some([]);
    assert [p][1..] == [] && [p][0] == p;
    var s := SplitLogical(cfg, 1, [p], 0, 0, false, false);
    assert s.Some?;
    assert s.value == [ExtendedPartition(cfg, p)] + [p.(logical := true)] + [];
    assert SetupLogical(cfg, [p]) == s;
    assert TableAreas(cfg) == [FakePartition("[MBR]", Fake, 440, 72)];
    assert s.value + TableAreas(cfg) == [ExtendedPartition(cfg, p), p.(logical := true), FakePartition("[MBR]", Fake, 440, 72)];
    assert DiskIdsOk(cfg) && cfg.align % SECTOR == 0;
  }

  lemma WideRounds()
    ensures Roundup(512, 512) == 512 && Roundup(1024, 4096) == 4096 && Roundup(4096, 4096) == 4096
  {
  }

  // The three partitions as they are placed.
  function WidePlaced(): seq<Part> {
    var cfg, p := Normalise(Narrow()), Wide();
    [ExtendedPartition(cfg, p).(offset := 512, size := 7680),
     p.(logical := true, offset := 4096),
     FakePartition("[MBR]", Fake, 440, 72)]
  }

  lemma WideStep1()
    ensures var cfg := Normalise(Narrow());
            Step(cfg, map[], Begin(cfg), ExtendedPartition(cfg, Wide()))
            == Some(Progress([WidePlaced()[0].(size := 0)], 512, 512, false, 0))
  {
    var cfg := Normalise(Narrow());
    WideRounds();
    hide Roundup;
    var ext := ExtendedPartition(cfg, Wide());
    assert Resolve(cfg, 0, ext) == Some(ext);
    var r := ext.(offset := 512);
    assert Fit(cfg, map[], Begin(cfg), ext) == Some(r);
    assert Fits(map[], [], 512, r);
    assert [] + [r] == [WidePlaced()[0].(size := 0)];
  }

  lemma WideStep2()
    ensures var g := Progress([WidePlaced()[0].(size := 0)], 512, 512, false, 0);
            Step(Normalise(Narrow()), map[], g, Wide().(logical := true))
            == Some(Progress(WidePlaced()[..2], 8192, 4096, false, 0))
  {
    var cfg := Normalise(Narrow());
    WideRounds();
    hide Roundup;
    var q := Wide().(logical := true);
    var g := Progress([WidePlaced()[0].(size := 0)], 512, 512, false, 0);
    assert Resolve(cfg, 1, q) == Some(q);
    assert Advance(cfg, 512, q) == 4096;
    var r := q.(offset := 4096);
    assert Fit(cfg, map[], g, q) == Some(r);
    assert Fits(map[], g.done, 4096, r);
    assert Stretch(g.done, 8192) == [WidePlaced()[0]];
    assert Stretch(g.done, 8192) + [r] == WidePlaced()[..2];
  }

  lemma WideStep3()
    ensures var g := Progress(WidePlaced()[..2], 8192, 4096, false, 0);
            Step(Normalise(Narrow()), map[], g, FakePartition("[MBR]", Fake, 440, 72))
            == Some(Progress(WidePlaced(), 8192, 4096, false, 0))
  {
    var cfg := Normalise(Narrow());
    hide Roundup;
    var mbr := FakePartition("[MBR]", Fake, 440, 72);
    var g := Progress(WidePlaced()[..2], 8192, 4096, false, 0);
    assert Resolve(cfg, 2, mbr) == Some(mbr);
    assert Fit(cfg, map[], g, mbr) == Some(mbr);
    assert Fits(map[], g.done, 8192, mbr);
    assert g.done + [mbr] == WidePlaced();
  }

  lemma WideChain()
    ensures HasChain(WidePlaced(), 0)
    ensures WidePlaced()[0].offset == 512 && WidePlaced()[1].offset == 4096
    ensures Fresh([Wide()]) && Aligned(Normalise(Narrow()), [Wide()])
  {
  }

  // `hdimage_setup` accepts it, but a reader that starts at `[Extended]` finds
  // nothing: the boot record is one sector before the partition, and not in the
  // first sector of `[Extended]`.
  lemma BrokenChain()
    ensures var l := Setup(Narrow(), map[], [Wide()]);
            && l.Some? && Chained(Narrow(), map[], [Wide()], l.value, 0)
            && !ChainWorks(map[], l.value, 0)
  {
    hide Step, ExtendedPartition, Output, Walk, Logicals, Listed, Roundup, HasChain, WidePlaced, Fresh, Aligned;
    var cfg := Normalise(Narrow());
    WideList();
    WideStep1();
    WideStep2();
    WideStep3();
    var todo := Listed(cfg, [Wide()]).value;
    assert todo[1..][1..][1..] == [];
    var l := Setup(Narrow(), map[], [Wide()]).value;
    assert l.parts == WidePlaced();
    WideChain();
    assert l.imageSize == 8192;
    ChainWorksIff(Narrow(), map[], [Wide()], l, 0);
  }
}
