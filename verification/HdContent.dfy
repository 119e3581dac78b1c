/**
  No byte of an input image is lost on the way to the output, unless it is in a
  declared hole; and the predicted size of the output is the real one.
 */
module HdContent {
  import opened Bytes
  import opened Files
  import opened Arith
  import opened Model
  import opened HdLayout
  import opened HdOverlap
  import opened HdShape
  import opened Records
  import opened HdWriter

  // ------------------------------------------------- lists of writes

  predicate Misses(w: Write, pos: int) {
    !(w.offset <= pos < w.offset + |w.data|)
  }

  function WriteEnd(w: Write): nat {
    if w.data == [] then 0 else w.offset + |w.data|
  }

  lemma {:induction false} RenderConcat(f: seq<byte>, a: seq<Write>, b: seq<Write>)
    ensures Render(f, a + b) == Render(Render(f, a), b)
    decreases |a|
  {
    if a == [] {
      assert a + b == b;
    } else {
      assert (a + b)[1..] == a[1..] + b;
      RenderConcat(Overwrite(f, a[0].offset, a[0].data), a[1..], b);
    }
  }

  // A byte stays if no write touches it.
  lemma {:induction false} RenderMisses(f: seq<byte>, writes: seq<Write>, pos: nat)
    requires pos < |f| && forall w | 0 <= w < |writes| :: Misses(writes[w], pos)
    ensures pos < |Render(f, writes)| && Render(f, writes)[pos] == f[pos]
    decreases |writes|
  {
    hide Overwrite;
    if writes == [] {
    } else {
      OverwriteAt(f, writes[0].offset, writes[0].data);
      RenderMisses(Overwrite(f, writes[0].offset, writes[0].data), writes[1..], pos);
    }
  }

  // The length is that of the longest write, or that of the file before.
  lemma {:induction false} RenderLength(f: seq<byte>, writes: seq<Write>)
    ensures |Render(f, writes)| >= |f|
    ensures forall w | 0 <= w < |writes| :: WriteEnd(writes[w]) <= |Render(f, writes)|
    ensures |Render(f, writes)| == |f| || exists w | 0 <= w < |writes| :: |Render(f, writes)| == WriteEnd(writes[w])
    decreases |writes|
  {
    hide Overwrite;
    if writes == [] {
    } else {
      var g := Overwrite(f, writes[0].offset, writes[0].data);
      RenderLength(g, writes[1..]);
      if |Render(g, writes[1..])| != |g| {
        var w :| 0 <= w < |writes[1..]| && |Render(g, writes[1..])| == WriteEnd(writes[1..][w]);
        assert writes[1..][w] == writes[w + 1];
      } else if |g| != |f| {
        assert |Render(f, writes)| == WriteEnd(writes[0]);
      }
      forall w | 0 <= w < |writes|
        ensures WriteEnd(writes[w]) <= |Render(f, writes)|
      {
        if w > 0 {
          assert writes[w] == writes[1..][w - 1];
        }
      }
    }
  }

  // What one write puts down stays if no later write touches it.
  lemma WrittenByteStays(f: seq<byte>, before: seq<Write>, w: Write, after: seq<Write>, k: nat)
    requires k < |w.data| && forall v | 0 <= v < |after| :: Misses(after[v], w.offset + k)
    ensures var o := Render(f, before + [w] + after);
            w.offset + k < |o| && o[w.offset + k] == w.data[k]
  {
    hide Overwrite;
    RenderConcat(f, before + [w], after);
    RenderConcat(f, before, [w]);
    var g := Render(f, before);
    var h := Overwrite(g, w.offset, w.data);
    assert Render(g, [w]) == h by {
      assert [w][1..] == [];
    }
    OverwriteAt(g, w.offset, w.data);
    RenderMisses(h, after, w.offset + k);
  }

  // ------------------------------------------------- the areas of the tables

  // The place of table area number a in a layout.
  function AreaIndex(l: Layout, a: nat): int {
    |l.parts| - |TableAreas(l.cfg)| + a
  }

  // The layout of an accepted configuration whose positions fit into 64 bits.
  ghost predicate Accepted(options: Config, children: Children, parts: seq<Part>, l: Layout) {
    Fresh(parts) && Setup(options, children, parts) == Some(l) && l.imageSize < TWO_TO_THE_64
  }

  lemma AreasAreAreas(cfg: Config)
    ensures forall a | 0 <= a < |TableAreas(cfg)| ::
              var p := TableAreas(cfg)[a];
              p.image == None && !p.inTable && !p.logical && !p.autoresize && !p.kind.Extended? && p.size != 0
  {
  }

  lemma AreaIsKept(cfg: Config, p: Part, r: Part)
    requires SameOptions(cfg, p, r) && Explicit(cfg, p, r)
    requires p.image == None && !p.inTable && !p.logical && !p.autoresize && !p.kind.Extended? && p.size != 0
    ensures r.image == None && !r.inTable && !r.logical && r.kind == p.kind && r.name == p.name
    ensures (p.offset != 0 ==> r.offset == p.offset) && r.size == p.size
  {
  }

  lemma AreasInPlace(options: Config, children: Children, parts: seq<Part>, l: Layout)
    requires Accepted(options, children, parts, l)
    ensures |l.parts| >= |TableAreas(l.cfg)|
    ensures forall a | 0 <= a < |TableAreas(l.cfg)| ::
              var p, area := l.parts[AreaIndex(l, a)], TableAreas(l.cfg)[a];
              && p.image == None && !p.inTable && !p.logical && p.kind == area.kind && p.name == area.name
              && (area.offset != 0 ==> p.offset == area.offset) && p.size == area.size
  {
    hide Setup, Listed, TableAreas, Explicit, SameOptions, Sound, Predicted;
    ListedWhenSetup(options, children, parts);
    SetupIsComplete(options, children, parts);
    SetupIsExplicit(options, children, parts);
    var k := ListedShape(l.cfg, parts);
    var todo, areas := Listed(l.cfg, parts).value, TableAreas(l.cfg);
    AreasAreAreas(l.cfg);
    forall a | 0 <= a < |areas|
      ensures var p := l.parts[AreaIndex(l, a)];
              && p.image == None && !p.inTable && !p.logical && p.kind == areas[a].kind && p.name == areas[a].name
              && (areas[a].offset != 0 ==> p.offset == areas[a].offset) && p.size == areas[a].size
    {
      var i := AreaIndex(l, a);
      assert todo[i] == todo[|todo| - |areas|..][a];
      AreaIsKept(l.cfg, areas[a], l.parts[i]);
    }
  }

  lemma AreasHaveNoImage(options: Config, children: Children, parts: seq<Part>, l: Layout)
    requires Accepted(options, children, parts, l)
    ensures forall i | 0 <= i < |l.parts| && l.parts[i].image.Some? :: i < |l.parts| - |TableAreas(l.cfg)|
  {
    hide Setup, TableAreas;
    AreasInPlace(options, children, parts, l);
    forall i | AreaIndex(l, 0) <= i < |l.parts|
      ensures l.parts[i].image == None
    {
      assert l.parts[AreaIndex(l, i - AreaIndex(l, 0))].image == None;
    }
  }

  // ------------------------------------------------- where the writes go

  // A write inside of the region [start, end).
  predicate Inside(w: Write, start: int, end: int) {
    w.data == [] || (start <= w.offset && w.offset + |w.data| <= end)
  }

  // A write for partition p: its boot record, or bytes of its own.
  predicate Owned(align: nat, p: Part, w: Write) {
    || (p.logical && Inside(w, BootRecord(align, p), BootRecord(align, p) + SECTOR))
    || Inside(w, p.offset, p.End())
  }

  lemma PartWritesOwned(children: Children, align: nat, parts: seq<Part>, i: nat, w: nat)
    requires i < |parts| && HoldsImage(children, parts[i]) && parts[i].End() < TWO_TO_THE_64
    requires parts[i].logical ==> SECTOR <= align <= parts[i].offset
    requires w < |PartWrites(children, align, parts, i)|
    ensures Owned(align, parts[i], PartWrites(children, align, parts, i)[w])
  {
    hide EbrBytes, EbrEntries, Inserted;
    var p := parts[i];
    var ebr := if p.logical then [EbrWrite(align, parts, i)] else [];
    assert PartWrites(children, align, parts, i) == ebr + if WritesImage(children, p) then [ImageWrite(children, p)] else [];
    if w < |ebr| {
      assert EbrWrite(align, parts, i).offset == p.offset - align + 446;
    } else {
      assert PartWrites(children, align, parts, i)[w] == ImageWrite(children, p);
      assert ImageSize(children, p) <= p.size;
    }
  }

  // The writes of the first m partitions come first.
  lemma {:induction false} PartsWritesPrefix(children: Children, align: nat, parts: seq<Part>, m: nat, n: nat)
    requires m <= n <= |parts|
    ensures var a, b := PartsWrites(children, align, parts, m), PartsWrites(children, align, parts, n);
            && a <= b
            && forall w | |a| <= w < |b| ::
                 exists j | m <= j < n :: b[w] in PartWrites(children, align, parts, j)
    decreases n
  {
    hide PartWrites;
    if m == n {
    } else {
      PartsWritesPrefix(children, align, parts, m, n - 1);
      var a := PartsWrites(children, align, parts, m);
      var c, b := PartsWrites(children, align, parts, n - 1), PartsWrites(children, align, parts, n);
      var last := PartWrites(children, align, parts, n - 1);
      assert b == c + last;
      forall w | |a| <= w < |b|
        ensures exists j | m <= j < n :: b[w] in PartWrites(children, align, parts, j)
      {
        if w < |c| {
          var j :| m <= j < n - 1 && c[w] in PartWrites(children, align, parts, j);
          assert b[w] in PartWrites(children, align, parts, j);
        } else {
          assert b[w] == last[w - |c|];
          assert b[w] in PartWrites(children, align, parts, n - 1);
        }
      }
    }
  }

  // The area of a table write: the MBR comes last, the GPT in the order of its
  // areas, with both parts of the backup in one.
  function AreaOf(l: Layout, w: nat): nat {
    if w + 1 == |TableWrites(l)| then 0 else Min(w + 1, 3)
  }

  lemma BackupInPlace(options: Config, children: Children, parts: seq<Part>, l: Layout)
    requires Accepted(options, children, parts, l) && l.cfg.table.HasGpt()
    ensures |TableAreas(l.cfg)| == 4 && |l.parts| >= 4
    ensures var p := l.parts[AreaIndex(l, 3)];
            p.End() == l.imageSize && p.size == GptBackupSize()
  {
    hide Setup;
    AreasInPlace(options, children, parts, l);
    ListedWhenSetup(options, children, parts);
    SetupPlacesBackup(options, children, parts);
  }

  // Each table is written into the area that is reserved for it.
  lemma TableWriteInArea(options: Config, children: Children, parts: seq<Part>, l: Layout, w: nat) returns (i: nat)
    requires Accepted(options, children, parts, l) && w < |TableWrites(l)|
    ensures i < |l.parts| && |l.parts| - |TableAreas(l.cfg)| <= i == AreaIndex(l, AreaOf(l, w))
    ensures l.parts[i].image == None && !l.parts[i].kind.Extended?
    ensures Inside(TableWrites(l)[w], l.parts[i].offset, l.parts[i].End())
  {
    hide Setup, MbrBytes, MbrTable, SealedHeader, GptTable, PrimaryHeader, BackupHeader;
    AreasInPlace(options, children, parts, l);
    ListedWhenSetup(options, children, parts);
    assert l.cfg.gptLocation != 0;
    var areas := TableAreas(l.cfg);
    if w == |TableWrites(l)| - 1 {
      assert TableWrites(l)[w] == MbrWrite(l);
      i := AreaIndex(l, 0);
    } else {
      assert TableWrites(l)[w] == GptWrites(l)[w];
      BackupInPlace(options, children, parts, l);
      i := AreaIndex(l, if w == 0 then 1 else if w == 1 then 2 else 3);
    }
  }

  // ------------------------------------------------- what no later write touches

  // Byte k of a partition is in a hole that its image declares.
  predicate InHole(children: Children, p: Part, k: nat) {
    && p.image.Some? && p.image.value in children
    && var holes := children[p.image.value].holes;
       exists h | 0 <= h < |holes| :: holes[h].start <= k < holes[h].end
  }

  // A position that belongs to partition i alone.
  predicate OwnedBy(children: Children, align: nat, p: Part, pos: nat) {
    || (p.offset <= pos < p.End() && !InHole(children, p, pos - p.offset))
    || (p.logical && BootRecord(align, p) <= pos < BootRecord(align, p) + SECTOR)
  }

  lemma CompatibleMisses(children: Children, q: Part, p: Part, pos: nat)
    requires Compatible(children, q, p)
    requires q.offset <= pos < q.End() && !InHole(children, q, pos - q.offset)
    ensures !(p.offset <= pos < p.End())
  {
  }

  lemma OtherMisses(children: Children, align: nat, parts: seq<Part>, i: nat, j: nat, w: Write, pos: nat)
    requires OverlapSafe(children, align, parts)
    requires i < j < |parts| && !parts[i].kind.Extended? && !parts[j].kind.Extended?
    requires OwnedBy(children, align, parts[i], pos) && Owned(align, parts[j], w)
    ensures Misses(w, pos)
  {
    hide Compatible, InHole;
    var q, p := parts[i], parts[j];
    if q.offset <= pos < q.End() && !InHole(children, q, pos - q.offset) {
      CompatibleMisses(children, q, p, pos);
    }
  }

  // A partition that is written to is not the extended one.
  lemma WriterIsNoContainer(options: Config, children: Children, parts: seq<Part>, l: Layout, j: nat)
    requires Accepted(options, children, parts, l) && j < |l.parts|
    ensures l.parts[j].kind.Extended? ==> PartWrites(children, l.cfg.align, l.parts, j) == []
  {
    hide Setup, Below, Pairwise, Spaced, Contained, Guarded, PrimariesOutside;
    SetupInv(options, children, parts);
  }

  lemma LogicalFacts(options: Config, children: Children, parts: seq<Part>, l: Layout, j: nat)
    requires Accepted(options, children, parts, l) && j < |l.parts| && l.parts[j].logical
    ensures options.table == Mbr && SECTOR <= l.cfg.align <= l.parts[j].offset
  {
    hide Setup;
    SetupInv(options, children, parts);
    if options.table != Mbr {
      OnlyMbrIsLogical(options, children, parts);
    }
    AlignIsSectors(options, children, parts);
    var e :| 0 <= e < j && l.parts[e].kind.Extended?;
    assert l.parts[e].offset + l.cfg.align <= l.parts[j].offset;
  }

  // The facts about single partitions that the writes depend on.
  lemma PartFacts(options: Config, children: Children, parts: seq<Part>, l: Layout, j: nat)
    requires Accepted(options, children, parts, l) && j < |l.parts|
    ensures var p := l.parts[j];
            && HoldsImage(children, p) && p.End() < TWO_TO_THE_64
            && (p.logical ==> SECTOR <= l.cfg.align <= p.offset)
  {
    hide Setup, Listed, SameOptions, Predicted, OverlapSafe;
    SetupIsComplete(options, children, parts);
    SetupIsSafe(options, children, parts);
    assert Sound(l.cfg, children, l.parts[j]);
    if l.parts[j].logical {
      LogicalFacts(options, children, parts, l, j);
    }
  }

  lemma InsideIsOwned(align: nat, p: Part, w: Write)
    requires Inside(w, p.offset, p.End())
    ensures Owned(align, p, w)
  {
  }

  // All writes behind those of partition i miss a position that is its own.
  lemma LaterWritesMiss(options: Config, children: Children, parts: seq<Part>, l: Layout, i: nat, pos: nat)
    requires Accepted(options, children, parts, l)
    requires i < |l.parts| && !l.parts[i].kind.Extended? && i < |l.parts| - |TableAreas(l.cfg)|
    requires OwnedBy(children, l.cfg.align, l.parts[i], pos)
    ensures var first, all := PartsWrites(children, l.cfg.align, l.parts, i + 1), Writes(children, l);
            && first <= all
            && forall v | |first| <= v < |all| :: Misses(all[v], pos)
  {
    hide Setup, PartsWrites, PartWrites, TableWrites, OwnedBy, Owned, OverlapSafe, Misses;
    SetupIsSafe(options, children, parts);
    var align := l.cfg.align;
    var first, parted := PartsWrites(children, align, l.parts, i + 1), PartsWrites(children, align, l.parts, |l.parts|);
    PartsWritesPrefix(children, align, l.parts, i + 1, |l.parts|);
    var all := Writes(children, l);
    assert all == parted + TableWrites(l);
    forall v | |first| <= v < |all|
      ensures Misses(all[v], pos)
    {
      if v < |parted| {
        var j :| i < j < |l.parts| && parted[v] in PartWrites(children, align, l.parts, j);
        var w :| 0 <= w < |PartWrites(children, align, l.parts, j)| && PartWrites(children, align, l.parts, j)[w] == parted[v];
        PartFacts(options, children, parts, l, j);
        PartWritesOwned(children, align, l.parts, j, w);
        WriterIsNoContainer(options, children, parts, l, j);
        OtherMisses(children, align, l.parts, i, j, all[v], pos);
      } else {
        var j := TableWriteInArea(options, children, parts, l, v - |parted|);
        InsideIsOwned(align, l.parts[j], all[v]);
        OtherMisses(children, align, l.parts, i, j, all[v], pos);
      }
    }
  }

  // ------------------------------------------------- the content theorem

  lemma LastOfPart(children: Children, align: nat, parts: seq<Part>, i: nat)
    requires i < |parts| && WritesImage(children, parts[i])
    ensures var first := PartsWrites(children, align, parts, i + 1);
            first != [] && first[|first| - 1] == ImageWrite(children, parts[i])
  {
    hide ImageWrite, EbrWrite;
  }

  lemma HoleIsCovered(children: Children, p: Part, k: nat)
    requires p.image.Some? && p.image.value in children
    ensures InHole(children, p, k) <==> Covered(children[p.image.value].holes, k)
  {
  }

  lemma ZeroPaddedCopy(src: Source, size: nat, imageoffset: nat, k: nat)
    requires src.Valid() && src.fiemap != Failed && k < size
    ensures Inserted(Some(src), size, imageoffset, 0)[k] == At(src.data, imageoffset + k)
  {
    hide Inserted, Reach;
    PlainCopyIff(src, size, imageoffset, 0);
    assert PlainCopy(src, size, imageoffset, 0);
  }

  // Byte k of a partition comes from an image: from its `imageoffset` up to its
  // end, or up to the end of a partition that is to be filled.
  ghost predicate Copies(children: Children, p: Part, k: nat) {
    && p.image.Some? && p.image.value in children
    && if p.fill then k < p.size else p.imageoffset + k < children[p.image.value].size
  }

  lemma CopiesIff(children: Children, p: Part, k: nat)
    ensures Copies(children, p, k) <==> WritesImage(children, p) && k < ImageSize(children, p)
  {
  }

  // Every byte that is copied from an image, and is not in a declared hole, is
  // found at its place in the output, whatever is written after it.
  lemma ContentIsKept(options: Config, children: Children, parts: seq<Part>, l: Layout, i: nat, k: nat)
    requires Accepted(options, children, parts, l)
    requires i < |l.parts| && Copies(children, l.parts[i], k) && !Covered(children[l.parts[i].image.value].holes, k)
    requires var file := children[l.parts[i].image.value].file; file.Valid() && file.fiemap != Failed
    ensures var p, o := l.parts[i], Output(children, l);
            && p.offset + k < |o|
            && o[p.offset + k] == At(children[p.image.value].file.data, p.imageoffset + k)
  {
    hide Setup, PartsWrites, Overwrite, Inserted, TableWrites, InHole, Render;
    var p, align := l.parts[i], l.cfg.align;
    var file := children[p.image.value].file;
    CopiesIff(children, p, k);
    assert !InHole(children, p, k) by {
      HoleIsCovered(children, p, k);
    }
    AreasInPlace(options, children, parts, l);
    PartFacts(options, children, parts, l, i);
    AreasHaveNoImage(options, children, parts, l);
    if p.kind.Extended? {
      WriterIsNoContainer(options, children, parts, l, i);
    }
    LaterWritesMiss(options, children, parts, l, i, p.offset + k);
    var all, first := Writes(children, l), PartsWrites(children, align, l.parts, i + 1);
    var w := ImageWrite(children, p);
    LastOfPart(children, align, l.parts, i);
    var before := first[..|first| - 1];
    var after := all[|first|..];
    assert all == before + [w] + after by {
      assert first == before + [w];
      assert all == first + after;
    }
    WrittenByteStays(Fill(l.fileSize, 0), before, w, after, k);
    ZeroPaddedCopy(file, ImageSize(children, p), p.imageoffset, k);
  }

  // What the check of overlaps takes for a hole of the partition is one of the
  // image file, at the position that is copied there.
  ghost predicate HolesFit(children: Children, p: Part) {
    forall k | 0 <= k && Copies(children, p, k) && Covered(children[p.image.value].holes, k) ::
      Covered(children[p.image.value].holes, p.imageoffset + k)
  }

  // It is so for a partition that starts at the beginning of its image, or whose
  // image has no holes.
  lemma HolesFitWhen(children: Children, p: Part)
    requires p.image.Some? && p.image.value in children
    requires p.imageoffset == 0 || children[p.image.value].holes == []
    ensures HolesFit(children, p)
  {
  }

  // The content theorem in positions of the image file.
  lemma FileIsKept(options: Config, children: Children, parts: seq<Part>, l: Layout, i: nat, q: nat)
    requires Accepted(options, children, parts, l)
    requires i < |l.parts| && l.parts[i].imageoffset <= q && Copies(children, l.parts[i], q - l.parts[i].imageoffset)
    requires var file := children[l.parts[i].image.value].file; file.Valid() && file.fiemap != Failed
    requires HolesFit(children, l.parts[i]) && !Covered(children[l.parts[i].image.value].holes, q)
    ensures var p, o := l.parts[i], Output(children, l);
            && p.offset + q - p.imageoffset < |o|
            && o[p.offset + q - p.imageoffset] == At(children[p.image.value].file.data, q)
  {
    hide Setup, Output, Accepted, Copies, Source.Valid, Covered;
    ContentIsKept(options, children, parts, l, i, q - l.parts[i].imageoffset);
  }

  // ------------------------------------------------- everything else

  lemma {:induction false} MissedStays(f: seq<byte>, writes: seq<Write>, pos: nat)
    requires forall w | 0 <= w < |writes| :: Misses(writes[w], pos)
    ensures At(Render(f, writes), pos) == At(f, pos)
    decreases |writes|
  {
    hide Overwrite;
    if writes == [] {
    } else {
      OverwriteAt(f, writes[0].offset, writes[0].data);
      MissedStays(Overwrite(f, writes[0].offset, writes[0].data), writes[1..], pos);
    }
  }

  // A byte of the output that is there for a partition: it comes from the image,
  // is in the boot record of a logical partition or in the area of a table.
  ghost predicate Meant(children: Children, align: nat, p: Part, pos: nat) {
    || (p.offset <= pos && Copies(children, p, pos - p.offset))
    || (p.logical && p.offset - align + 446 <= pos < p.offset - align + SECTOR)
    || ((p.kind.Fake? || p.kind.Backup?) && p.offset <= pos < p.End())
  }

  lemma UnmeantIsMissed(children: Children, align: nat, parts: seq<Part>, i: nat, w: nat, pos: nat)
    requires i < |parts| && w < |PartWrites(children, align, parts, i)| && !Meant(children, align, parts[i], pos)
    requires parts[i].End() < TWO_TO_THE_64 && (parts[i].logical ==> SECTOR <= align <= parts[i].offset)
    ensures Misses(PartWrites(children, align, parts, i)[w], pos)
  {
    hide EbrBytes, EbrEntries, Inserted, Copies;
    var p := parts[i];
    var ebr := if p.logical then [EbrWrite(align, parts, i)] else [];
    assert PartWrites(children, align, parts, i) == ebr + if WritesImage(children, p) then [ImageWrite(children, p)] else [];
    if w < |ebr| {
      assert EbrWrite(align, parts, i).offset == p.offset - align + 446;
    } else {
      assert PartWrites(children, align, parts, i)[w] == ImageWrite(children, p);
      if p.offset <= pos {
        CopiesIff(children, p, pos - p.offset);
      }
    }
  }

  lemma AreasOfTables(cfg: Config)
    ensures forall a | 0 <= a < |TableAreas(cfg)| :: TableAreas(cfg)[a].kind.Fake? || TableAreas(cfg)[a].kind.Backup?
  {
  }

  lemma InsideMisses(children: Children, align: nat, p: Part, w: Write, pos: nat)
    requires Inside(w, p.offset, p.End()) && (p.kind.Fake? || p.kind.Backup?) && !Meant(children, align, p, pos)
    ensures Misses(w, pos)
  {
  }

  lemma NoWritesYet(children: Children, align: nat, parts: seq<Part>)
    ensures PartsWrites(children, align, parts, 0) == []
  {
  }

  // All other bytes of the output are zero.
  lemma RestIsZero(options: Config, children: Children, parts: seq<Part>, l: Layout, pos: nat)
    requires Accepted(options, children, parts, l)
    requires forall i | 0 <= i < |l.parts| :: !Meant(children, l.cfg.align, l.parts[i], pos)
    ensures At(Output(children, l), pos) == 0
  {
    hide Setup, PartsWrites, PartWrites, TableWrites, Misses, Meant, Render, Overwrite, TableAreas;
    var parted, all := PartsWrites(children, l.cfg.align, l.parts, |l.parts|), Writes(children, l);
    PartsWritesPrefix(children, l.cfg.align, l.parts, 0, |l.parts|);
    NoWritesYet(children, l.cfg.align, l.parts);
    AreasInPlace(options, children, parts, l);
    AreasOfTables(l.cfg);
    forall v | 0 <= v < |all|
      ensures Misses(all[v], pos)
    {
      if v < |parted| {
        var j :| 0 <= j < |l.parts| && parted[v] in PartWrites(children, l.cfg.align, l.parts, j);
        var w :| 0 <= w < |PartWrites(children, l.cfg.align, l.parts, j)|
          && PartWrites(children, l.cfg.align, l.parts, j)[w] == parted[v];
        PartFacts(options, children, parts, l, j);
        UnmeantIsMissed(children, l.cfg.align, l.parts, j, w, pos);
      } else {
        var j := TableWriteInArea(options, children, parts, l, v - |parted|);
        InsideMisses(children, l.cfg.align, l.parts[j], all[v], pos);
      }
    }
    MissedStays(Fill(l.fileSize, 0), all, pos);
  }

  // ------------------------------------------------- the size of the output

  // A partition with `fill` that reaches beyond the predicted end of the file.
  predicate FillsBeyond(children: Children, l: Layout, p: Part) {
    WritesImage(children, p) && p.fill && p.End() > l.fileSize
  }

  lemma PartWriteEnds(options: Config, children: Children, parts: seq<Part>, l: Layout, j: nat, w: nat)
    requires Accepted(options, children, parts, l) && j < |l.parts|
    requires w < |PartWrites(children, l.cfg.align, l.parts, j)|
    requires !FillsBeyond(children, l, l.parts[j])
    ensures WriteEnd(PartWrites(children, l.cfg.align, l.parts, j)[w]) <= l.fileSize
  {
    hide Setup, Listed, SameOptions, EbrBytes, EbrEntries, Inserted;
    SetupIsComplete(options, children, parts);
    ListedWhenSetup(options, children, parts);
    PartFacts(options, children, parts, l, j);
    var p := l.parts[j];
    assert Predicted(l.cfg, children, p, l.fileSize);
    var ebr := if p.logical then [EbrWrite(l.cfg.align, l.parts, j)] else [];
    assert PartWrites(children, l.cfg.align, l.parts, j)
        == ebr + if WritesImage(children, p) then [ImageWrite(children, p)] else [];
  }

  // With a backup GPT, or if the image is to be filled, the file is as long as the image.
  lemma FilledSize(options: Config, children: Children, parts: seq<Part>)
    requires Setup(options, children, parts).Some?
    requires options.fill || (options.table.HasGpt() && !options.gptNoBackup)
    ensures var l := Setup(options, children, parts).value; l.fileSize == l.imageSize
  {
    hide Listed, Place;
  }

  lemma TableWriteEnds(options: Config, children: Children, parts: seq<Part>, l: Layout, w: nat)
    requires Accepted(options, children, parts, l) && w < |TableWrites(l)|
    ensures WriteEnd(TableWrites(l)[w]) <= l.fileSize
  {
    hide Setup, Listed, SameOptions, MbrBytes, MbrTable, SealedHeader, GptTable, PrimaryHeader, BackupHeader;
    hide Sound, Predicted;
    SetupIsComplete(options, children, parts);
    ListedWhenSetup(options, children, parts);
    assert l.cfg.gptLocation > 0;
    if w == |TableWrites(l)| - 1 {
      assert TableWrites(l)[w] == MbrWrite(l);
    } else {
      assert TableWrites(l)[w] == GptWrites(l)[w];
      BackupInPlace(options, children, parts, l);
      if w >= 2 {
        FilledSize(options, children, parts);
      }
    }
  }

  lemma FillIsWritten(options: Config, children: Children, parts: seq<Part>, l: Layout, j: nat)
    requires Accepted(options, children, parts, l) && j < |l.parts| && FillsBeyond(children, l, l.parts[j])
    ensures |Output(children, l)| > l.fileSize
  {
    hide Setup, PartsWrites, TableWrites, Overwrite, Inserted, Render;
    PartsWritesPrefix(children, l.cfg.align, l.parts, j + 1, |l.parts|);
    LastOfPart(children, l.cfg.align, l.parts, j);
    var first := PartsWrites(children, l.cfg.align, l.parts, j + 1);
    var all := Writes(children, l);
    assert all[|first| - 1] == ImageWrite(children, l.parts[j]);
    RenderLength(Fill(l.fileSize, 0), all);
    assert WriteEnd(all[|first| - 1]) <= |Output(children, l)|;
    assert l.parts[j].size > 0 by {
      SetupIsComplete(options, children, parts);
      assert Sound(l.cfg, children, l.parts[j]);
    }
  }

  lemma WriteEnds(options: Config, children: Children, parts: seq<Part>, l: Layout, w: nat)
    requires Accepted(options, children, parts, l) && w < |Writes(children, l)|
    requires forall j | 0 <= j < |l.parts| :: !FillsBeyond(children, l, l.parts[j])
    ensures WriteEnd(Writes(children, l)[w]) <= l.fileSize
  {
    hide Setup, PartsWrites, PartWrites, TableWrites, FillsBeyond, Accepted, WriteEnd;
    var parted := PartsWrites(children, l.cfg.align, l.parts, |l.parts|);
    NoWritesYet(children, l.cfg.align, l.parts);
    PartsWritesPrefix(children, l.cfg.align, l.parts, 0, |l.parts|);
    if w < |parted| {
      var j :| 0 <= j < |l.parts| && parted[w] in PartWrites(children, l.cfg.align, l.parts, j);
      var own := PartWrites(children, l.cfg.align, l.parts, j);
      var v :| 0 <= v < |own| && own[v] == parted[w];
      PartWriteEnds(options, children, parts, l, j, v);
    } else {
      TableWriteEnds(options, children, parts, l, w - |parted|);
    }
  }

  // The predicted size of the output is the real one, unless a partition with
  // `fill` lies beyond it; the option is not considered in the prediction.
  lemma SizeIsExact(options: Config, children: Children, parts: seq<Part>, l: Layout)
    requires Accepted(options, children, parts, l)
    ensures |Output(children, l)| == l.fileSize
        <==> forall j | 0 <= j < |l.parts| :: !FillsBeyond(children, l, l.parts[j])
  {
    hide Setup, PartsWrites, PartWrites, TableWrites, Overwrite, Render, FillsBeyond, Accepted, WriteEnd;
    var all := Writes(children, l);
    RenderLength(Fill(l.fileSize, 0), all);
    if forall j | 0 <= j < |l.parts| :: !FillsBeyond(children, l, l.parts[j]) {
      forall w | 0 <= w < |all|
        ensures WriteEnd(all[w]) <= l.fileSize
      {
        WriteEnds(options, children, parts, l, w);
      }
    } else {
      var j :| 0 <= j < |l.parts| && FillsBeyond(children, l, l.parts[j]);
      FillIsWritten(options, children, parts, l, j);
    }
  }

  // Without `fill` in the partitions, or when the whole image is filled or has a
  // backup GPT, the prediction is always right.
  lemma SizeIsExactWhenFilled(options: Config, children: Children, parts: seq<Part>, l: Layout)
    requires Accepted(options, children, parts, l)
    requires options.fill || (options.table.HasGpt() && !options.gptNoBackup)
          || forall i | 0 <= i < |l.parts| :: !l.parts[i].fill
    ensures |Output(children, l)| == l.fileSize
  {
    hide Setup, Output, OverlapSafe;
    SizeIsExact(options, children, parts, l);
    SetupIsSafe(options, children, parts);
    if options.fill || (options.table.HasGpt() && !options.gptNoBackup) {
      FilledSize(options, children, parts);
    }
  }

  // ------------------------------------------------- a size that is not exact

  // An image without a partition table.
  function Tableless(): Config {
    Config(NoTable, 0, 0, 0, false, false, 0, None, Unsigned, [], n => "", "")
  }

  // A partition of 4096 bytes at offset 8, to be filled from an image of one byte.
  function FilledPart(): Part {
    Part("p", Configured, Flags(false, false, false, false), 0, false, true, false, Some("a"), 0, false,
         8, 4096, 0, false, true, None, None)
  }

  function OneByte(): Children {
    map["a" := Child(1, [], Source([7], Unsupported))]
  }

  lemma FilledStep()
    ensures Step(Normalise(Tableless()), OneByte(), Begin(Normalise(Tableless())), FilledPart())
         == Some(Progress([FilledPart().(align := 1, inTable := false)], 4104, 9, false, 0))
  {
    var cfg, children := Normalise(Tableless()), OneByte();
    var p := FilledPart().(align := 1, inTable := false);
    assert Resolve(cfg, 0, FilledPart()) == Some(p);
    assert Fit(cfg, children, Begin(cfg), p) == Some(p);
    assert Fits(children, [], 0, p);
    assert [] + [p] == [p];
  }

  lemma FilledBeyond(l: Layout)
    requires l.parts == [FilledPart().(align := 1, inTable := false)] && l.fileSize == 9
    ensures Fresh([FilledPart()]) && FillsBeyond(OneByte(), l, l.parts[0])
  {
  }

  // `hdimage_setup` accepts it and predicts a file of nine bytes, up to the end
  // of the image; but the file that is written has 4104.
  lemma FillBreaksSize()
    ensures var l := Setup(Tableless(), OneByte(), [FilledPart()]);
            && l.Some? && Accepted(Tableless(), OneByte(), [FilledPart()], l.value)
            && l.value.fileSize == 9 && l.value.imageSize == 4104
            && |Output(OneByte(), l.value)| != 9
  {
    hide Step, Output, FilledPart;
    var cfg, parts := Normalise(Tableless()), [FilledPart()];
    FilledStep();
    assert TableAreas(cfg) == [] && parts + [] == parts;
    assert Listed(cfg, parts) == Some(parts);
    assert parts[1..] == [];
    assert Place(cfg, OneByte(), Begin(cfg), parts)
        == Some(Progress([FilledPart().(align := 1, inTable := false)], 4104, 9, false, 0));
    var l := Setup(Tableless(), OneByte(), parts).value;
    FilledBeyond(l);
    SizeIsExact(Tableless(), OneByte(), parts, l);
  }
}
