/**
  What `hdimage_setup` does with each partition, exactly: where it goes, how
  large it gets, and when it is refused. A partition is accepted if and only if
  there are an offset and a size that meet the conditions stated here in
  numbers, and then it gets these.
 */
module HdExact {
  import opened Bytes
  import opened Files
  import opened Arith
  import opened Model
  import opened HdLayout
  import opened HdOverlap
  import Uuid

  // ------------------------------------------------- rounding

  // y is x rounded up: the first multiple that is not below it. Zero wraps around.
  ghost predicate RoundedUp(x: nat, align: nat, y: nat)
    requires align > 0
  {
    if x == 0 then y == (0xffff_ffff_ffff_ffff / align + 1) * align % 0x1_0000_0000_0000_0000
    else x <= y < x + align && y % align == 0
  }

  // Two multiples less than align apart are the same.
  lemma OneMultiple(y: nat, z: nat, align: nat)
    requires align > 0 && y % align == 0 && z % align == 0 && y < z + align && z < y + align
    ensures y == z
  {
    DivMod(y, align);
    DivMod(z, align);
    if y / align < z / align {
      NextMultiple(y / align, z / align, align);
    } else if z / align < y / align {
      NextMultiple(z / align, y / align, align);
    }
  }

  lemma RoundedUpIff(x: nat, align: nat, y: nat)
    requires align > 0
    ensures RoundedUp(x, align, y) <==> y == Roundup(x, align)
  {
    if x > 0 {
      hide Roundup;
      RoundupIsLeastMultiple(x, align);
      if RoundedUp(x, align, y) {
        OneMultiple(y, Roundup(x, align), align);
      }
    }
  }

  lemma MultipleAbove(x: nat, align: nat, y: nat)
    requires align > 0 && x > 0 && y % align == 0
    ensures x <= y <==> Roundup(x, align) <= y
  {
    hide Roundup;
    RoundupIsLeastMultiple(x, align);
    var r := Roundup(x, align);
    if x <= y < r {
      OneMultiple(y, r, align);
    }
  }

  // ------------------------------------------------- types and UUIDs

  // u is the type UUID of a partition: the one that is given, or what the first
  // shortcut with the given name stands for, "L" if there is none.
  ghost predicate Typed(cfg: Config, p: Part, u: string) {
    && Uuid.Valid(u)
    && var name := if p.typeUuid.Some? then p.typeUuid.value else "L";
       if Uuid.Valid(name) then u == name
       else
         && name != ""
         && exists k | 0 <= k < |cfg.shortcuts| ::
              && Uuid.LowerAll(cfg.shortcuts[k].0) == Uuid.LowerAll(name) && cfg.shortcuts[k].1 == u
              && forall j | 0 <= j < k :: Uuid.LowerAll(cfg.shortcuts[j].0) != Uuid.LowerAll(name)
  }

  // The first shortcut with a name, if there is one.
  lemma {:induction false} LookupIs(shortcuts: seq<(string, string)>, name: string) returns (k: nat)
    ensures k <= |shortcuts|
    ensures forall j | 0 <= j < k :: Uuid.LowerAll(shortcuts[j].0) != Uuid.LowerAll(name)
    ensures if k < |shortcuts|
            then Uuid.LowerAll(shortcuts[k].0) == Uuid.LowerAll(name) && Lookup(shortcuts, name) == Some(shortcuts[k].1)
            else Lookup(shortcuts, name) == None
    decreases |shortcuts|
  {
    hide Uuid.LowerAll;
    if shortcuts == [] || Uuid.SameIgnoringCase(shortcuts[0].0, name) {
      k := 0;
    } else {
      k := LookupIs(shortcuts[1..], name);
      k := k + 1;
    }
  }

  lemma EmptyIsInvalid()
    ensures !Uuid.Valid("")
  {
  }

  lemma TypedIff(cfg: Config, p: Part, u: string)
    ensures Typed(cfg, p, u) <==> TypeUuid(cfg, p) == Some(u)
  {
    hide Uuid.Valid, Uuid.LowerAll, Lookup;
    var name := if p.typeUuid.Some? then p.typeUuid.value else "L";
    assert !Uuid.Valid("") by {
      EmptyIsInvalid();
    }
    var k := LookupIs(cfg.shortcuts, name);
  }

  // What the table decides about partition number n: r has its alignment, and
  // the UUIDs that a GPT needs.
  ghost predicate Identifies(cfg: Config, n: nat, p: Part, r: Part) {
    && r.inTable == (p.inTable && !cfg.table.NoTable?)
    && r.align == (if p.align != 0 then p.align else if r.inTable || cfg.table.NoTable? then cfg.align else 1)
    && (cfg.table.NoTable? || cfg.table.Mbr? ==> p.typeUuid == None && p.uuid == None)
    && (cfg.table.NoTable? || cfg.table.Gpt? ==> p.partitionType == 0)
    && if (cfg.table.Gpt? || cfg.table.Hybrid?) && p.inTable
       then
         && r.typeUuid.Some? && Typed(cfg, p, r.typeUuid.value)
         && (p.uuid.Some? ==> Uuid.Valid(p.uuid.value))
         && r.uuid == (if p.uuid.Some? then p.uuid else Some(cfg.generated(n)))
       else r.typeUuid == p.typeUuid && r.uuid == p.uuid
  }

  lemma TypeOfDefaults(cfg: Config, p: Part)
    requires cfg.align > 0
    ensures TypeUuid(cfg, Defaults(cfg, p)) == TypeUuid(cfg, p)
  {
  }

  lemma ResolveIff(cfg: Config, n: nat, p: Part, q: Part)
    requires cfg.align > 0
    ensures Resolve(cfg, n, p) == Some(q) <==>
              && Identifies(cfg, n, p, q)
              && q == p.(inTable := q.inTable, align := q.align, typeUuid := q.typeUuid, uuid := q.uuid)
  {
    hide Typed, TypeUuid, Uuid.Valid;
    if q.typeUuid.Some? {
      TypedIff(cfg, p, q.typeUuid.value);
    }
    assert TypeUuid(cfg, Defaults(cfg, p)) == TypeUuid(cfg, p) by {
      TypeOfDefaults(cfg, p);
    }
  }

  // ------------------------------------------------- offset and size

  // The backup GPT is a bare area, and `[Extended]` begins without a size.
  predicate Ordinary(cfg: Config, p: Part) {
    && (p.kind == Backup ==>
          !p.logical && !p.inTable && !cfg.table.NoTable? && p.size > 0 && p.image == None && !p.autoresize)
    && (p.kind == Kind.Extended ==> !p.logical && p.size == 0 && p.image == None && !p.autoresize)
  }

  // Where a partition without an explicit offset goes: the first place behind
  // everything so far, and behind its boot record if it is logical. A backup GPT
  // ends at 4K; what is not in the table of an image that has one is not moved.
  ghost predicate Positions(cfg: Config, now: nat, p: Part, r: Part)
    requires r.align > 0
  {
    if p.offset != 0 then r.offset == p.offset
    else if p.kind == Backup then RoundedUp(now + p.size, 4096, r.offset + p.size)
    else if !r.inTable && !cfg.table.NoTable? then r.offset == 0
    else RoundedUp(if p.logical then now + cfg.align else now, r.align, r.offset)
  }

  // The bytes that are taken from an image.
  function Taken(child: Child, imageoffset: nat): nat {
    if child.size > imageoffset then child.size - imageoffset else 0
  }

  // The end of what partitions can use of an image of a given size.
  function Limit(cfg: Config): int {
    if cfg.table == Gpt || cfg.table == Hybrid then cfg.imageSize - 33 * 512 else cfg.imageSize
  }

  // Autoresize takes all whole units of the alignment up to the limit.
  ghost predicate Resizes(cfg: Config, resized: bool, p: Part, r: Part)
    requires r.align > 0
  {
    && !resized && cfg.imageSize > 0
    && r.size % r.align == 0 && r.End() <= Limit(cfg) < r.End() + r.align
    && 0 < r.size && p.size <= r.size
  }

  // The size is the given one, or that of the image, which is rounded up in the
  // table, or what autoresize makes of it; and the image exists and fits.
  ghost predicate Measures(cfg: Config, children: Children, resized: bool, p: Part, r: Part)
    requires r.align > 0
  {
    && (p.image.Some? ==>
          && p.image.value in children
          && var child := children[p.image.value];
             && (child.size == 0 || p.imageoffset <= child.size)
             && Taken(child, p.imageoffset) <= r.size)
    && if p.autoresize then Resizes(cfg, resized, p, r)
       else if p.size != 0 || p.image == None then r.size == p.size
       else if r.inTable then RoundedUp(Taken(children[p.image.value], p.imageoffset), r.align, r.size)
       else r.size == Taken(children[p.image.value], p.imageoffset)
  }

  // A hole of q is over all that it shares with r.
  predicate Over(q: Part, r: Part, h: Extent) {
    && q.offset + h.start <= Max(q.offset, r.offset)
    && Min(q.offset + q.size, r.offset + r.size) <= q.offset + h.end
  }

  // r does not overlap q, or only where an image of q has a declared hole.
  ghost predicate Clear(children: Children, q: Part, r: Part) {
    || q.offset + q.size <= r.offset || r.offset + r.size <= q.offset
    || (&& q.image.Some? && q.image.value in children
        && exists h: Extent | h in children[q.image.value].holes :: Over(q, r, h))
  }

  // r is clear of all partitions that are placed; a logical partition leaves room
  // for its boot record behind all of them.
  ghost predicate Free(cfg: Config, children: Children, done: seq<Part>, now: nat, r: Part) {
    if r.logical then now + cfg.align <= r.offset
    else
      forall i | 0 <= i < |done| :: Clear(children, done[i], r)
  }

  // r is what becomes of partition p.
  ghost predicate Becomes(cfg: Config, children: Children, g: Progress, p: Part, r: Part) {
    && r == p.(inTable := r.inTable, align := r.align, typeUuid := r.typeUuid, uuid := r.uuid, offset := r.offset, size := r.size)
    && Identifies(cfg, |g.done|, p, r)
    && r.align > 0
    && Positions(cfg, g.now, p, r) && r.offset % r.align == 0
    && Measures(cfg, children, g.resized, p, r)
    && (r.size > 0 || r.kind == Kind.Extended)
    && (r.inTable ==> r.size % 512 == 0)
    && Free(cfg, children, g.done, g.now, r)
  }

  lemma PositionsIff(cfg: Config, now: nat, q: Part, r: Part)
    requires cfg.align > 0 && q.align > 0 && q.align == r.align && q.inTable == r.inTable && Ordinary(cfg, q)
    requires q.inTable ==> !cfg.table.NoTable?
    ensures Positions(cfg, now, q, r) <==> r.offset == Offset(cfg, now, q)
  {
    hide Roundup, RoundedUp;
    if q.offset == 0 {
      if q.kind == Backup {
        RoundedUpIff(now + q.size, 4096, r.offset + q.size);
        RoundupIsLeastMultiple(now + q.size, 4096);
      } else if q.logical {
        RoundedUpIff(now + cfg.align, q.align, r.offset);
        RoundupIsLeastMultiple(now + cfg.align, q.align);
        RoundupMultiple(Roundup(now + cfg.align, q.align), q.align);
      } else {
        RoundedUpIff(now, q.align, r.offset);
      }
    }
  }

  // The greatest multiple up to a bound.
  lemma RounddownIff(room: nat, align: nat, y: nat)
    requires align > 0
    ensures y == Rounddown(room, align) <==> y % align == 0 && y <= room < y + align
  {
    DivMod(room, align);
    MultipleMod(room / align, align);
    if y % align == 0 && y <= room < y + align {
      OneMultiple(y, Rounddown(room, align), align);
    }
  }

  lemma ResizesIff(cfg: Config, resized: bool, q: Part, r: Part)
    requires q.align > 0 && q.autoresize && r == q.(size := r.size)
    ensures Autoresize(cfg, resized, q) == Some(r) <==> Resizes(cfg, resized, q, r)
  {
    hide Rounddown;
    var room := Limit(cfg) - q.offset;
    if room > 0 {
      RounddownIff(room, q.align, r.size);
    }
  }

  lemma Resized(cfg: Config, resized: bool, q: Part)
    requires q.align > 0 && q.autoresize
    ensures var r := Autoresize(cfg, resized, q); r.Some? ==> Resizes(cfg, resized, q, r.value)
  {
    hide Rounddown;
    if Autoresize(cfg, resized, q).Some? {
      ResizesIff(cfg, resized, q, Autoresize(cfg, resized, q).value);
    }
  }

  // It is refused exactly if another partition was resized before, the size of
  // the image is open, not even one unit of the alignment fits, or the largest
  // size that fits is below the given one.
  lemma ResizeFails(cfg: Config, resized: bool, q: Part)
    requires q.align > 0 && q.autoresize
    ensures Autoresize(cfg, resized, q) == None <==>
              || resized || cfg.imageSize == 0 || Limit(cfg) < q.offset + q.align
              || Limit(cfg) - q.offset - (Limit(cfg) - q.offset) % q.align < q.size
  {
    var room := Limit(cfg) - q.offset;
    if room > 0 {
      DivMod(room, q.align);
      if room < q.align {
        DivModUnique(room, 0, room, q.align);
      } else {
        NextMultiple(0, room / q.align, q.align);
      }
    }
  }

  lemma TakenIs(child: Child, p: Part)
    requires child.size == 0 || p.imageoffset <= child.size
    ensures DataSize(child, p) == Taken(child, p.imageoffset)
  {
  }

  // What the image asks of a size: s is the size so far.
  ghost predicate Holds(children: Children, s: Part, r: Part)
    requires r.align > 0
  {
    && (s.image.Some? ==>
          && s.image.value in children
          && var child := children[s.image.value];
             && (child.size == 0 || s.imageoffset <= child.size)
             && Taken(child, s.imageoffset) <= r.size)
    && if s.size != 0 || s.image == None then r.size == s.size
       else if r.inTable then RoundedUp(Taken(children[s.image.value], s.imageoffset), r.align, r.size)
       else r.size == Taken(children[s.image.value], s.imageoffset)
  }

  lemma HoldsIff(children: Children, s: Part, r: Part)
    requires s.align > 0 && r == s.(size := r.size)
    ensures Holds(children, s, r) <==> FitImage(children, s) == Some(r)
  {
    hide Roundup, RoundedUp;
    if s.image.Some? && s.image.value in children {
      var child := children[s.image.value];
      RoundedUpIff(Taken(child, s.imageoffset), s.align, r.size);
      if child.size == 0 || s.imageoffset <= child.size {
        TakenIs(child, s);
      }
    }
  }

  lemma NotResized(cfg: Config, resized: bool, q: Part)
    requires q.align > 0 && !q.autoresize
    ensures Autoresize(cfg, resized, q) == Some(q)
  {
  }

  // A size that autoresize has found is not changed for the image.
  lemma SizeMatters(cfg: Config, children: Children, resized: bool, q: Part, r: Part)
    requires q.align > 0 && q.autoresize && r == q.(size := r.size)
    ensures Resizes(cfg, resized, q, r) <==> Autoresize(cfg, resized, q) == Some(r)
    ensures var s := Autoresize(cfg, resized, q);
            s.Some? ==> s.value.size > 0 && s.value == q.(size := s.value.size)
  {
    ResizesIff(cfg, resized, q, r);
  }

  lemma MeasuresIff(cfg: Config, children: Children, resized: bool, q: Part, r: Part)
    requires q.align > 0 && r == q.(size := r.size)
    ensures Measures(cfg, children, resized, q, r) <==>
              var s := Autoresize(cfg, resized, q); s.Some? && FitImage(children, s.value) == Some(r)
  {
    hide Autoresize, Resizes, FitImage, RoundedUp;
    if q.autoresize {
      SizeMatters(cfg, children, resized, q, r);
    } else {
      NotResized(cfg, resized, q);
    }
    if Autoresize(cfg, resized, q).Some? {
      HoldsIff(children, Autoresize(cfg, resized, q).value, r);
    }
  }

  // The offset does not matter for the size that is asked for.
  lemma SameMeasure(cfg: Config, children: Children, resized: bool, q: Part, t: Part, r: Part)
    requires r.align > 0 && t == q.(offset := t.offset)
    ensures Measures(cfg, children, resized, q, r) == Measures(cfg, children, resized, t, r)
  {
  }

  lemma OnlySizes(cfg: Config, children: Children, resized: bool, q: Part)
    requires q.align > 0
    ensures var s := Autoresize(cfg, resized, q);
            && (s.Some? ==> s.value == q.(size := s.value.size))
            && (s.Some? && FitImage(children, s.value).Some? ==>
                  FitImage(children, s.value).value == q.(size := FitImage(children, s.value).value.size))
  {
  }

  lemma FitParts(cfg: Config, children: Children, g: Progress, q: Part, r: Part)
    requires q.align > 0 && r == q.(offset := r.offset, size := r.size)
    ensures Fit(cfg, children, g, q) == Some(r) <==>
              && r.offset == Offset(cfg, g.now, q) && r.offset % q.align == 0
              && var s := Autoresize(cfg, g.resized, q.(offset := r.offset));
                 s.Some? && FitImage(children, s.value) == Some(r)
  {
    hide Offset;
    OnlySizes(cfg, children, g.resized, q.(offset := Offset(cfg, g.now, q)));
  }

  lemma FitIff(cfg: Config, children: Children, g: Progress, q: Part, r: Part)
    requires cfg.align > 0 && q.align > 0 && Ordinary(cfg, q) && (q.inTable ==> !cfg.table.NoTable?)
    requires r == q.(offset := r.offset, size := r.size)
    ensures Fit(cfg, children, g, q) == Some(r) <==>
              Positions(cfg, g.now, q, r) && r.offset % r.align == 0 && Measures(cfg, children, g.resized, q, r)
  {
    hide Autoresize, FitImage, Offset, Positions, Measures;
    PositionsIff(cfg, g.now, q, r);
    var t := q.(offset := r.offset);
    MeasuresIff(cfg, children, g.resized, t, r);
    SameMeasure(cfg, children, g.resized, q, t, r);
    FitParts(cfg, children, g, q, r);
  }

  // ------------------------------------------------- one partition

  lemma ClearIff(children: Children, q: Part, r: Part)
    ensures Clear(children, q, r) <==> Compatible(children, q, r)
  {
    if !Apart(q.offset, q.End(), r.offset, r.End()) && q.image.Some? && q.image.value in children {
      var holes := children[q.image.value].holes;
      if h: Extent :| h in holes && Over(q, r, h) {
        var i :| 0 <= i < |holes| && holes[i] == h;
        assert holes[i].start <= Max(r.offset, q.offset) - q.offset;
      }
      if Compatible(children, q, r) {
        var i :| 0 <= i < |holes| && holes[i].start <= Max(r.offset, q.offset) - q.offset
          && Min(r.End(), q.End()) - q.offset <= holes[i].end;
        assert holes[i] in holes && Over(q, r, holes[i]);
      }
    }
  }

  // The first free position, once a partition has its offset.
  lemma FreeIff(cfg: Config, children: Children, done: seq<Part>, now: nat, q: Part, r: Part)
    requires cfg.align > 0 && q.align > 0 && Ordinary(cfg, q) && r == q.(offset := r.offset, size := r.size)
    requires r.offset % r.align == 0
    ensures Free(cfg, children, done, now, r) <==>
              if r.logical then Advance(cfg, now, q) <= r.offset else NoOverlap(children, done, r)
  {
    hide Roundup, Compatible, Clear;
    if r.logical {
      MultipleAbove(now + cfg.align, q.align, r.offset);
    } else {
      forall i | 0 <= i < |done|
        ensures Clear(children, done[i], r) <==> Compatible(children, done[i], r)
      {
        ClearIff(children, done[i], r);
      }
    }
  }

  // Everything behind a partition is free from its end on.
  lemma NextFree(cfg: Config, now: nat, q: Part, r: Part)
    requires cfg.align > 0 && q.align > 0 && Ordinary(cfg, q) && r == q.(offset := r.offset, size := r.size)
    requires r.offset % r.align == 0 && Positions(cfg, now, q, r)
    requires r.logical ==> now + cfg.align <= r.offset
    requires r.kind == Backup ==> r.size == q.size
    ensures Max(Advance(cfg, now, q), r.End()) == Max(now, r.End())
  {
    hide Roundup;
    if r.logical {
      MultipleAbove(now + cfg.align, q.align, r.offset);
      RoundupIsLeastMultiple(now + cfg.align, q.align);
    }
  }

  // How far the file has to reach for a partition: to the end of what is copied
  // from its image, and of the boot record of a logical one.
  function Needs(cfg: Config, children: Children, r: Part): int {
    Max(if r.image.Some? && r.image.value in children then r.offset + Taken(children[r.image.value], r.imageoffset) else 0,
        if r.logical then r.offset - cfg.align + 512 else 0)
  }

  // The partitions before, with r behind them; `[Extended]` grows up to `now` if r is logical.
  ghost predicate Appends(done: seq<Part>, now: nat, r: Part, done': seq<Part>) {
    && |done'| == |done| + 1 && done'[|done|] == r
    && forall i | 0 <= i < |done| ::
         done'[i] == if r.logical && done[i].kind == Kind.Extended && done[i].offset <= now
                     then done[i].(size := now - done[i].offset) else done[i]
  }

  // The partitions, `now`, the predicted file size and the counters behind r.
  ghost predicate Follows(cfg: Config, children: Children, g: Progress, r: Part, g': Progress) {
    && g'.now == Max(g.now, r.offset + r.size)
    && Appends(g.done, g'.now, r, g'.done)
    && g'.fileSize == Max(g.fileSize, Needs(cfg, children, r))
    && g'.resized == (g.resized || r.autoresize)
    && g'.hybridEntries
       == g.hybridEntries + (if (cfg.table.Gpt? || cfg.table.Hybrid?) && r.inTable && r.partitionType != 0 then 1 else 0)
  }

  lemma NeedsIsEnd(cfg: Config, children: Children, r: Part)
    requires r.image.Some? && r.image.value in children ==>
               children[r.image.value].size == 0 || r.imageoffset <= children[r.image.value].size
    ensures forall size: nat ::
              Max(size, Needs(cfg, children, r))
              == var dataEnd := Max(size, DataEnd(children, r)); if r.logical then Max(dataEnd, r.offset - cfg.align + SECTOR) else dataEnd
  {
    if r.image.Some? && r.image.value in children {
      TakenIs(children[r.image.value], r);
    }
  }

  lemma AppendsIff(done: seq<Part>, now: nat, r: Part, done': seq<Part>)
    ensures Appends(done, now, r, done') <==> done' == (if r.logical then Stretch(done, now) else done) + [r]
  {
    var all := (if r.logical then Stretch(done, now) else done) + [r];
    if Appends(done, now, r, done') {
      assert done' == all;
    }
  }

  lemma FollowsIs(cfg: Config, children: Children, g: Progress, q: Part, r: Part, g': Progress)
    requires cfg.align > 0 && q.align > 0 && r == q.(offset := r.offset, size := r.size)
    requires r.image.Some? && r.image.value in children ==>
               children[r.image.value].size == 0 || r.imageoffset <= children[r.image.value].size
    requires Max(Advance(cfg, g.now, q), r.End()) == Max(g.now, r.End())
    ensures var now, dataEnd := Max(Advance(cfg, g.now, q), r.End()), Max(g.fileSize, DataEnd(children, r));
            Follows(cfg, children, g, r, g') <==>
              g' == Progress(
                (if r.logical then Stretch(g.done, now) else g.done) + [r],
                now,
                if r.logical then Max(dataEnd, r.offset - cfg.align + SECTOR) else dataEnd,
                g.resized || r.autoresize,
                g.hybridEntries + (if cfg.table.HasGpt() && r.inTable && r.partitionType != 0 then 1 else 0))
  {
    hide Advance, Stretch, Needs, DataEnd, Appends;
    NeedsIsEnd(cfg, children, r);
    AppendsIff(g.done, Max(g.now, r.End()), r, g'.done);
  }

  // The partition before it has its offset and size.
  function Before(p: Part, r: Part): Part {
    r.(offset := p.offset, size := p.size)
  }

  lemma BecomesParts(cfg: Config, children: Children, g: Progress, p: Part, r: Part)
    requires cfg.align > 0 && Ordinary(cfg, p)
    requires Before(p, r) == p.(inTable := r.inTable, align := r.align, typeUuid := r.typeUuid, uuid := r.uuid)
    requires Identifies(cfg, |g.done|, p, r)
    ensures r.align > 0 && Ordinary(cfg, Before(p, r)) && (r.inTable ==> !cfg.table.NoTable?)
    ensures Positions(cfg, g.now, p, r) == Positions(cfg, g.now, Before(p, r), r)
    ensures Measures(cfg, children, g.resized, p, r) == Measures(cfg, children, g.resized, Before(p, r), r)
    ensures Measures(cfg, children, g.resized, p, r) && r.kind == Backup ==> r.size == p.size
  {
    hide RoundedUp, Typed;
    assert r.kind == p.kind && r.autoresize == p.autoresize && r.image == p.image;
  }

  lemma SameIds(cfg: Config, n: nat, p: Part, q: Part, r: Part)
    requires q == Before(p, r)
    ensures Identifies(cfg, n, p, q) == Identifies(cfg, n, p, r)
  {
    hide Typed;
  }

  lemma BootRoom(cfg: Config, children: Children, done: seq<Part>, now: nat, r: Part)
    requires Free(cfg, children, done, now, r)
    ensures r.logical ==> now + cfg.align <= r.offset
  {
  }

  lemma ImageFits(cfg: Config, children: Children, resized: bool, p: Part, r: Part)
    requires r.align > 0 && Measures(cfg, children, resized, p, r) && p.image == r.image && p.imageoffset == r.imageoffset
    ensures r.image.Some? && r.image.value in children ==>
              children[r.image.value].size == 0 || r.imageoffset <= children[r.image.value].size
  {
  }

  lemma BecomesIsStep(cfg: Config, children: Children, g: Progress, p: Part, r: Part, g': Progress)
    requires cfg.align > 0 && Ordinary(cfg, p)
    requires Becomes(cfg, children, g, p, r) && Follows(cfg, children, g, r, g')
    ensures Step(cfg, children, g, p) == Some(g')
  {
    hide Step, Fit, Resolve, Advance, Stretch, NoOverlap, DataEnd, Identifies, Positions, Measures, Free, Follows;
    hide Ordinary;
    var q := Before(p, r);
    BecomesParts(cfg, children, g, p, r);
    ResolveIff(cfg, |g.done|, p, q);
    SameIds(cfg, |g.done|, p, q, r);
    FitIff(cfg, children, g, q, r);
    FreeIff(cfg, children, g.done, g.now, q, r);
    NextFree(cfg, g.now, q, r) by {
      BootRoom(cfg, children, g.done, g.now, r);
    }
    ImageFits(cfg, children, g.resized, p, r);
    FollowsIs(cfg, children, g, q, r, g');
    StepParts(cfg, children, g, p);
  }

  lemma FitKeeps(cfg: Config, children: Children, g: Progress, q: Part)
    requires q.align > 0
    ensures var r := Fit(cfg, children, g, q); r.Some? ==> r.value == q.(offset := r.value.offset, size := r.value.size)
  {
    hide Offset;
    OnlySizes(cfg, children, g.resized, q.(offset := Offset(cfg, g.now, q)));
  }

  lemma StepBecomes(cfg: Config, children: Children, g: Progress, p: Part, r: Part, g': Progress)
    requires cfg.align > 0 && Ordinary(cfg, p)
    requires Step(cfg, children, g, p) == Some(g') && g'.done != [] && r == g'.done[|g'.done| - 1]
    ensures Becomes(cfg, children, g, p, r) && Follows(cfg, children, g, r, g')
  {
    hide Step, Fit, Resolve, Advance, Stretch, NoOverlap, DataEnd, Identifies, Positions, Measures, Free, Follows;
    hide Ordinary;
    StepParts(cfg, children, g, p);
    var q := Resolve(cfg, |g.done|, p).value;
    FitKeeps(cfg, children, g, q);
    ResolveIff(cfg, |g.done|, p, q);
    assert q == Before(p, r);
    SameIds(cfg, |g.done|, p, q, r);
    BecomesParts(cfg, children, g, p, r);
    FitIff(cfg, children, g, q, r);
    FreeIff(cfg, children, g.done, g.now, q, r);
    NextFree(cfg, g.now, q, r) by {
      BootRoom(cfg, children, g.done, g.now, r);
    }
    ImageFits(cfg, children, g.resized, p, r);
    FollowsIs(cfg, children, g, q, r, g');
  }

  // A partition is accepted if and only if it can become some r, which is the
  // only one, and then it becomes this.
  lemma StepIff(cfg: Config, children: Children, g: Progress, p: Part, r: Part, g': Progress)
    requires cfg.align > 0 && Ordinary(cfg, p)
    ensures Becomes(cfg, children, g, p, r) && Follows(cfg, children, g, r, g') ==> Step(cfg, children, g, p) == Some(g')
    ensures Step(cfg, children, g, p) == Some(g') && r == g'.done[|g'.done| - 1] ==>
              Becomes(cfg, children, g, p, r) && Follows(cfg, children, g, r, g')
  {
    hide Fit, Resolve, Fits, Becomes, Follows, DataEnd, Advance, Stretch;
    if Becomes(cfg, children, g, p, r) && Follows(cfg, children, g, r, g') {
      BecomesIsStep(cfg, children, g, p, r, g');
    }
    if Step(cfg, children, g, p) == Some(g') && g'.done != [] && r == g'.done[|g'.done| - 1] {
      StepBecomes(cfg, children, g, p, r, g');
    }
  }

  lemma SomeFollows(cfg: Config, children: Children, g: Progress, r: Part) returns (g': Progress)
    ensures Follows(cfg, children, g, r, g')
  {
    var now := Max(g.now, r.End());
    g' := Progress((if r.logical then Stretch(g.done, now) else g.done) + [r], now, Max(g.fileSize, Needs(cfg, children, r)),
                   g.resized || r.autoresize,
                   g.hybridEntries + (if (cfg.table.Gpt? || cfg.table.Hybrid?) && r.inTable && r.partitionType != 0 then 1 else 0));
  }

  // So it is refused if and only if there is nothing that it can become.
  lemma StepAccepts(cfg: Config, children: Children, g: Progress, p: Part)
    requires cfg.align > 0 && Ordinary(cfg, p)
    ensures Step(cfg, children, g, p).Some? <==> exists r: Part :: Becomes(cfg, children, g, p, r)
  {
    hide Step, Becomes, Follows;
    if r: Part :| Becomes(cfg, children, g, p, r) {
      var g' := SomeFollows(cfg, children, g, r);
      StepIff(cfg, children, g, p, r, g');
    }
    if Step(cfg, children, g, p).Some? {
      var g' := Step(cfg, children, g, p).value;
      var r, start := StepIs(cfg, children, g, p);
      StepIff(cfg, children, g, p, r, g');
    }
  }
}
