/**
  Which regions of a finished hard disk layout may share bytes.
 */
module HdOverlap {
  import opened Bytes
  import opened Arith
  import opened Model
  import opened HdLayout
  import Uuid

  // ------------------------------------------------- what one step does

  // Only these six fields change in a step.
  ghost predicate SameOptions(cfg: Config, p: Part, r: Part) {
    r == p.(inTable := p.inTable && !cfg.table.NoTable?,
            offset := r.offset, size := r.size, align := r.align, typeUuid := r.typeUuid, uuid := r.uuid)
  }

  // The partition has its image, and room for it.
  predicate HoldsImage(children: Children, r: Part) {
    r.image.Some? ==>
      && r.image.value in children
      && var child := children[r.image.value];
         && (child.size != 0 ==> r.imageoffset <= child.size)
         && DataSize(child, r) <= r.size
  }

  // r is what becomes of p when it is placed at a time when start is the first
  // free position.
  ghost predicate Placed(cfg: Config, children: Children, now: nat, start: nat, p: Part, r: Part) {
    && SameOptions(cfg, p, r)
    && HoldsImage(children, r)
    && r.align > 0 && r.offset % r.align == 0
    && r.align == (if p.align != 0 then p.align else if r.inTable || cfg.table.NoTable? then cfg.align else 1)
    && now <= start
    && (r.logical ==> now + cfg.align <= start)
    && (r.logical ==> Reserve(cfg, now, r) <= start)
    && (p.offset != 0 ==> r.offset == p.offset)
    && (p.offset == 0 && r.inTable && r.kind != Backup ==> r.offset == Roundup(start, r.align))
    && (r.kind != Backup ==> start == Reserve(cfg, now, r))
    && (p.image == None && !p.autoresize ==> r.size == p.size)
  }

  lemma ReserveGrows(cfg: Config, now: nat, p: Part)
    requires cfg.align > 0 && p.align > 0
    ensures now <= Reserve(cfg, now, p)
    ensures p.logical ==> now + cfg.align <= Reserve(cfg, now, p)
  {
    if p.logical {
      RoundupIsLeastMultiple(now + cfg.align, p.align);
    }
  }

  lemma ResolveIs(cfg: Config, n: nat, p: Part)
    requires cfg.align > 0 && Resolve(cfg, n, p).Some?
    ensures var r := Resolve(cfg, n, p).value;
            && SameOptions(cfg, p, r)
            && r.align == (if p.align != 0 then p.align else if r.inTable || cfg.table.NoTable? then cfg.align else 1)
            && r.offset == p.offset && r.size == p.size
  {
    hide TypeUuid, Uuid.Valid;
  }

  lemma FitIs(cfg: Config, children: Children, g: Progress, p: Part)
    requires p.align > 0 && Fit(cfg, children, g, p).Some?
    ensures var r := Fit(cfg, children, g, p).value;
            && r.(size := p.size, offset := p.offset) == p
            && r.offset == Offset(cfg, g.now, p)
            && r.offset % r.align == 0
            && HoldsImage(children, r)
            && (p.image == None && !p.autoresize ==> r.size == p.size)
  {
  }

  // The loop body in its parts.
  lemma StepParts(cfg: Config, children: Children, g: Progress, p0: Part)
    requires cfg.align > 0
    ensures var step, p := Step(cfg, children, g, p0), Resolve(cfg, |g.done|, p0);
            if p.None? then step == None
            else
              var r, start := Fit(cfg, children, g, p.value), Advance(cfg, g.now, p.value);
              if r.None? || !Fits(children, g.done, start, r.value) then step == None
              else
                var now, dataEnd := Max(start, r.value.End()), Max(g.fileSize, DataEnd(children, r.value));
                step == Some(Progress(
                  (if r.value.logical then Stretch(g.done, now) else g.done) + [r.value],
                  now,
                  if r.value.logical then Max(dataEnd, r.value.offset - cfg.align + SECTOR) else dataEnd,
                  g.resized || r.value.autoresize,
                  g.hybridEntries + (if cfg.table.HasGpt() && r.value.inTable && r.value.partitionType != 0 then 1 else 0)))
  {
    hide Resolve, Fit, Advance, Fits, Stretch, DataEnd;
  }

  lemma StepIs(cfg: Config, children: Children, g: Progress, p: Part) returns (r: Part, start: nat)
    requires cfg.align > 0 && Step(cfg, children, g, p).Some?
    ensures var g' := Step(cfg, children, g, p).value;
            && Placed(cfg, children, g.now, start, p, r)
            && Fits(children, g.done, start, r)
            && g'.now == Max(start, r.End())
            && g'.done == (if r.logical then Stretch(g.done, g'.now) else g.done) + [r]
  {
    hide Step, Resolve, Fit, Fits, Stretch, DataEnd;
    StepParts(cfg, children, g, p);
    var p1 := Resolve(cfg, |g.done|, p).value;
    r := Fit(cfg, children, g, p1).value;
    start := Advance(cfg, g.now, p1);
    ResolveIs(cfg, |g.done|, p);
    FitIs(cfg, children, g, p1);
    ReserveGrows(cfg, g.now, p1);
    assert Reserve(cfg, g.now, p1) == Reserve(cfg, g.now, r);
  }

  // ------------------------------------------------- the invariant

  // Nothing reaches beyond `now`.
  ghost predicate Below(done: seq<Part>, now: nat) {
    forall i | 0 <= i < |done| :: done[i].End() <= now
  }

  // Every pair in list order is apart, or shares bytes of one hole of the first.
  ghost predicate Pairwise(children: Children, done: seq<Part>) {
    forall i, j | 0 <= i < j < |done| ::
      !done[i].kind.Extended? && !done[j].kind.Extended? ==> Compatible(children, done[i], done[j])
  }

  // Before a logical partition is room for its boot record.
  ghost predicate Spaced(align: nat, done: seq<Part>) {
    forall i, j | 0 <= i < j < |done| ::
      done[j].logical && !done[i].kind.Extended? ==> done[i].End() + align <= done[j].offset
  }

  // Logical partitions and their boot records are inside of `[Extended]`.
  ghost predicate Contained(align: nat, done: seq<Part>) {
    forall e, i | 0 <= e < |done| && 0 <= i < |done| ::
      done[e].kind.Extended? && done[i].logical ==>
        done[e].offset + align <= done[i].offset && done[i].End() <= done[e].End()
  }

  // No later partition touches a logical partition or its boot record.
  ghost predicate Guarded(align: nat, done: seq<Part>) {
    forall i, j | 0 <= i < j < |done| ::
      done[i].logical && !done[j].kind.Extended? ==>
        Apart(done[i].offset - align, done[i].End(), done[j].offset, done[j].End())
  }

  // A primary partition of the table is apart from `[Extended]`.
  ghost predicate PrimariesOutside(done: seq<Part>) {
    forall e, i | 0 <= e < |done| && 0 <= i < |done| ::
      done[e].kind.Extended? && done[e].size > 0 && done[i].inTable && !done[i].logical && !done[i].kind.Extended? ==>
        Apart(done[e].offset, done[e].End(), done[i].offset, done[i].End())
  }

  // An `[Extended]` partition has no image, and every logical partition has one
  // before it.
  ghost predicate Held(done: seq<Part>) {
    && (forall e | 0 <= e < |done| && done[e].kind.Extended? :: done[e].image == None && !done[e].logical)
    && (forall i | 0 <= i < |done| && done[i].logical :: exists e :: 0 <= e < i && done[e].kind.Extended?)
  }

  ghost predicate Inv(align: nat, children: Children, done: seq<Part>, now: nat) {
    && Below(done, now)
    && Pairwise(children, done)
    && Spaced(align, done)
    && Contained(align, done)
    && Guarded(align, done)
    && PrimariesOutside(done)
    && Held(done)
  }

  // The list so far ends inside of `[Extended]`, which is at index e: what came
  // before ends before it, and no primary partition has followed.
  ghost predicate Open(done: seq<Part>, e: nat) {
    && e < |done| && done[e].kind.Extended? && done[e].image == None && !done[e].logical
    && (forall i | 0 <= i < |done| :: i != e ==> !done[i].kind.Extended?)
    && (forall i | 0 <= i < e :: done[i].End() <= done[e].offset && !done[i].logical)
    && (forall i | e < i < |done| && done[i].inTable :: done[i].logical)
  }

  ghost predicate Stepped(align: nat, children: Children, done: seq<Part>, now: nat, r: Part, done': seq<Part>,
                          now': nat) {
    exists start: nat ::
      && now <= start
      && (r.logical ==> now + align <= start)
      && Fits(children, done, start, r)
      && now' == Max(start, r.End())
      && done' == (if r.logical then Stretch(done, now') else done) + [r]
  }

  lemma StretchIs(done: seq<Part>, now: nat)
    requires Below(done, now)
    ensures var s := Stretch(done, now);
            forall i | 0 <= i < |done| ::
              s[i] == if done[i].kind.Extended? then done[i].(size := now - done[i].offset) else done[i]
  {
  }

  lemma KeepsBelow(align: nat, children: Children, done: seq<Part>, now: nat, r: Part, done': seq<Part>, now': nat)
    requires Below(done, now) && Stepped(align, children, done, now, r, done', now')
    ensures Below(done', now')
  {
    StretchIs(done, now');
  }

  lemma KeepsPairwise(align: nat, children: Children, done: seq<Part>, now: nat, r: Part, done': seq<Part>, now': nat)
    requires Below(done, now) && Pairwise(children, done) && Stepped(align, children, done, now, r, done', now')
    ensures Pairwise(children, done')
  {
    StretchIs(done, now');
    forall i | 0 <= i < |done| && !done[i].kind.Extended?
      ensures Compatible(children, done[i], r)
    {
    }
  }

  lemma KeepsSpaced(align: nat, children: Children, done: seq<Part>, now: nat, r: Part, done': seq<Part>, now': nat)
    requires Below(done, now) && Spaced(align, done) && Stepped(align, children, done, now, r, done', now')
    ensures Spaced(align, done')
  {
    StretchIs(done, now');
  }

  lemma KeepsContained(align: nat, children: Children, done: seq<Part>, now: nat, r: Part, done': seq<Part>, now': nat)
    requires Below(done, now) && Contained(align, done) && Stepped(align, children, done, now, r, done', now')
    requires !r.kind.Extended? || forall i | 0 <= i < |done| :: !done[i].logical
    requires r.kind.Extended? ==> !r.logical
    ensures Contained(align, done')
  {
    StretchIs(done, now');
  }

  lemma ContainerApart(children: Children, q: Part, r: Part)
    requires q.image == None && Compatible(children, q, r)
    ensures Apart(q.offset, q.End(), r.offset, r.End())
  {
  }

  lemma KeepsGuarded(align: nat, children: Children, done: seq<Part>, now: nat, r: Part, done': seq<Part>, now': nat)
    requires Below(done, now) && Contained(align, done) && Guarded(align, done) && Held(done)
    requires Stepped(align, children, done, now, r, done', now')
    ensures Guarded(align, done')
  {
    hide Compatible;
    StretchIs(done, now');
    forall i | 0 <= i < |done| && done[i].logical && !r.kind.Extended?
      ensures Apart(done[i].offset - align, done[i].End(), r.offset, r.End())
    {
      var e :| 0 <= e < i && done[e].kind.Extended?;
      if !r.logical {
        assert Compatible(children, done[e], r);
        ContainerApart(children, done[e], r);
      }
    }
  }

  lemma KeepsPrimariesOutside(align: nat, children: Children, done: seq<Part>, now: nat, r: Part, done': seq<Part>,
                              now': nat)
    requires Below(done, now) && PrimariesOutside(done) && Held(done)
    requires Stepped(align, children, done, now, r, done', now')
    requires r.logical ==> exists e: nat :: Open(done, e)
    requires r.kind.Extended? ==> r.size == 0
    ensures PrimariesOutside(done')
  {
    hide Compatible;
    StretchIs(done, now');
    forall e | 0 <= e < |done| && done[e].kind.Extended? && !r.logical
      ensures Apart(done[e].offset, done[e].End(), r.offset, r.End())
    {
      assert Compatible(children, done[e], r);
      ContainerApart(children, done[e], r);
    }
  }

  lemma KeepsHeld(align: nat, children: Children, done: seq<Part>, now: nat, r: Part, done': seq<Part>, now': nat)
    requires Held(done) && Stepped(align, children, done, now, r, done', now')
    requires r.logical ==> exists e: nat :: Open(done, e)
    requires r.kind.Extended? ==> r.image == None && !r.logical
    ensures Held(done')
  {
    forall i | 0 <= i < |done'| && done'[i].logical
      ensures exists e :: 0 <= e < i && done'[e].kind.Extended?
    {
      var e: nat;
      if i < |done| {
        e :| 0 <= e < i && done[e].kind.Extended?;
      } else {
        e :| Open(done, e);
      }
      assert done'[e].kind.Extended?;
    }
  }

  lemma KeepsInv(align: nat, children: Children, done: seq<Part>, now: nat, r: Part, done': seq<Part>, now': nat)
    requires Inv(align, children, done, now) && Stepped(align, children, done, now, r, done', now')
    requires r.logical ==> exists e: nat :: Open(done, e)
    requires r.kind.Extended? ==> r.image == None && !r.logical && r.size == 0 && forall i | 0 <= i < |done| :: !done[i].logical
    ensures Inv(align, children, done', now')
  {
    hide Below, Pairwise, Spaced, Contained, Guarded, PrimariesOutside, Held, Stepped, Open;
    KeepsBelow(align, children, done, now, r, done', now');
    KeepsPairwise(align, children, done, now, r, done', now');
    KeepsSpaced(align, children, done, now, r, done', now');
    KeepsContained(align, children, done, now, r, done', now');
    KeepsGuarded(align, children, done, now, r, done', now');
    KeepsPrimariesOutside(align, children, done, now, r, done', now');
    KeepsHeld(align, children, done, now, r, done', now');
  }

  // ------------------------------------------------- from step to run

  // A list without `[Extended]` and without logical partitions.
  ghost predicate Plain(parts: seq<Part>) {
    forall i | 0 <= i < |parts| :: !parts[i].kind.Extended? && !parts[i].logical
  }

  // A list without partitions of the table.
  ghost predicate Bare(parts: seq<Part>) {
    Plain(parts) && forall i | 0 <= i < |parts| :: !parts[i].inTable
  }

  // A list behind `[Extended]`: a primary partition of the table is there by
  // force, and once it comes, no logical one follows.
  ghost predicate Closing(parts: seq<Part>) {
    && (forall i | 0 <= i < |parts| :: !parts[i].kind.Extended?)
    && (forall i | 0 <= i < |parts| :: parts[i].inTable && !parts[i].logical ==> parts[i].forcedPrimary)
    && (forall i, j | 0 <= i < j < |parts| :: parts[i].inTable && !parts[i].logical ==> !parts[j].logical)
  }

  lemma StepKeepsInv(cfg: Config, children: Children, g: Progress, p: Part)
    requires cfg.align > 0 && Step(cfg, children, g, p).Some?
    requires Inv(cfg.align, children, g.done, g.now)
    requires p.logical ==> exists e: nat :: Open(g.done, e)
    requires p.kind.Extended? ==>
      p.image == None && !p.autoresize && !p.logical && p.size == 0 && forall i | 0 <= i < |g.done| :: !g.done[i].logical
    ensures var g' := Step(cfg, children, g, p).value; Inv(cfg.align, children, g'.done, g'.now)
  {
    hide Inv, Step, Fits, Stretch, Open;
    var g' := Step(cfg, children, g, p).value;
    var r, start := StepIs(cfg, children, g, p);
    assert Stepped(cfg.align, children, g.done, g.now, r, g'.done, g'.now);
    KeepsInv(cfg.align, children, g.done, g.now, r, g'.done, g'.now);
  }

  lemma {:induction false} PlacePlain(cfg: Config, children: Children, g: Progress, todo: seq<Part>)
    requires cfg.align > 0 && Place(cfg, children, g, todo).Some?
    requires Inv(cfg.align, children, g.done, g.now) && Plain(todo)
    ensures var g' := Place(cfg, children, g, todo).value; Inv(cfg.align, children, g'.done, g'.now)
    decreases |todo|
  {
    hide Inv, Step, Open;
    if todo == [] {
    } else {
      StepKeepsInv(cfg, children, g, todo[0]);
      PlacePlain(cfg, children, Step(cfg, children, g, todo[0]).value, todo[1..]);
    }
  }

  // A step inside of `[Extended]` leaves it open, unless a primary partition came.
  lemma StepKeepsOpen(cfg: Config, children: Children, g: Progress, p: Part, e: nat)
    requires cfg.align > 0 && Step(cfg, children, g, p).Some?
    requires Inv(cfg.align, children, g.done, g.now) && Open(g.done, e)
    requires !p.kind.Extended? && (p.logical || !p.inTable)
    ensures Open(Step(cfg, children, g, p).value.done, e)
  {
    hide Step, Fits;
    var r, start := StepIs(cfg, children, g, p);
    if r.logical {
      StretchIs(g.done, Max(start, r.End()));
    }
  }

  lemma {:induction false} PlaceClosing(cfg: Config, children: Children, g: Progress, todo: seq<Part>, e: nat)
    requires cfg.align > 0 && Place(cfg, children, g, todo).Some?
    requires Inv(cfg.align, children, g.done, g.now) && Closing(todo)
    requires Open(g.done, e)
    ensures var g' := Place(cfg, children, g, todo).value; Inv(cfg.align, children, g'.done, g'.now)
    decreases |todo|
  {
    hide Inv, Step, Open;
    if todo == [] {
    } else {
      StepKeepsInv(cfg, children, g, todo[0]);
      var g' := Step(cfg, children, g, todo[0]).value;
      if todo[0].logical || !todo[0].inTable {
        StepKeepsOpen(cfg, children, g, todo[0], e);
        PlaceClosing(cfg, children, g', todo[1..], e);
      } else {
        PlacePlain(cfg, children, g', todo[1..]);
      }
    }
  }

  // ------------------------------------------------- the list of partitions

  // The partitions of the configuration, before the setup.
  ghost predicate Fresh(parts: seq<Part>) {
    forall i | 0 <= i < |parts| :: parts[i].kind == Configured && !parts[i].logical
  }

  // `[Extended]` at index k, right before a partition of the table.
  ghost predicate Divided(cfg: Config, parts: seq<Part>, k: nat) {
    && k + 1 < |parts|
    && Plain(parts[..k])
    && parts[k] == ExtendedPartition(cfg, parts[k + 1])
    && parts[k + 1].inTable
    && Closing(parts[k + 1..])
  }

  lemma PlainCons(p: Part, s: seq<Part>)
    requires !p.kind.Extended? && !p.logical && Plain(s)
    ensures Plain([p] + s)
  {
  }

  lemma ClosingCons(p: Part, s: seq<Part>)
    requires !p.kind.Extended? && Closing(s)
    requires p.inTable && !p.logical ==> p.forcedPrimary && Plain(s)
    ensures Closing([p] + s)
  {
  }

  lemma DividedCons(cfg: Config, p: Part, s: seq<Part>, k: nat)
    requires !p.kind.Extended? && !p.logical && Divided(cfg, s, k)
    ensures Divided(cfg, [p] + s, k + 1)
  {
    hide Closing;
    var t := [p] + s;
    assert t[..k + 1] == [p] + s[..k];
    assert t[k + 2..] == s[k + 1..];
  }

  lemma DividedHere(cfg: Config, p: Part, s: seq<Part>)
    requires p.inTable && Closing([p] + s)
    ensures Divided(cfg, [ExtendedPartition(cfg, p)] + [p] + s, 0)
  {
    hide Closing;
    var t := [ExtendedPartition(cfg, p)] + [p] + s;
    assert t[1..] == [p] + s;
  }

  lemma NothingIsPlain()
    ensures Plain([]) && Closing([])
  {
  }

  lemma ExtendedDependsOnOffset(cfg: Config, p: Part, q: Part)
    requires p.offset == q.offset
    ensures ExtendedPartition(cfg, p) == ExtendedPartition(cfg, q)
  {
  }

  // Which places `setup_logical_partitions` gives to the logical partitions.
  // The index of the extended partition is passed exactly once.
  lemma {:induction false} SplitShape(cfg: Config, index: nat, parts: seq<Part>, count: nat, entries: nat,
                                      inExtended: bool, found: bool)
    returns (k: nat)
    requires Fresh(parts) && (inExtended ==> found) && (found ==> index <= count)
    requires SplitLogical(cfg, index, parts, count, entries, inExtended, found).Some?
    ensures var s := SplitLogical(cfg, index, parts, count, entries, inExtended, found).value;
            if inExtended then Closing(s)
            else if found then Plain(s) && Closing(s)
            else Plain(s) || Divided(cfg, s, k)
    decreases |parts|
  {
    hide Plain, Closing, Divided, ExtendedPartition;
    k := 0;
    if parts == [] {
      NothingIsPlain();
      return;
    }
    var p, rest := parts[0], parts[1..];
    if !p.inTable {
      k := SplitShape(cfg, index, rest, count, entries, inExtended, found);
      var s := SplitLogical(cfg, index, rest, count, entries, inExtended, found).value;
      if found {
        ClosingCons(p, s);
      }
      if !inExtended && (found || Plain(s)) {
        PlainCons(p, s);
      } else if !found {
        DividedCons(cfg, p, s, k);
        k := k + 1;
      }
    } else {
      var starts := index == count + 1;
      var inside := (inExtended || starts) && !p.forcedPrimary;
      var entries' := entries + (if starts then 1 else 0) + (if inside then 0 else 1);
      k := SplitShape(cfg, index, rest, count + 1, entries', inside, found || starts);
      var s := SplitLogical(cfg, index, rest, count + 1, entries', inside, found || starts).value;
      var q := p.(logical := inside);
      assert [] + [q] + s == [q] + s;
      if found || starts {
        ClosingCons(q, s);
      }
      if !inside && (found || starts || Plain(s)) {
        PlainCons(q, s);
      } else if !found && !starts {
        DividedCons(cfg, q, s, k);
      }
      if starts {
        ExtendedDependsOnOffset(cfg, p, q);
        DividedHere(cfg, q, s);
        k := 0;
      } else {
        k := k + 1;
      }
    }
  }

  // ------------------------------------------------- the whole run

  lemma {:induction false} PlaceConcat(cfg: Config, children: Children, g: Progress, a: seq<Part>, b: seq<Part>)
    requires cfg.align > 0 && Place(cfg, children, g, a + b).Some?
    ensures Place(cfg, children, g, a).Some?
    ensures Place(cfg, children, g, a + b) == Place(cfg, children, Place(cfg, children, g, a).value, b)
    decreases |a|
  {
    hide Step;
    if a == [] {
      assert a + b == b;
    } else {
      assert (a + b)[1..] == a[1..] + b;
      PlaceConcat(cfg, children, Step(cfg, children, g, a[0]).value, a[1..], b);
    }
  }

  // A partition that keeps its place while `[Extended]` may be stretched.
  ghost predicate Stays(q: Part, r: Part) {
    if q.kind.Extended? then r == q.(size := r.size) else r == q
  }

  lemma StaysSame(cfg: Config, p: Part, q: Part, r: Part)
    requires SameOptions(cfg, p, q) && Stays(q, r)
    ensures SameOptions(cfg, p, r)
  {
  }

  // Partitions are placed in the order of the list, and not touched again.
  lemma {:induction false} PlaceKeepsOrder(cfg: Config, children: Children, g: Progress, todo: seq<Part>)
    requires cfg.align > 0 && Place(cfg, children, g, todo).Some?
    ensures var d := Place(cfg, children, g, todo).value.done;
            && |d| == |g.done| + |todo|
            && (forall i | 0 <= i < |g.done| :: Stays(g.done[i], d[i]))
            && (forall i | 0 <= i < |todo| :: SameOptions(cfg, todo[i], d[|g.done| + i]))
    decreases |todo|
  {
    hide Step, SameOptions, Fits;
    if todo == [] {
    } else {
      var g' := Step(cfg, children, g, todo[0]).value;
      var r, start := StepIs(cfg, children, g, todo[0]);
      var d := Place(cfg, children, g, todo).value.done;
      PlaceKeepsOrder(cfg, children, g', todo[1..]);
      forall i | 0 <= i < |todo|
        ensures SameOptions(cfg, todo[i], d[|g.done| + i])
      {
        if i == 0 {
          StaysSame(cfg, todo[0], r, d[|g.done|]);
        } else {
          assert todo[i] == todo[1..][i - 1];
          assert d[|g.done| + i] == d[|g'.done| + (i - 1)];
        }
      }
    }
  }

  // `[Extended]` is placed behind everything so far, or right before the boot
  // record of its first partition.
  lemma PlacedExtended(cfg: Config, children: Children, now: nat, start: nat, first: Part, e: Part)
    requires cfg.align > 0 && first.inTable && !cfg.table.NoTable?
    requires Placed(cfg, children, now, start, ExtendedPartition(cfg, first), e)
    ensures e.kind.Extended? && e.image == None && !e.logical
    ensures now <= e.offset || (first.offset != 0 && first.offset <= e.offset + cfg.align)
  {
    if now > 0 {
      RoundupIsLeastMultiple(now, cfg.align);
    }
  }

  lemma PlacedBounds(cfg: Config, children: Children, now: nat, start: nat, p: Part, r: Part)
    requires Placed(cfg, children, now, start, p, r)
    ensures now <= start && r.logical == p.logical && r.kind == p.kind
    ensures p.logical ==> now + cfg.align <= start
    ensures p.offset != 0 ==> r.offset == p.offset
  {
  }

  lemma FitsLogical(children: Children, done: seq<Part>, start: nat, r: Part)
    requires Fits(children, done, start, r) && r.logical
    ensures start <= r.offset
  {
  }

  // When the partition behind `[Extended]` is logical and finds its place, all
  // partitions so far end before `[Extended]`.
  lemma OpensExtended(cfg: Config, children: Children, g: Progress, first: Part)
    requires cfg.align > 0 && Inv(cfg.align, children, g.done, g.now) && Plain(g.done)
    requires first.logical && first.inTable && !cfg.table.NoTable?
    requires Step(cfg, children, g, ExtendedPartition(cfg, first)).Some?
    requires Step(cfg, children, Step(cfg, children, g, ExtendedPartition(cfg, first)).value, first).Some?
    ensures Open(Step(cfg, children, g, ExtendedPartition(cfg, first)).value.done, |g.done|)
  {
    hide Step, Fits, ExtendedPartition, Placed;
    var ext := ExtendedPartition(cfg, first);
    var g1 := Step(cfg, children, g, ext).value;
    var e, start1 := StepIs(cfg, children, g, ext);
    PlacedExtended(cfg, children, g.now, start1, first, e);
    var r, start := StepIs(cfg, children, g1, first);
    PlacedBounds(cfg, children, g.now, start1, ext, e);
    PlacedBounds(cfg, children, g1.now, start, first, r);
    FitsLogical(children, g1.done, start, r);
    assert g1.done == g.done + [e];
  }

  lemma InvEmpty(align: nat, children: Children, now: nat)
    ensures Inv(align, children, [], now)
  {
  }

  lemma InvLater(align: nat, children: Children, done: seq<Part>, now: nat, later: nat)
    requires Inv(align, children, done, now) && now <= later
    ensures Inv(align, children, done, later)
  {
  }

  lemma AreasAreBare(cfg: Config)
    ensures Bare(TableAreas(cfg))
  {
  }

  lemma BareConcat(a: seq<Part>, b: seq<Part>)
    requires Bare(b)
    ensures Plain(a) ==> Plain(a + b)
    ensures Closing(a) ==> Closing(a + b)
  {
  }

  // The rest of a divided list, from `[Extended]` on.
  lemma PlaceDivided(cfg: Config, children: Children, g: Progress, first: Part, tail: seq<Part>)
    requires cfg.align > 0 && !cfg.table.NoTable?
    requires Inv(cfg.align, children, g.done, g.now) && Plain(g.done)
    requires first.inTable && Closing([first] + tail)
    requires Place(cfg, children, g, [ExtendedPartition(cfg, first)] + ([first] + tail)).Some?
    ensures var g' := Place(cfg, children, g, [ExtendedPartition(cfg, first)] + ([first] + tail)).value;
            Inv(cfg.align, children, g'.done, g'.now)
  {
    hide Step, Inv, Open;
    var ext, rest := ExtendedPartition(cfg, first), [first] + tail;
    assert ([ext] + rest)[1..] == rest;
    StepKeepsInv(cfg, children, g, ext);
    var g' := Step(cfg, children, g, ext).value;
    assert Place(cfg, children, g, [ext] + rest) == Place(cfg, children, g', rest);
    if first.logical {
      OpensExtended(cfg, children, g, first);
      PlaceClosing(cfg, children, g', rest, |g.done|);
    } else {
      assert Plain(rest) by {
        assert rest[0] == first;
      }
      PlacePlain(cfg, children, g', rest);
    }
  }

  lemma PlaceKeepsPlain(cfg: Config, children: Children, g: Progress, todo: seq<Part>)
    requires cfg.align > 0 && Place(cfg, children, g, todo).Some?
    requires g.done == [] && Plain(todo)
    ensures Plain(Place(cfg, children, g, todo).value.done)
  {
    hide Place;
    PlaceKeepsOrder(cfg, children, g, todo);
    var d := Place(cfg, children, g, todo).value.done;
    forall i | 0 <= i < |d|
      ensures !d[i].kind.Extended? && !d[i].logical
    {
      assert SameOptions(cfg, todo[i], d[0 + i]);
    }
  }

  lemma PlaceListed(cfg: Config, children: Children, g: Progress, split: seq<Part>, areas: seq<Part>, k: nat)
    requires cfg.align > 0 && !cfg.table.NoTable?
    requires Inv(cfg.align, children, g.done, g.now) && g.done == []
    requires Divided(cfg, split, k) && Bare(areas)
    requires Place(cfg, children, g, split + areas).Some?
    ensures var g' := Place(cfg, children, g, split + areas).value; Inv(cfg.align, children, g'.done, g'.now)
  {
    hide Inv, Place, Plain, Bare, Closing;
    var first, tail := split[k + 1], split[k + 2..] + areas;
    BareConcat(split[k + 1..], areas);
    assert split[k + 1..] + areas == [first] + tail;
    var rest := [split[k]] + ([first] + tail);
    assert split + areas == split[..k] + rest;
    PlaceConcat(cfg, children, g, split[..k], rest);
    PlacePlain(cfg, children, g, split[..k]);
    PlaceKeepsPlain(cfg, children, g, split[..k]);
    PlaceDivided(cfg, children, Place(cfg, children, g, split[..k]).value, first, tail);
  }

  lemma FreshIsPlain(parts: seq<Part>)
    requires Fresh(parts)
    ensures Plain(parts)
  {
  }

  // The invariant holds of every layout.
  lemma SetupInv(options: Config, children: Children, parts: seq<Part>)
    requires Fresh(parts) && Setup(options, children, parts).Some?
    ensures var l := Setup(options, children, parts).value;
            l.cfg == Normalise(options) && Inv(l.cfg.align, children, l.parts, l.imageSize)
  {
    hide Inv, Place, Plain, Bare, SplitLogical, TableAreas, Divided, DiskIdsOk;
    var cfg := Normalise(options);
    var split := SetupLogical(cfg, parts).value;
    var g0 := Progress([], TableEnd(cfg), TableEnd(cfg), false, 0);
    var todo := Listed(cfg, parts).value;
    InvEmpty(cfg.align, children, g0.now);
    AreasAreBare(cfg);
    if SetupLogical(cfg, parts) == Some(parts) {
      FreshIsPlain(parts);
      BareConcat(parts, TableAreas(cfg));
      PlacePlain(cfg, children, g0, todo);
    } else {
      var k := SplitShape(cfg, ExtendedIndex(cfg, parts), parts, 0, 0, false, false);
      if Plain(split) {
        BareConcat(split, TableAreas(cfg));
        PlacePlain(cfg, children, g0, todo);
      } else {
        PlaceListed(cfg, children, g0, split, TableAreas(cfg), k);
      }
    }
    var g := Place(cfg, children, g0, todo).value;
    var l := Setup(options, children, parts).value;
    InvLater(cfg.align, children, g.done, g.now, l.imageSize);
  }

  lemma StepKeepsBelow(cfg: Config, children: Children, g: Progress, p: Part)
    requires cfg.align > 0 && Step(cfg, children, g, p).Some? && Below(g.done, g.now)
    ensures Below(Step(cfg, children, g, p).value.done, Step(cfg, children, g, p).value.now)
  {
    hide Step, Fits, Stretch, Placed;
    var g' := Step(cfg, children, g, p).value;
    var r, start := StepIs(cfg, children, g, p);
    PlacedBounds(cfg, children, g.now, start, p, r);
    assert Stepped(cfg.align, children, g.done, g.now, r, g'.done, g'.now);
    KeepsBelow(cfg.align, children, g.done, g.now, r, g'.done, g'.now);
  }

  // ------------------------------------------------- overlap safety

  // The extended boot record of a logical partition fills the first sector of
  // the space that is reserved before it.
  function BootRecord(align: nat, p: Part): int {
    p.offset - align
  }

  ghost predicate OverlapSafe(children: Children, align: nat, parts: seq<Part>) {
    // Two partitions are apart, or share bytes of one hole in the image of the earlier one.
    && (forall i, j | 0 <= i < j < |parts| ::
          !parts[i].kind.Extended? && !parts[j].kind.Extended? ==> Compatible(children, parts[i], parts[j]))
    // Every logical partition and its boot record are inside of an extended partition.
    && (forall i | 0 <= i < |parts| && parts[i].logical ::
          exists e | 0 <= e < |parts| ::
            && parts[e].kind.Extended?
            && parts[e].offset <= BootRecord(align, parts[i]) && parts[i].End() <= parts[e].End())
    // No boot record touches a partition or another boot record.
    && (forall i, j | 0 <= i < |parts| && 0 <= j < |parts| && parts[i].logical && !parts[j].kind.Extended? ::
          Apart(BootRecord(align, parts[i]), BootRecord(align, parts[i]) + SECTOR, parts[j].offset, parts[j].End()))
    && (forall i, j | 0 <= i < j < |parts| && parts[i].logical && parts[j].logical ::
          BootRecord(align, parts[i]) + SECTOR <= BootRecord(align, parts[j]))
    // A primary partition of the table is outside of the extended partition.
    && (forall e, i | 0 <= e < |parts| && 0 <= i < |parts| && parts[e].kind.Extended? && parts[e].size > 0 ::
          parts[i].inTable && !parts[i].logical && !parts[i].kind.Extended? ==>
            Apart(parts[e].offset, parts[e].End(), parts[i].offset, parts[i].End()))
  }

  lemma InvIsSafe(align: nat, children: Children, parts: seq<Part>, now: nat)
    requires align >= SECTOR || forall i | 0 <= i < |parts| :: !parts[i].logical
    requires Inv(align, children, parts, now)
    ensures OverlapSafe(children, align, parts)
  {
    hide Compatible;
    forall i | 0 <= i < |parts| && parts[i].logical
      ensures exists e | 0 <= e < |parts| ::
                && parts[e].kind.Extended?
                && parts[e].offset <= BootRecord(align, parts[i]) && parts[i].End() <= parts[e].End()
    {
      var e :| 0 <= e < i && parts[e].kind.Extended?;
      assert parts[e].offset <= BootRecord(align, parts[i]);
    }
    forall i, j | 0 <= i < |parts| && 0 <= j < |parts| && parts[i].logical && !parts[j].kind.Extended?
      ensures Apart(BootRecord(align, parts[i]), BootRecord(align, parts[i]) + SECTOR, parts[j].offset, parts[j].End())
    {
      if j < i {
        assert parts[j].End() + align <= parts[i].offset;
      } else if i < j {
        assert Apart(parts[i].offset - align, parts[i].End(), parts[j].offset, parts[j].End());
      }
    }
    forall i, j | 0 <= i < j < |parts| && parts[i].logical && parts[j].logical
      ensures BootRecord(align, parts[i]) + SECTOR <= BootRecord(align, parts[j])
    {
      assert !parts[i].kind.Extended?;
      assert parts[i].End() + align <= parts[j].offset;
    }
  }

  // With a partition table, the image alignment is a number of whole sectors.
  lemma AlignIsSectors(options: Config, children: Children, parts: seq<Part>)
    requires Setup(options, children, parts).Some? && !options.table.NoTable?
    ensures var align := Setup(options, children, parts).value.cfg.align; align % SECTOR == 0 && align >= SECTOR
  {
    hide Place, SetupLogical, DiskIdsOk;
  }

  lemma {:induction false} OnlyMbrIsLogical(options: Config, children: Children, parts: seq<Part>)
    requires Fresh(parts) && Setup(options, children, parts).Some? && options.table != Mbr
    ensures var l := Setup(options, children, parts).value;
            forall i | 0 <= i < |l.parts| :: !l.parts[i].logical
  {
    hide Place, DiskIdsOk;
    var cfg := Normalise(options);
    var todo := Listed(cfg, parts).value;
    assert todo == parts + TableAreas(cfg);
    var g0 := Progress([], TableEnd(cfg), TableEnd(cfg), false, 0);
    PlaceKeepsOrder(cfg, children, g0, todo);
    var d := Place(cfg, children, g0, todo).value.done;
    forall i | 0 <= i < |d|
      ensures !d[i].logical
    {
      assert SameOptions(cfg, todo[i], d[0 + i]);
    }
  }

  // Overlap safety of every layout that `hdimage_setup` accepts.
  lemma SetupIsSafe(options: Config, children: Children, parts: seq<Part>)
    requires Fresh(parts) && Setup(options, children, parts).Some?
    ensures var l := Setup(options, children, parts).value;
            && OverlapSafe(children, l.cfg.align, l.parts)
            && forall i | 0 <= i < |l.parts| :: l.parts[i].End() <= l.imageSize
  {
    hide Setup, OverlapSafe;
    SetupInv(options, children, parts);
    var l := Setup(options, children, parts).value;
    if options.table == Mbr {
      AlignIsSectors(options, children, parts);
    } else {
      OnlyMbrIsLogical(options, children, parts);
    }
    InvIsSafe(l.cfg.align, children, l.parts, l.imageSize);
  }
}
