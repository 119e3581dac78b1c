/**
  The first loop of `android_sparse_generate` in `image-android-sparse.c`: the
  extents are aligned to blocks, and merged in place where they meet.
 */
module SparseExtents {
  import opened Bytes
  import opened Files
  import opened Arith

  // ------------------------------------------------- extents in blocks

  // An extent takes the blocks from the first one up to the end.
  function FirstBlock(e: Extent, bs: nat): nat
    requires bs > 0
  {
    e.start / bs
  }

  function EndBlock(e: Extent, bs: nat): nat
    requires bs > 0
  {
    (e.end + bs - 1) / bs
  }

  predicate HasBlock(e: Extent, bs: nat, b: nat)
    requires bs > 0
  {
    FirstBlock(e, bs) <= b < EndBlock(e, bs)
  }

  ghost predicate Touched(extents: seq<Extent>, bs: nat, b: nat)
    requires bs > 0
  {
    exists e | 0 <= e < |extents| :: HasBlock(extents[e], bs, b)
  }

  // The end block is the number of blocks up to the end, rounded up.
  lemma EndBlockBounds(e: Extent, bs: nat)
    requires bs > 0
    ensures e.end <= EndBlock(e, bs) * bs < e.end + bs
  {
    DivMod(e.end + bs - 1, bs);
  }

  lemma FirstBlockBounds(e: Extent, bs: nat)
    requires bs > 0
    ensures FirstBlock(e, bs) * bs <= e.start < FirstBlock(e, bs) * bs + bs
  {
    DivMod(e.start, bs);
  }

  // A block is taken exactly if the extent has a byte of it.
  lemma HasBlockIff(e: Extent, bs: nat, b: nat)
    requires bs > 0 && e.start < e.end
    ensures HasBlock(e, bs, b) <==> e.start < b * bs + bs && b * bs < e.end
  {
    FirstBlockBounds(e, bs);
    EndBlockBounds(e, bs);
    var f, m := FirstBlock(e, bs), EndBlock(e, bs);
    hide FirstBlock, EndBlock;
    if f < b {
      NextMultiple(f, b, bs);
    } else if b < f {
      NextMultiple(b, f, bs);
    }
    if b < m {
      NextMultiple(b, m, bs);
    } else if m < b {
      NextMultiple(m, b, bs);
    }
  }

  lemma EndBlockIs(end: nat, m: nat, bs: nat)
    requires bs > 0 && end <= m * bs < end + bs
    ensures EndBlock(Extent(end, end), bs) == m
  {
    DivModUnique(end + bs - 1, m, end + bs - 1 - m * bs, bs);
  }

  // ------------------------------------------------- one extent

  // An extent in whole blocks of a file.
  function Align(e: Extent, bs: nat, size: nat): Extent
    requires bs > 0
  {
    Extent(e.start / bs * bs, Min((e.end + bs - 1) / bs * bs, size))
  }

  lemma AlignKeepsBlocks(e: Extent, bs: nat, size: nat)
    requires bs > 0 && e.start < e.end <= size
    ensures var r := Align(e, bs, size);
            && r.start <= e.start && e.end <= r.end <= size && r.start % bs == 0 && (r.end % bs == 0 || r.end == size)
            && FirstBlock(r, bs) == FirstBlock(e, bs) && EndBlock(r, bs) == EndBlock(e, bs)
            && r.start == FirstBlock(e, bs) * bs
  {
    var f, m := FirstBlock(e, bs), EndBlock(e, bs);
    FirstBlockBounds(e, bs);
    EndBlockBounds(e, bs);
    MultipleMod(f, bs);
    MultipleMod(m, bs);
    EndBlockIs(Align(e, bs, size).end, m, bs);
  }

  // ------------------------------------------------- all extents

  // An aligned extent behind others, of which the last one takes it in if they meet.
  function Push(done: seq<Extent>, e: Extent): seq<Extent> {
    if e.end == 0 then done
    else if done != [] && e.start <= done[|done| - 1].end
    then done[|done| - 1 := Extent(done[|done| - 1].start, e.end)]
    else done + [e]
  }

  function Merged(extents: seq<Extent>, bs: nat, size: nat): seq<Extent>
    requires bs > 0
    decreases |extents|
  {
    if extents == [] then []
    else Push(Merged(extents[..|extents| - 1], bs, size), Align(extents[|extents| - 1], bs, size))
  }

  // What `map_file_extents` gives for a file: extents that are not empty, or
  // the one of an empty file.
  ghost predicate InFile(extents: seq<Extent>, size: nat) {
    || extents == [Extent(0, 0)]
    || (Sorted(extents) && forall e | 0 <= e < |extents| :: extents[e].start < extents[e].end <= size)
  }

  // Aligned extents with at least one whole block between any two of them.
  ghost predicate Separated(extents: seq<Extent>, bs: nat, size: nat)
    requires bs > 0
  {
    && (forall e | 0 <= e < |extents| ::
          && extents[e].start < extents[e].end <= size && extents[e].start % bs == 0
          && (extents[e].end % bs == 0 || extents[e].end == size)
          && extents[e].start == FirstBlock(extents[e], bs) * bs)
    && (forall d, e | 0 <= d < e < |extents| ::
          EndBlock(extents[d], bs) + 1 <= FirstBlock(extents[e], bs) && extents[d].end + bs <= extents[e].start)
  }

  // What has been merged ends in the block in which the last extent ended.
  ghost predicate EndsWith(merged: seq<Extent>, last: Extent, bs: nat)
    requires bs > 0
  {
    merged != [] && merged[|merged| - 1].end >= last.end && EndBlock(merged[|merged| - 1], bs) == EndBlock(last, bs)
  }

  lemma RoundedEnd(d: Extent, bs: nat)
    requires bs > 0 && d.end % bs == 0
    ensures d.end == EndBlock(d, bs) * bs
  {
    DivMod(d.end, bs);
    DivModUnique(d.end + bs - 1, d.end / bs, bs - 1, bs);
  }

  lemma Meet(d: Extent, e: Extent, bs: nat, size: nat)
    requires bs > 0 && d.start < d.end <= size && (d.end % bs == 0 || d.end == size)
    requires e.start < e.end <= size
    ensures Align(e, bs, size).start <= d.end <==> FirstBlock(e, bs) <= EndBlock(d, bs)
    ensures Align(e, bs, size).start > d.end ==>
              EndBlock(d, bs) + 1 <= FirstBlock(e, bs) && d.end + bs <= Align(e, bs, size).start
  {
    AlignKeepsBlocks(e, bs, size);
    EndBlockBounds(d, bs);
    var f, m := FirstBlock(e, bs), EndBlock(d, bs);
    if d.end % bs == 0 {
      RoundedEnd(d, bs);
    }
    if f < m {
      NextMultiple(f, m, bs);
    } else if m < f {
      NextMultiple(m, f, bs);
    }
  }

  lemma FirstBlockOrder(d: Extent, e: Extent, bs: nat)
    requires bs > 0 && d.start <= e.start
    ensures FirstBlock(d, bs) <= FirstBlock(e, bs)
  {
    var f, g := FirstBlock(d, bs), FirstBlock(e, bs);
    FirstBlockBounds(d, bs);
    FirstBlockBounds(e, bs);
    if g < f {
      NextMultiple(g, f, bs);
    }
  }

  lemma SameEnd(d: Extent, e: Extent, bs: nat)
    requires bs > 0 && d.end == e.end
    ensures EndBlock(d, bs) == EndBlock(e, bs)
  {
  }

  lemma SameStart(d: Extent, e: Extent, bs: nat)
    requires bs > 0 && d.start == e.start
    ensures FirstBlock(d, bs) == FirstBlock(e, bs)
  {
  }

  lemma TouchedAppend(done: seq<Extent>, a: Extent, e: Extent, bs: nat)
    requires bs > 0 && FirstBlock(a, bs) == FirstBlock(e, bs) && EndBlock(a, bs) == EndBlock(e, bs)
    ensures forall b: nat :: Touched(done + [a], bs, b) <==> Touched(done, bs, b) || HasBlock(e, bs, b)
  {
    hide FirstBlock, EndBlock;
    var r := done + [a];
    forall b: nat
      ensures Touched(r, bs, b) <==> Touched(done, bs, b) || HasBlock(e, bs, b)
    {
      assert r[|done|] == a;
      assert HasBlock(a, bs, b) <==> HasBlock(e, bs, b);
      assert forall i | 0 <= i < |done| :: r[i] == done[i];
    }
  }

  // The last extent is stretched over the blocks of the next one.
  lemma TouchedUpdate(done: seq<Extent>, r: seq<Extent>, e: Extent, bs: nat)
    requires bs > 0 && done != [] && |r| == |done| && r[..|r| - 1] == done[..|r| - 1]
    requires var d, x := done[|r| - 1], r[|r| - 1];
             && FirstBlock(x, bs) == FirstBlock(d, bs) && EndBlock(x, bs) == EndBlock(e, bs)
             && FirstBlock(d, bs) <= FirstBlock(e, bs) <= EndBlock(d, bs) <= EndBlock(e, bs)
    ensures forall b: nat :: Touched(r, bs, b) <==> Touched(done, bs, b) || HasBlock(e, bs, b)
  {
    hide FirstBlock, EndBlock;
    var n := |r| - 1;
    forall b: nat
      ensures Touched(r, bs, b) <==> Touched(done, bs, b) || HasBlock(e, bs, b)
    {
      assert HasBlock(r[n], bs, b) <==> HasBlock(done[n], bs, b) || HasBlock(e, bs, b);
      assert forall i | 0 <= i < n :: r[i] == r[..n][i] && done[i] == done[..n][i];
    }
  }

  // One more extent, behind all the others.
  lemma PushKeeps(done: seq<Extent>, e: Extent, bs: nat, size: nat)
    requires bs > 0 && Separated(done, bs, size) && e.start < e.end <= size
    requires done != [] ==> EndBlock(done[|done| - 1], bs) <= EndBlock(e, bs) && done[|done| - 1].start <= e.start
    ensures var r := Push(done, Align(e, bs, size));
            && Separated(r, bs, size) && EndsWith(r, e, bs)
            && r[|r| - 1].start <= e.start
            && forall b: nat :: Touched(r, bs, b) <==> Touched(done, bs, b) || HasBlock(e, bs, b)
  {
    hide Align, FirstBlock, EndBlock;
    var a := Align(e, bs, size);
    AlignKeepsBlocks(e, bs, size);
    var r := Push(done, a);
    if done != [] {
      var d := done[|done| - 1];
      Meet(d, e, bs, size);
      FirstBlockOrder(d, e, bs);
      if a.start <= d.end {
        var n := |done| - 1;
        assert r == done[n := Extent(d.start, a.end)];
        SameEnd(Extent(d.start, a.end), a, bs);
        SameStart(Extent(d.start, a.end), d, bs);
        TouchedUpdate(done, r, e, bs);
      } else {
        TouchedAppend(done, a, e, bs);
      }
    } else {
      TouchedAppend(done, a, e, bs);
    }
  }

  lemma EndBlockOrder(d: Extent, e: Extent, bs: nat)
    requires bs > 0 && d.end <= e.end
    ensures EndBlock(d, bs) <= EndBlock(e, bs)
  {
    var f, g := EndBlock(d, bs), EndBlock(e, bs);
    EndBlockBounds(d, bs);
    EndBlockBounds(e, bs);
    if g < f {
      NextMultiple(g, f, bs);
    }
  }

  lemma FrontInFile(extents: seq<Extent>, size: nat)
    requires InFile(extents, size) && extents != [] && extents != [Extent(0, 0)]
    ensures var n := |extents| - 1;
            && InFile(extents[..n], size) && extents[n].start < extents[n].end <= size
            && extents[..n] != [Extent(0, 0)]
            && (n > 0 ==> extents[n - 1].start <= extents[n].start && extents[n - 1].end <= extents[n].end)
  {
    var n := |extents| - 1;
    if n == 1 {
      assert extents[..1][0] == extents[0];
    }
  }

  lemma NothingTouched(extents: seq<Extent>, bs: nat, size: nat)
    requires bs > 0 && extents == []
    ensures Separated(extents, bs, size) && forall b: nat :: !Touched(extents, bs, b)
  {
  }

  lemma EmptyFile(bs: nat, size: nat)
    requires bs > 0
    ensures var x := [Extent(0, 0)];
            Merged(x, bs, size) == [] && Separated([], bs, size) && forall b: nat :: !Touched(x, bs, b) && !Touched([], bs, b)
  {
    DivModUnique(bs - 1, 0, bs - 1, bs);
    assert [Extent(0, 0)][..0] == [];
    var x := [Extent(0, 0)];
    assert EndBlock(x[0], bs) == 0;
    assert Align(x[0], bs, size).end == 0;
  }

  lemma SplitTouched(extents: seq<Extent>, bs: nat)
    requires bs > 0 && extents != []
    ensures var n := |extents| - 1;
            forall b: nat :: Touched(extents, bs, b) <==> Touched(extents[..n], bs, b) || HasBlock(extents[n], bs, b)
  {
    hide HasBlock;
    var n := |extents| - 1;
    forall b: nat
      ensures Touched(extents, bs, b) <==> Touched(extents[..n], bs, b) || HasBlock(extents[n], bs, b)
    {
      assert forall i | 0 <= i < n :: extents[..n][i] == extents[i];
    }
  }

  // The surviving extents are aligned, except for an end at the end of the
  // file, separated by at least one whole block, and take exactly the blocks
  // that the extents of the file touch.
  lemma {:induction false} MergedIs(extents: seq<Extent>, bs: nat, size: nat)
    requires bs > 0 && InFile(extents, size)
    ensures var m := Merged(extents, bs, size);
            && Separated(m, bs, size)
            && (forall b: nat :: Touched(m, bs, b) <==> Touched(extents, bs, b))
            && (extents != [] && extents != [Extent(0, 0)] ==>
                  EndsWith(m, extents[|extents| - 1], bs) && m[|m| - 1].start <= extents[|extents| - 1].start)
    decreases |extents|
  {
    hide Align, FirstBlock, EndBlock, Separated, Touched;
    if extents == [] {
      NothingTouched([], bs, size);
    } else if extents == [Extent(0, 0)] {
      EmptyFile(bs, size);
    } else {
      var n := |extents| - 1;
      var front, e := extents[..n], extents[n];
      FrontInFile(extents, size);
      MergedIs(front, bs, size);
      var done := Merged(front, bs, size);
      if front != [] {
        EndBlockOrder(front[n - 1], e, bs);
      }
      PushKeeps(done, e, bs, size);
      SplitTouched(extents, bs);
    }
  }

  // ------------------------------------------------- in place

  // The extents that have not been removed; removed ones end at zero.
  function Survivors(extents: seq<Extent>): seq<Extent> {
    if extents == [] then []
    else
      var n := |extents| - 1;
      Survivors(extents[..n]) + if extents[n].end != 0 then [extents[n]] else []
  }

  lemma SurvivorsAppend(extents: seq<Extent>, e: Extent)
    ensures Survivors(extents + [e]) == if e.end != 0 then Survivors(extents) + [e] else Survivors(extents)
  {
    assert (extents + [e])[..|extents|] == extents;
  }

  // Nothing has survived behind index j.
  lemma {:induction false} LastSurvivor(extents: seq<Extent>, j: nat)
    requires j < |extents| && extents[j].end != 0
    requires forall k | j < k < |extents| :: extents[k].end == 0
    ensures Survivors(extents) == Survivors(extents[..j]) + [extents[j]]
    decreases |extents|
  {
    var n := |extents| - 1;
    if j == n {
    } else {
      LastSurvivor(extents[..n], j);
      assert extents[..n][..j] == extents[..j];
    }
  }

  lemma NoneSurvives()
    ensures Survivors([]) == []
  {
  }

  // The last survivor in a new extent, and a removed extent behind it.
  lemma GrownSurvivor(was: seq<Extent>, j: nat, x: Extent)
    requires j < |was| && x.end != 0 && forall k | j < k < |was| :: was[k].end == 0
    ensures Survivors(was[j := x] + [Extent(0, 0)]) == Survivors(was[..j]) + [x]
  {
    hide Survivors;
    var u := was[j := x];
    assert u[..j] == was[..j];
    LastSurvivor(u, j);
    SurvivorsAppend(u, Extent(0, 0));
  }

  // What one turn of the loop does to the survivors, with its two cases.
  lemma MergeStep(was: seq<Extent>, done: seq<Extent>, e: Extent, j: int)
    requires |was| > 0 ==> 0 <= j < |was| && was[j].end != 0 && forall k | j < k < |was| :: was[k].end == 0
    requires was == [] ==> j == -1
    requires done == Survivors(was) && (e.end == 0 ==> was == [])
    ensures if j >= 0 && e.start <= was[j].end
            then Survivors(was[j := Extent(was[j].start, e.end)] + [Extent(0, 0)]) == Push(done, e)
            else Survivors(was + [e]) == Push(done, e)
  {
    hide Survivors;
    SurvivorsAppend(was, e);
    if j >= 0 {
      LastSurvivor(was, j);
      if e.start <= was[j].end {
        GrownSurvivor(was, j, Extent(was[j].start, e.end));
      }
    } else {
      assert was == [];
      NoneSurvives();
    }
  }

  lemma MergedNext(extents: seq<Extent>, n: nat, bs: nat, size: nat)
    requires bs > 0 && n < |extents|
    ensures Merged(extents[..n + 1], bs, size) == Push(Merged(extents[..n], bs, size), Align(extents[n], bs, size))
  {
    assert extents[..n + 1][..n] == extents[..n];
  }

  lemma AlignedEnd(extents: seq<Extent>, n: nat, bs: nat, size: nat)
    requires bs > 0 && n < |extents| && InFile(extents, size)
    ensures Align(extents[n], bs, size).end != 0 || (extents == [Extent(0, 0)] && Align(extents[n], bs, size) == Extent(0, 0))
  {
    if extents != [Extent(0, 0)] {
      AlignKeepsBlocks(extents[n], bs, size);
    } else {
      DivModUnique(0, 0, 0, bs);
      DivModUnique(bs - 1, 0, bs - 1, bs);
    }
  }

  lemma Unmerged(all: seq<Extent>, extents: seq<Extent>, bs: nat, size: nat)
    requires bs > 0
    ensures Survivors(extents[..0]) == Merged(all[..0], bs, size)
  {
  }

  method AlignOne(e: Extent, bs: nat, size: nat) returns (r: Extent)
    requires bs > 0
    ensures r == Align(e, bs, size)
  {
    var start := e.start / bs * bs;
    var end := (e.end - 1 + bs) / bs * bs;
    r := Extent(start, if end < size then end else size);
  }

  // The loop over the extents
  method MergeExtents(extents: array<Extent>, bs: nat, size: nat)
    requires bs > 0 && InFile(extents[..], size)
    modifies extents
    ensures Survivors(extents[..]) == Merged(old(extents[..]), bs, size)
    ensures Separated(Survivors(extents[..]), bs, size)
    ensures forall k | 0 <= k < extents.Length && extents[k].end == 0 :: extents[k] == Extent(0, 0)
    ensures forall b: nat :: Touched(Survivors(extents[..]), bs, b) <==> Touched(old(extents[..]), bs, b)
  {
    hide Align, Push, Merged, Survivors, Separated, Touched, InFile;
    ghost var all := extents[..];
    MergedIs(all, bs, size);
    Unmerged(all, extents[..], bs, size);
    var extent := 0;
    while extent < extents.Length
      invariant extent <= extents.Length
      invariant Survivors(extents[..extent]) == Merged(all[..extent], bs, size)
      invariant forall k | extent <= k < extents.Length :: extents[k] == all[k]
      invariant extent > 0 ==> extents[0].end != 0 || extents.Length == 1
      invariant forall k | 0 <= k < extent && extents[k].end == 0 :: extents[k] == Extent(0, 0)
    {
      ghost var was := extents[..extent];
      AlignedEnd(all, extent, bs, size);
      MergedNext(all, extent, bs, size);
      var aligned := AlignOne(extents[extent], bs, size);
      extents[extent] := aligned;
      var j := extent - 1;
      while j > 0
        invariant -1 <= j < extent && (extent > 0 ==> j >= 0)
        invariant forall k | j < k < extent :: extents[k].end == 0
      {
        if extents[j].end != 0 {
          break;
        }
        j := j - 1;
      }
      assert extents.Length == |all| && was == extents[..extent];
      if aligned.end == 0 {
        assert |all| == |[Extent(0, 0)]|;
        assert was == [];
      }
      MergeStep(was, Survivors(was), aligned, j);
      if j >= 0 && extents[extent].start <= extents[j].end {
        extents[j] := Extent(extents[j].start, extents[extent].end);
        extents[extent] := Extent(0, 0);
        assert extents[..extent + 1] == was[j := Extent(was[j].start, aligned.end)] + [Extent(0, 0)];
      } else {
        assert extents[..extent + 1] == was + [aligned];
      }
      extent := extent + 1;
    }
    assert extents[..extent] == extents[..] && all[..extent] == all;
  }
}
