/**
  The file routines of `util.c`: filling, sparse copying and inserting data.
  The system calls below may fail, and reads and writes may be short; what they
  do when they work is stated by the byte-string functions of Bytes.
 */
module Files {
  import opened Bytes

  // `struct extent`: the half-open range of file positions [start, end).
  datatype Extent = Extent(start: nat, end: nat)

  ghost predicate Sorted(extents: seq<Extent>) {
    && (forall e | 0 <= e < |extents| :: extents[e].start <= extents[e].end)
    && (forall d, e | 0 <= d < e < |extents| :: extents[d].end <= extents[e].start)
  }

  ghost predicate Covered(extents: seq<Extent>, p: int) {
    exists e | 0 <= e < |extents| :: extents[e].start <= p < extents[e].end
  }

  datatype Fiemap = Unsupported | Failed | Mapped(extents: seq<Extent>)

  // An input file, and what FIEMAP says about its allocated ranges.
  // Bytes outside of every extent read as zeros.
  datatype Source = Source(data: seq<byte>, fiemap: Fiemap) {
    ghost predicate Valid() {
      fiemap.Mapped? ==>
        && Sorted(fiemap.extents)
        && forall p | 0 <= p < |data| :: !Covered(fiemap.extents, p) ==> data[p] == 0
    }
  }

  // ------------------------------------------------------------- extents

  // The extents FIEMAP reports for the range [0, size).
  function Reported(extents: seq<Extent>, size: nat): seq<Extent> {
    if extents == [] || extents[0].start >= size then [] else [extents[0]] + Reported(extents[1..], size)
  }

  // `whole_file_exent`
  function WholeFile(size: nat): seq<Extent> {
    [Extent(0, size)]
  }

  // `map_file_extents`
  function MapFileExtents(src: Source, size: nat): Option<seq<Extent>> {
    match src.fiemap
    case Unsupported => Some(WholeFile(size))
    case Failed => None
    case Mapped(extents) =>
      var r := Reported(extents, size);
      if r != [] && r[|r| - 1].end > size
      then Some(r[|r| - 1 := r[|r| - 1].(end := size)])
      else Some(r)
  }

  lemma {:induction false} ReportedIsPrefix(extents: seq<Extent>, size: nat)
    requires Sorted(extents)
    ensures var r := Reported(extents, size);
            && r <= extents
            && (forall e | 0 <= e < |r| :: r[e].start < size)
            && (|r| < |extents| ==> extents[|r|].start >= size)
    decreases |extents|
  {
    if extents == [] || extents[0].start >= size {
    } else {
      ReportedIsPrefix(extents[1..], size);
    }
  }

  lemma MappedShape(src: Source, size: nat)
    requires src.Valid() && src.fiemap.Mapped?
    ensures var all, m := src.fiemap.extents, MapFileExtents(src, size);
            && m.Some? && |m.value| <= |all|
            && (forall e | 0 <= e < |m.value| :: m.value[e].start == all[e].start && m.value[e].end == Min(all[e].end, size))
            && (forall e | 0 <= e < |m.value| :: all[e].start < size)
            && (|m.value| < |all| ==> all[|m.value|].start >= size)
  {
    var all := src.fiemap.extents;
    ReportedIsPrefix(all, size);
    var r := Reported(all, size);
    forall e | 0 <= e < |r|
      ensures r[e] == all[e]
      ensures e < |r| - 1 ==> all[e].end <= size
    {
      if e < |r| - 1 {
        assert all[e].end <= all[e + 1].start;
        assert r[e + 1] == all[e + 1];
      }
    }
  }

  lemma MappedSorted(src: Source, size: nat)
    requires src.Valid() && src.fiemap.Mapped?
    ensures var m := MapFileExtents(src, size);
            m.Some? && Sorted(m.value) && forall e | 0 <= e < |m.value| :: m.value[e].end <= size
  {
    hide MapFileExtents, Covered;
    MappedShape(src, size);
  }

  lemma SortedStarts(src: Source, e: nat, n: nat)
    requires src.Valid() && src.fiemap.Mapped? && e < |src.fiemap.extents|
    ensures n <= e ==> src.fiemap.extents[n].start <= src.fiemap.extents[e].start
  {
    hide Covered;
  }

  lemma MappedCover(src: Source, size: nat, p: nat)
    requires src.Valid() && src.fiemap.Mapped? && p < size
    ensures var m := MapFileExtents(src, size); m.Some? && (Covered(m.value, p) <==> Covered(src.fiemap.extents, p))
  {
    hide MapFileExtents, Sorted, Source.Valid;
    MappedShape(src, size);
    var all, m := src.fiemap.extents, MapFileExtents(src, size).value;
    if Covered(all, p) {
      var e :| 0 <= e < |all| && all[e].start <= p < all[e].end;
      SortedStarts(src, e, |m|);
      assert m[e].start <= p < m[e].end;
    }
    if Covered(m, p) {
      var e :| 0 <= e < |m| && m[e].start <= p < m[e].end;
      assert all[e].start <= p < all[e].end;
    }
  }

  // The mapped extents are sorted, end inside the range that was asked for, and
  // cover the same positions of that range as the extents of the file.
  lemma MappedExtents(src: Source, size: nat)
    requires src.Valid() && src.fiemap.Mapped?
    ensures var m := MapFileExtents(src, size);
            && m.Some? && Sorted(m.value)
            && (forall e | 0 <= e < |m.value| :: m.value[e].end <= size)
            && (forall p | 0 <= p < size :: Covered(m.value, p) <==> Covered(src.fiemap.extents, p))
  {
    hide MapFileExtents, Covered, Sorted, Source.Valid;
    MappedSorted(src, size);
    forall p | 0 <= p < size
      ensures Covered(MapFileExtents(src, size).value, p) <==> Covered(src.fiemap.extents, p)
    {
      MappedCover(src, size, p);
    }
  }

  // ------------------------------------- what inserting an image writes

  // How far the copy gets with the first n extents: every extent is entered at
  // its start, and read up to its end or the end of the file.
  function Frontier(start: nat, extents: seq<Extent>, n: nat, len: nat): (r: nat)
    requires n <= |extents|
    ensures r >= start
    decreases n
  {
    if n == 0 then start
    else
      var e := extents[n - 1];
      Max(Max(Frontier(start, extents, n - 1, len), e.start), Min(e.end, len))
  }

  ghost function InsertedByte(file: seq<byte>, extents: seq<Extent>, start: nat, b: byte, p: nat): byte {
    if p >= Frontier(start, extents, |extents|, |file|) then b
    else if p < |file| && Covered(extents, p) then file[p]
    else 0
  }

  ghost function InsertedFrom(file: seq<byte>, extents: seq<Extent>, size: nat, start: nat, b: byte): (r: seq<byte>)
    ensures |r| == size
  {
    seq(size, k requires 0 <= k => InsertedByte(file, extents, start, b, start + k))
  }

  // The bytes that `insert_image` puts into the output, if it succeeds.
  ghost function Inserted(sub: Option<Source>, size: nat, imageoffset: nat, b: byte): (r: seq<byte>)
    ensures |r| == size
  {
    match sub
    case None => Fill(size, b)
    case Some(src) =>
      match MapFileExtents(src, size + imageoffset)
      case None => Fill(size, b)
      case Some(extents) => InsertedFrom(src.data, extents, size, imageoffset, b)
  }

  lemma MapFailsWhen(src: Source, size: nat)
    ensures MapFileExtents(src, size) == None <==> src.fiemap == Failed
  {
  }

  lemma MapSucceeds(src: Source, size: nat)
    requires src.Valid() && MapFileExtents(src, size).Some?
    ensures Sorted(MapFileExtents(src, size).value)
    ensures src.fiemap != Failed
  {
    if src.fiemap.Mapped? {
      MappedExtents(src, size);
    }
  }

  lemma FrontierStep(start: nat, extents: seq<Extent>, e: nat, len: nat)
    requires e < |extents|
    ensures Frontier(start, extents, e + 1, len)
         == Max(Max(Frontier(start, extents, e, len), extents[e].start), Min(extents[e].end, len))
  {
  }

  lemma {:induction false} FrontierGrows(start: nat, extents: seq<Extent>, m: nat, n: nat, len: nat)
    requires m <= n <= |extents|
    ensures Frontier(start, extents, m, len) <= Frontier(start, extents, n, len)
    ensures forall d | m <= d < n :: extents[d].start <= Frontier(start, extents, n, len)
    ensures forall d | m <= d < n :: Min(extents[d].end, len) <= Frontier(start, extents, n, len)
    decreases n
  {
    if m == n {
    } else {
      FrontierGrows(start, extents, m, n - 1, len);
    }
  }

  lemma GapIsUncovered(extents: seq<Extent>, e: nat, p: nat, len: nat)
    requires Sorted(extents) && e < |extents| && p < extents[e].start
    requires forall d | 0 <= d < e :: Min(extents[d].end, len) <= p
    ensures p < len ==> !Covered(extents, p)
  {
  }

  // Before extent e, and beyond what the earlier ones have delivered, is a hole.
  lemma GapPiece(file: seq<byte>, extents: seq<Extent>, size: nat, start: nat, b: byte, e: nat, pos: nat, len: nat)
    requires Sorted(extents) && e < |extents|
    requires pos == Frontier(start, extents, e, |file|) && pos + len <= Min(start + size, extents[e].start)
    ensures InsertedFrom(file, extents, size, start, b)[pos - start..pos - start + len] == Fill(len, 0)
  {
    FrontierGrows(start, extents, 0, e, |file|);
    FrontierGrows(start, extents, e, |extents|, |file|);
    forall p | pos <= p < pos + len
      ensures InsertedByte(file, extents, start, b, p) == 0
    {
      GapIsUncovered(extents, e, p, |file|);
    }
  }

  lemma CopiedByte(file: seq<byte>, extents: seq<Extent>, start: nat, b: byte, e: nat, p: nat)
    requires e < |extents| && extents[e].start <= p < Min(extents[e].end, |file|)
    ensures InsertedByte(file, extents, start, b, p) == file[p]
  {
    hide Frontier;
    FrontierGrows(start, extents, e, |extents|, |file|);
  }

  // Inside extent e the bytes of the file are copied.
  lemma CopyPiece(file: seq<byte>, extents: seq<Extent>, size: nat, start: nat, b: byte, e: nat, pos: nat, len: nat)
    requires e < |extents| && start <= pos && extents[e].start <= pos
    requires pos + len <= Min(start + size, Min(extents[e].end, |file|))
    ensures InsertedFrom(file, extents, size, start, b)[pos - start..pos - start + len] == file[pos..pos + len]
  {
    hide InsertedByte;
    forall p | pos <= p < pos + len
      ensures InsertedByte(file, extents, start, b, p) == file[p]
    {
      CopiedByte(file, extents, start, b, e, p);
    }
  }

  // Behind the last extent comes the padding byte.
  lemma RestPiece(file: seq<byte>, extents: seq<Extent>, size: nat, start: nat, b: byte, pos: nat)
    requires pos == Min(start + size, Frontier(start, extents, |extents|, |file|))
    ensures InsertedFrom(file, extents, size, start, b)[pos - start..] == Fill(start + size - pos, b)
  {
    forall p | pos <= p < start + size
      ensures InsertedByte(file, extents, start, b, p) == b
    {
    }
  }

  // ------------------------------------------------------- the output file

  const BUFFER: nat := 4096

  // `pread`: a failure, the end of the file, or some of the bytes asked for.
  method Pread(file: seq<byte>, now: nat, pos: nat, reliable: bool) returns (r: int)
    ensures r <= now
    ensures reliable ==> r >= 0
    ensures r > 0 ==> pos + r <= |file|
    ensures r == 0 ==> now == 0 || pos >= |file|
  {
    if !reliable {
      if * {
        return -1;
      }
    }
    if now == 0 || pos >= |file| {
      return 0;
    }
    r :| 0 < r <= now && pos + r <= |file|;
  }

  lemma JoinSlices(s: seq<byte>, i: nat, j: nat, k: nat)
    requires i <= j <= k <= |s|
    ensures s[i..j] + s[j..k] == s[i..k]
  {
  }

  // Some bytes of a buffer behind those that have been copied from a file.
  lemma CopyMore(f: seq<byte>, file: seq<byte>, offset: nat, pos: nat, n: nat, r: nat, w: nat, room: nat)
    requires pos + n + r <= |file| && w <= r && n + r <= room
    ensures var was, next := if n > 0 then file[pos..pos + n] else [], file[pos + n..pos + n + r][..w];
            Overwrite(Overwrite(f, offset, was), offset + n, next) == Overwrite(f, offset, file[pos..pos + n + w])
    ensures OnlyWithin(f, Overwrite(f, offset, file[pos..pos + n + w]), offset, room)
  {
    hide Overwrite, OnlyWithin;
    var was, next := if n > 0 then file[pos..pos + n] else [], file[pos + n..pos + n + r][..w];
    OverwriteTwice(f, offset, was, next);
    assert next == file[pos + n..pos + n + w];
    assert was + next == file[pos..pos + n + w] by {
      if n > 0 {
        JoinSlices(file, pos, pos + n, pos + n + w);
      }
    }
    OverwriteOnlyWithin(f, offset, file[pos..pos + n + w], offset, room);
  }

  // Extending a file is filling the part beyond its end with zeros.
  lemma ExtendIsFill(f: seq<byte>, offset: nat, size: nat)
    requires size > 0 && offset >= |f|
    ensures Truncate(f, offset + size) == Overwrite(f, offset, Fill(size, 0))
  {
    SameBytes(Truncate(f, offset + size), Overwrite(f, offset, Fill(size, 0)));
  }

  // Growing the file to its new end leaves only the old bytes to be cleared.
  lemma GrowThenFill(f: seq<byte>, offset: nat, size: nat)
    requires offset < |f| < offset + size
    ensures Overwrite(Truncate(f, offset + size), offset, Fill(|f| - offset, 0)) == Overwrite(f, offset, Fill(size, 0))
  {
    SameBytes(Overwrite(Truncate(f, offset + size), offset, Fill(|f| - offset, 0)), Overwrite(f, offset, Fill(size, 0)));
  }

  lemma FillTwice(f: seq<byte>, offset: nat, m: nat, n: nat, b: byte)
    ensures Overwrite(Overwrite(f, offset, Fill(m, b)), offset + m, Fill(n, b)) == Overwrite(f, offset, Fill(m + n, b))
  {
    hide Overwrite;
    OverwriteTwice(f, offset, Fill(m, b), Fill(n, b));
    assert Fill(m, b) + Fill(n, b) == Fill(m + n, b);
  }

  // The output file. On a reliable system no call fails, and no write is short;
  // reads may be short, and punching holes may not be supported, on any system.
  // A short write was taken for a success if `lost` is set.
  class OutFile {
    const reliable: bool
    var created: bool
    var data: seq<byte>
    ghost var lost: bool

    // `pwrite`: a failure, or the first r bytes of the buffer.
    method Pwrite(s: seq<byte>, offset: nat) returns (r: int)
      modifies this
      ensures created == old(created) && lost == old(lost)
      ensures r <= |s| && (s != [] ==> r != 0)
      ensures data == if r > 0 then Overwrite(old(data), offset, s[..r]) else old(data)
      ensures reliable ==> r == |s|
    {
      if !reliable {
        if * {
          return -1;
        }
      }
      r := |s|;
      if s != [] {
        if !reliable {
          r :| 0 < r <= |s|;
        }
        data := Overwrite(data, offset, s[..r]);
      }
    }

    // `ftruncate`
    method Ftruncate(size: nat) returns (ok: bool)
      modifies this
      ensures created == old(created) && lost == old(lost)
      ensures data == if ok then Truncate(old(data), size) else old(data)
      ensures reliable ==> ok
    {
      ok := *;
      if reliable {
        ok := true;
      }
      if ok {
        data := Truncate(data, size);
      }
    }

    // `fallocate` with FALLOC_FL_PUNCH_HOLE and FALLOC_FL_KEEP_SIZE; not every
    // file system supports it.
    method PunchHole(offset: nat, size: nat) returns (ok: bool)
      requires offset + size <= |data|
      modifies this
      ensures created == old(created) && lost == old(lost)
      ensures data == if ok then Overwrite(old(data), offset, Fill(size, 0)) else old(data)
    {
      ok := *;
      if ok {
        data := Overwrite(data, offset, Fill(size, 0));
      }
    }

    // The loop at the end of `write_bytes`.
    method WriteLoop(size: nat, offset: nat, b: byte) returns (ok: bool)
      modifies this
      ensures created == old(created) && lost == old(lost)
      ensures ok ==> data == Overwrite(old(data), offset, Fill(size, b))
      ensures reliable ==> ok
      ensures OnlyWithin(old(data), data, offset, size)
    {
      hide Overwrite, OnlyWithin;
      var buf := Fill(BUFFER, b);
      var left, at := size, offset;
      while left > 0
        invariant 0 <= left <= size && at == offset + size - left
        invariant created == old(created) && lost == old(lost)
        invariant data == Overwrite(old(data), offset, Fill(size - left, b))
      {
        var now := Min(left, BUFFER);
        var r := Pwrite(buf[..now], at);
        if r < 0 {
          OverwriteOnlyWithin(old(data), offset, Fill(size - left, b), offset, size);
          return false;
        }
        assert buf[..now][..r] == Fill(r, b);
        FillTwice(old(data), offset, size - left, r, b);
        left, at := left - r, at + r;
      }
      OverwriteOnlyWithin(old(data), offset, Fill(size, b), offset, size);
      ok := true;
    }

    // `write_bytes`: all four ways to get the bytes there have one effect.
    method WriteBytes(size: nat, offset: nat, b: byte, sparse: bool) returns (ok: bool)
      modifies this
      ensures created == old(created) && lost == old(lost)
      ensures ok ==> data == Overwrite(old(data), offset, Fill(size, b))
      ensures reliable ==> ok
      ensures OnlyWithin(old(data), data, offset, size)
    {
      hide Overwrite;
      if size == 0 {
        return true;
      }
      var len := size;
      if b == 0 && sparse {
        if offset + size > |data| {
          var st_size := |data|;
          ok := Ftruncate(offset + size);
          if !ok {
            return;
          }
          if offset >= st_size {
            ExtendIsFill(old(data), offset, size);
            OverwriteOnlyWithin(old(data), offset, Fill(size, 0), offset, size);
            return;
          }
          len := st_size - offset;
        }
        ok := PunchHole(offset, len);
        if ok {
          if len < size {
            GrowThenFill(old(data), offset, size);
          }
          OverwriteOnlyWithin(old(data), offset, Fill(size, 0), offset, size);
          return;
        }
      }
      ok := WriteLoop(len, offset, b);
      if len < size {
        GrowThenFill(old(data), offset, size);
      }
    }

    // The inner loop of `insert_image`: copy from pos to the end of an extent,
    // unless the file or the room for it ends before.
    method CopyExtent(file: seq<byte>, pos: nat, end: nat, room: nat, offset: nat) returns (ok: bool, n: nat)
      requires pos <= end
      modifies this
      ensures created == old(created) && lost == old(lost)
      ensures n <= room
      ensures ok ==> n == Min(room, Max(0, Min(end, |file|) - pos))
      ensures ok && n > 0 ==> pos + n <= |file|
      ensures ok ==> data == Overwrite(old(data), offset, if n > 0 then file[pos..pos + n] else [])
      ensures reliable ==> ok
      ensures OnlyWithin(old(data), data, offset, room)
    {
      hide Overwrite, OnlyWithin;
      n := 0;
      OverwriteOnlyWithin(data, offset, [], offset, room);
      while pos + n < end && n < room
        invariant n <= room && pos + n <= end
        invariant n > 0 ==> pos + n <= |file|
        invariant created == old(created) && lost == old(lost)
        invariant data == Overwrite(old(data), offset, if n > 0 then file[pos..pos + n] else [])
        invariant OnlyWithin(old(data), data, offset, room)
      {
        var now := Min(Min(end - pos - n, BUFFER), room - n);
        var r := Pread(file, now, pos + n, reliable);
        if r < 0 {
          return false, n;
        }
        if r == 0 {
          break;
        }
        var w := Pwrite(file[pos + n..pos + n + r], offset + n);
        if w > 0 {
          CopyMore(old(data), file, offset, pos, n, r, w, room);
        }
        if w < r {
          return false, n;
        }
        n := n + r;
      }
      ok := true;
    }

    // In the loop of `insert_image` over the extents: the hole before extent e.
    // The contents were f when the loop began, and n0 bytes have been written.
    method CopyGap(file: seq<byte>, extents: seq<Extent>, size: nat, offset: nat, start: nat, ghost b: byte,
                   sparse: bool,
                   e: nat, n0: nat, ghost f: seq<byte>)
      returns (ok: bool, n: nat)
      requires Sorted(extents) && e < |extents|
      requires n0 < size && start + n0 == Frontier(start, extents, e, |file|)
      requires data == Overwrite(f, offset, InsertedFrom(file, extents, size, start, b)[..n0])
      requires OnlyWithin(f, data, offset, size)
      modifies this
      ensures created == old(created) && lost == old(lost)
      ensures n <= size
      ensures ok ==> start + n == Min(start + size, Max(start + n0, extents[e].start))
      ensures ok ==> data == Overwrite(f, offset, InsertedFrom(file, extents, size, start, b)[..n])
      ensures reliable ==> ok
      ensures OnlyWithin(f, data, offset, size)
    {
      hide Overwrite, OnlyWithin, InsertedFrom, Sorted, Frontier, Fill;
      n, ok := n0, true;
      if start + n < extents[e].start {
        var len := Min(extents[e].start - start - n, size - n);
        ok := WriteBytes(len, offset + n, 0, sparse);
        OnlyWithinPart(f, old(data), data, offset, size, offset + n, len);
        if ok {
          GapPiece(file, extents, size, start, b, e, start + n, len);
          OverwriteSlice(f, offset, InsertedFrom(file, extents, size, start, b), n, n + len);
          n := n + len;
        }
      }
    }

    // Behind the hole: extent e itself.
    method CopyOne(file: seq<byte>, extents: seq<Extent>, size: nat, offset: nat, start: nat, ghost b: byte,
                   e: nat, n0: nat, ghost f: seq<byte>)
      returns (ok: bool, n: nat)
      requires e < |extents|
      requires n0 <= size
      requires start + n0 == Min(start + size, Max(Frontier(start, extents, e, |file|), extents[e].start))
      requires data == Overwrite(f, offset, InsertedFrom(file, extents, size, start, b)[..n0])
      requires OnlyWithin(f, data, offset, size)
      modifies this
      ensures created == old(created) && lost == old(lost)
      ensures n <= size
      ensures ok ==> start + n == Min(start + size, Frontier(start, extents, e + 1, |file|))
      ensures ok ==> data == Overwrite(f, offset, InsertedFrom(file, extents, size, start, b)[..n])
      ensures reliable ==> ok
      ensures OnlyWithin(f, data, offset, size)
    {
      hide Overwrite, OnlyWithin, InsertedFrom, Frontier, Fill;
      FrontierStep(start, extents, e, |file|);
      n, ok := n0, true;
      if start + n < extents[e].end {
        var len;
        ok, len := CopyExtent(file, start + n, extents[e].end, size - n, offset + n);
        OnlyWithinPart(f, old(data), data, offset, size, offset + n, size - n);
        if ok && len > 0 {
          CopyPiece(file, extents, size, start, b, e, start + n, len);
          OverwriteSlice(f, offset, InsertedFrom(file, extents, size, start, b), n, n + len);
        }
        n := n + len;
      }
    }

    // The loop of `insert_image` over the extents; n bytes of the output are
    // complete at its end.
    method CopyExtents(file: seq<byte>, extents: seq<Extent>, size: nat, offset: nat, start: nat, ghost b: byte,
                       sparse: bool)
      returns (ok: bool, n: nat)
      requires Sorted(extents)
      modifies this
      ensures created == old(created) && lost == old(lost)
      ensures n <= size
      ensures ok ==> start + n == Min(start + size, Frontier(start, extents, |extents|, |file|))
      ensures ok ==> data == Overwrite(old(data), offset, InsertedFrom(file, extents, size, start, b)[..n])
      ensures reliable ==> ok
      ensures OnlyWithin(old(data), data, offset, size)
    {
      hide Overwrite, OnlyWithin, InsertedFrom;
      ghost var all := InsertedFrom(file, extents, size, start, b);
      OverwriteOnlyWithin(data, offset, [], offset, size);
      n := 0;
      var e := 0;
      while e < |extents| && n < size
        invariant 0 <= e <= |extents| && n <= size
        invariant start + n == Min(start + size, Frontier(start, extents, e, |file|))
        invariant created == old(created) && lost == old(lost)
        invariant data == Overwrite(old(data), offset, all[..n])
        invariant OnlyWithin(old(data), data, offset, size)
      {
        ok, n := CopyGap(file, extents, size, offset, start, b, sparse, e, n, old(data));
        if !ok {
          return;
        }
        ok, n := CopyOne(file, extents, size, offset, start, b, e, n, old(data));
        if !ok {
          return;
        }
        e := e + 1;
      }
      FrontierGrows(start, extents, e, |extents|, |file|);
      ok := true;
    }

    // `insert_image`
    method InsertImage(sub: Option<Source>, size: nat, offset: nat, imageoffset: nat, b: byte, sparse: bool)
      returns (ok: bool)
      requires sub.Some? ==> sub.value.Valid()
      modifies this
      ensures created && lost == old(lost)
      ensures ok ==> data == Overwrite(old(data), offset, Inserted(sub, size, imageoffset, b))
      ensures ok && sub.Some? ==> sub.value.fiemap != Failed
      ensures reliable && (sub.Some? ==> sub.value.fiemap != Failed) ==> ok
      ensures OnlyWithin(old(data), data, offset, size)
    {
      hide Overwrite, OnlyWithin, InsertedFrom, MapFileExtents, Source.Valid;
      created := true;
      OverwriteOnlyWithin(data, offset, [], offset, size);
      if sub == None {
        ok := WriteBytes(size, offset, b, sparse);
        return;
      }
      var src := sub.value;
      var mapped := MapFileExtents(src, size + imageoffset);
      MapFailsWhen(src, size + imageoffset);
      if mapped == None {
        return false;
      }
      MapSucceeds(src, size + imageoffset);
      ghost var all := InsertedFrom(src.data, mapped.value, size, imageoffset, b);
      var n;
      ok, n := CopyExtents(src.data, mapped.value, size, offset, imageoffset, b, sparse);
      if !ok {
        return;
      }
      ghost var copied := data;
      RestPiece(src.data, mapped.value, size, imageoffset, b, imageoffset + n);
      ok := WriteBytes(size - n, offset + n, b, sparse);
      OnlyWithinPart(old(data), copied, data, offset, size, offset + n, size - n);
      OverwriteSlice(old(data), offset, all, n, size);
      assert all[..size] == all && all[n..size] == all[n..];
    }

    // `insert_data`: behind a short write, the result is what `errno` is then. A
    // write that did not fail leaves it alone, and if it is zero, the rest of the
    // data is missing although the call succeeds.
    method InsertData(s: seq<byte>, offset: nat) returns (ok: bool)
      modifies this
      ensures created && (old(lost) ==> lost)
      ensures ok && !lost ==> data == Overwrite(old(data), offset, s)
      ensures ok && lost && !old(lost) ==> exists n | 0 < n < |s| :: data == Overwrite(old(data), offset, s[..n])
      ensures reliable ==> ok && lost == old(lost)
      ensures OnlyWithin(old(data), data, offset, |s|)
    {
      hide Overwrite, OnlyWithin;
      created := true;
      var n := 0;
      OverwriteOnlyWithin(data, offset, [], offset, |s|);
      while n < |s|
        invariant 0 <= n <= |s|
        invariant created && lost == old(lost)
        invariant data == Overwrite(old(data), offset, s[..n])
        invariant OnlyWithin(old(data), data, offset, |s|)
      {
        var now := Min(|s| - n, BUFFER);
        var r := Pwrite(s[n..n + now], offset + n);
        if r < 0 {
          return false;
        }
        assert s[n..n + now][..r] == s[n..n + r];
        OverwriteSlice(old(data), offset, s, n, n + r);
        OverwriteOnlyWithin(old(data), offset, s[..n + r], offset, |s|);
        if r < now {
          var errno: int := *;
          lost := lost || errno == 0;
          return errno == 0;
        }
        n := n + now;
      }
      assert s[..n] == s;
      ok := true;
    }

    // `extend_file`
    method ExtendFile(size: nat) returns (ok: bool)
      modifies this
      ensures created && lost == old(lost)
      ensures ok ==> |old(data)| <= size
      ensures reliable && |old(data)| <= size ==> ok
      ensures data == if ok then Truncate(old(data), size) else old(data)
    {
      created := true;
      if |data| > size {
        return false;
      }
      if |data| == size {
        SameBytes(Truncate(data, size), data);
        return true;
      }
      ok := Ftruncate(size);
    }

    // `prepare_image` for a regular file
    method PrepareImage(size: nat) returns (ok: bool)
      modifies this
      ensures ok ==> data == Fill(size, 0) && created == (size != 0) && !lost
      ensures reliable ==> ok
    {
      lost := false;
      if size == 0 {
        ok := *;
        if reliable {
          ok := true;
        }
        if ok {
          created, data := false, [];
        }
        return;
      }
      created, data := true, [];
      ok := Ftruncate(size);
      SameBytes(Truncate([], size), Fill(size, 0));
    }
  }

  // --------------------------------------------- when a copy is a plain copy

  // The position behind the last byte that `insert_image` takes from a file.
  function Reach(src: Source, size: nat, imageoffset: nat): nat {
    match MapFileExtents(src, size + imageoffset)
    case None => imageoffset
    case Some(extents) => Min(imageoffset + size, Frontier(imageoffset, extents, |extents|, |src.data|))
  }

  // Up to that position the output has the bytes of the file, zeros beyond its
  // end; from there on it has the padding byte.
  lemma InsertedIsCopy(src: Source, size: nat, imageoffset: nat, b: byte, k: nat)
    requires src.Valid() && src.fiemap != Failed && k < size
    ensures Inserted(Some(src), size, imageoffset, b)[k]
         == if imageoffset + k < Reach(src, size, imageoffset) then At(src.data, imageoffset + k) else b
  {
    var p, limit := imageoffset + k, size + imageoffset;
    var extents := MapFileExtents(src, limit).value;
    assert Inserted(Some(src), size, imageoffset, b)[k] == InsertedByte(src.data, extents, imageoffset, b, p);
    if src.fiemap.Mapped? {
      MappedExtents(src, limit);
      assert Covered(extents, p) <==> Covered(src.fiemap.extents, p);
    } else {
      FrontierStep(imageoffset, extents, 0, |src.data|);
      assert extents[0].start <= p < extents[0].end;
      assert Covered(extents, p);
    }
  }

  lemma GapOrEnd(extents: seq<Extent>, p: nat, len: nat)
    requires forall d | 0 <= d < |extents| :: Min(extents[d].end, len) <= p
    requires p < len
    ensures !Covered(extents, p)
  {
  }

  // What is left of the file behind that position reads as zeros.
  lemma BeyondReach(src: Source, size: nat, imageoffset: nat, p: nat)
    requires src.Valid() && src.fiemap != Failed
    requires Reach(src, size, imageoffset) <= p < imageoffset + size && p < |src.data|
    ensures src.data[p] == 0
  {
    var extents := MapFileExtents(src, size + imageoffset).value;
    FrontierGrows(imageoffset, extents, 0, |extents|, |src.data|);
    if src.fiemap.Mapped? {
      MappedExtents(src, size + imageoffset);
      GapOrEnd(extents, p, |src.data|);
    } else {
      assert false;
    }
  }

  // One of the first n extents that begin in the range.
  ghost predicate ExtentBehind(extents: seq<Extent>, n: nat, limit: nat, len: nat, p: nat)
    requires n <= |extents|
  {
    exists e | 0 <= e < n :: extents[e].start < limit && (p < extents[e].start || p < Min(extents[e].end, len))
  }

  // The copy of an input goes on beyond a position p if there is more data behind:
  // an extent that begins later, or that has the byte at p.
  ghost predicate GoesOn(src: Source, limit: nat, p: nat) {
    match src.fiemap
    case Unsupported => p < |src.data|
    case Failed => false
    case Mapped(extents) => ExtentBehind(extents, |extents|, limit, |src.data|, p)
  }

  lemma {:induction false} FrontierIff(start: nat, extents: seq<Extent>, n: nat, len: nat, limit: nat, p: nat)
    requires n <= |extents| && start <= p && forall e | 0 <= e < n :: extents[e].start < limit
    ensures p < Frontier(start, extents, n, len) <==> ExtentBehind(extents, n, limit, len, p)
    decreases n
  {
    if n > 0 {
      FrontierIff(start, extents, n - 1, len, limit, p);
      var e := extents[n - 1];
      if p < e.start || p < Min(e.end, len) {
        assert extents[n - 1].start < limit;
        assert ExtentBehind(extents, n, limit, len, p);
      }
    }
  }

  lemma MappedBehind(src: Source, limit: nat, p: nat)
    requires src.Valid() && src.fiemap.Mapped? && p < limit
    ensures var m := MapFileExtents(src, limit).value;
            && (forall e | 0 <= e < |m| :: m[e].start < limit)
            && (ExtentBehind(m, |m|, limit, |src.data|, p) <==> GoesOn(src, limit, p))
  {
    hide MapFileExtents, Source.Valid;
    MappedShape(src, limit);
    var all, m := src.fiemap.extents, MapFileExtents(src, limit).value;
    if GoesOn(src, limit, p) {
      var e :| 0 <= e < |all| && all[e].start < limit && (p < all[e].start || p < Min(all[e].end, |src.data|));
      SortedStarts(src, e, |m|);
      assert m[e].start < limit && (p < m[e].start || p < Min(m[e].end, |src.data|));
    }
    if ExtentBehind(m, |m|, limit, |src.data|, p) {
      var e :| 0 <= e < |m| && m[e].start < limit && (p < m[e].start || p < Min(m[e].end, |src.data|));
      assert all[e].start < limit && (p < all[e].start || p < Min(all[e].end, |src.data|));
    }
  }

  lemma ReachIff(src: Source, size: nat, imageoffset: nat, p: nat)
    requires src.Valid() && imageoffset <= p < imageoffset + size
    ensures p < Reach(src, size, imageoffset) <==> GoesOn(src, size + imageoffset, p)
  {
    var limit := size + imageoffset;
    if src.fiemap.Mapped? {
      MappedBehind(src, limit, p);
      var m := MapFileExtents(src, limit).value;
      FrontierIff(imageoffset, m, |m|, |src.data|, limit, p);
    } else if src.fiemap.Unsupported? {
      FrontierStep(imageoffset, WholeFile(limit), 0, |src.data|);
    }
  }

  // Every byte of a sparse copy: the input's own, with its holes, up to the end of
  // what the extents have, and the padding byte behind.
  lemma InsertedByteIs(src: Source, size: nat, imageoffset: nat, b: byte, k: nat)
    requires src.Valid() && src.fiemap != Failed && k < size
    ensures Inserted(Some(src), size, imageoffset, b)[k]
         == if GoesOn(src, size + imageoffset, imageoffset + k) then At(src.data, imageoffset + k) else b
  {
    hide Inserted, Reach, GoesOn, Source.Valid;
    InsertedIsCopy(src, size, imageoffset, b, k);
    ReachIff(src, size, imageoffset, imageoffset + k);
  }

  ghost predicate PlainCopy(src: Source, size: nat, imageoffset: nat, b: byte) {
    forall k | 0 <= k < size ::
      Inserted(Some(src), size, imageoffset, b)[k]
      == if imageoffset + k < |src.data| then src.data[imageoffset + k] else b
  }

  lemma ReachBounds(src: Source, size: nat, imageoffset: nat)
    ensures imageoffset <= Reach(src, size, imageoffset) <= imageoffset + size
  {
  }

  // With zero padding, a sparse copy is always the plain copy. With another
  // padding byte it is so exactly if the extents reach to the end of the data:
  // a trailing hole would be overwritten with padding, and an extent behind the
  // end of the file would keep padding out.
  lemma PlainCopyIff(src: Source, size: nat, imageoffset: nat, b: byte)
    requires src.Valid() && src.fiemap != Failed
    ensures PlainCopy(src, size, imageoffset, b)
        <==> b == 0 || Reach(src, size, imageoffset) == Max(imageoffset, Min(|src.data|, imageoffset + size))
  {
    hide Inserted, Reach, Source.Valid;
    var reach := Reach(src, size, imageoffset);
    ReachBounds(src, size, imageoffset);
    forall k | 0 <= k < size
      ensures Inserted(Some(src), size, imageoffset, b)[k] == if imageoffset + k < reach then At(src.data, imageoffset + k) else b
    {
      InsertedIsCopy(src, size, imageoffset, b, k);
    }
    forall p | reach <= p < imageoffset + size && p < |src.data|
      ensures src.data[p] == 0
    {
      BeyondReach(src, size, imageoffset, p);
    }
    var end := Max(imageoffset, Min(|src.data|, imageoffset + size));
    if b != 0 && reach != end {
      var k := Min(reach, end) - imageoffset;
      assert 0 <= k < size;
      assert Inserted(Some(src), size, imageoffset, b)[k]
          != if imageoffset + k < |src.data| then src.data[imageoffset + k] else b;
    }
  }

  // A file of two bytes, the second of them a hole: padding it with 0xff
  // replaces the byte that the hole stands for.
  lemma TrailingHoleIsPadded()
    ensures var src := Source([7, 0], Mapped([Extent(0, 1)]));
            src.Valid() && !PlainCopy(src, 2, 0, 0xff)
  {
    var src := Source([7, 0], Mapped([Extent(0, 1)]));
    assert src.fiemap.extents[0].start <= 0 < src.fiemap.extents[0].end;
    assert src.Valid();
    assert [Extent(0, 1)][1..] == [] && Reported([], 2) == [];
    assert Reported([Extent(0, 1)], 2) == [Extent(0, 1)] + [] == [Extent(0, 1)];
    assert MapFileExtents(src, 2) == Some([Extent(0, 1)]);
    FrontierStep(0, [Extent(0, 1)], 0, 2);
    PlainCopyIff(src, 2, 0, 0xff);
  }
}
