/**
  Which chunks a sparse file has: every block without a change is in a fill
  chunk, untouched blocks are left out, and no chunk is split without need.
 */
module SparseExact {
  import opened Bytes
  import opened Files
  import opened Arith
  import opened SparseExtents
  import opened SparseFormat
  import opened SparseEncoder

  // ------------------------------------------------- blocks of one word

  // One word again and again: every byte is the one four before it.
  ghost predicate OneWord(b: seq<byte>) {
    forall i | 4 <= i < |b| :: b[i] == b[i - 4]
  }

  lemma {:induction false} OneWordRepeats(b: seq<byte>, k: nat)
    requires OneWord(b) && 4 * k + 4 <= |b|
    ensures b[4 * k..4 * k + 4] == b[..4]
    decreases k
  {
    if k > 0 {
      OneWordRepeats(b, k - 1);
      assert b[4 * k] == b[4 * k - 4] && b[4 * k + 1] == b[4 * k - 3] && b[4 * k + 2] == b[4 * k - 2] && b[4 * k + 3] == b[4 * k - 1];
      assert b[4 * k..4 * k + 4] == b[4 * (k - 1)..4 * (k - 1) + 4];
    }
  }

  lemma OneWordIff(b: seq<byte>)
    requires |b| >= 4 && |b| % 4 == 0
    ensures Uniform(b) <==> OneWord(b)
  {
    if Uniform(b) {
      forall i | 4 <= i < |b|
        ensures b[i] == b[i - 4]
      {
        var k := i / 4;
        assert b[4 * k..4 * k + 4] == b[..4] && b[4 * (k - 1)..4 * (k - 1) + 4] == b[..4];
        assert b[i] == b[4 * k..4 * k + 4][i % 4] && b[i - 4] == b[4 * (k - 1)..4 * (k - 1) + 4][i % 4];
      }
    }
    if OneWord(b) {
      forall k | 0 <= k < |b| / 4
        ensures b[4 * k..4 * k + 4] == b[..4]
      {
        OneWordRepeats(b, k);
      }
    }
  }

  // ------------------------------------------------- chunks

  // Block k of the data of a raw chunk
  function Nth(data: seq<byte>, bs: nat, k: nat): seq<byte> {
    if k * bs + bs <= |data| then data[k * bs..k * bs + bs] else []
  }

  // A raw chunk has no block that could be a fill, and is no larger than 32 bits can say.
  ghost predicate Needed(c: Chunk, bs: nat)
    requires bs > 0
  {
    && !c.CrcChunk? && c.blocks > 0
    && (c.RawChunk? ==>
          && |c.data| == c.blocks * bs && c.blocks <= (0xffff_ffff - 12) / bs
          && forall k | 0 <= k < c.blocks :: !OneWord(Nth(c.data, bs, k)))
  }

  // Chunk d could not have been a part of c, the one before it.
  ghost predicate Splits(c: Chunk, d: Chunk, bs: nat)
    requires bs > 0
  {
    && !(c.DontCare? && d.DontCare?)
    && (c.FillChunk? && d.FillChunk? ==> c.value != d.value)
    && (c.RawChunk? && d.RawChunk? ==> c.blocks == (0xffff_ffff - 12) / bs)
  }

  // Chunk i has blocks that extents touch, or is a gap of blocks that none does.
  ghost predicate InPlace(chunks: seq<Chunk>, i: nat, bs: nat, extents: seq<Extent>)
    requires bs > 0 && i < |chunks|
  {
    forall b: nat | SumBlocks(chunks[..i]) <= b < SumBlocks(chunks[..i]) + BlocksOf(chunks[i]) ::
      !chunks[i].DontCare? <==> Touched(extents, bs, b)
  }

  ghost predicate ChunkIs(chunks: seq<Chunk>, i: nat, bs: nat, extents: seq<Extent>)
    requires bs > 0 && i < |chunks|
  {
    && Needed(chunks[i], bs) && InPlace(chunks, i, bs, extents)
    && (i > 0 ==> Splits(chunks[i - 1], chunks[i], bs))
  }

  // No chunk could be left out, cut down or joined with the one before it.
  ghost predicate Tight(chunks: seq<Chunk>, bs: nat, extents: seq<Extent>)
    requires bs > 0
  {
    forall i | 0 <= i < |chunks| :: ChunkIs(chunks, i, bs, extents)
  }

  lemma {:induction false} SumAppend(chunks: seq<Chunk>, c: Chunk)
    ensures SumBlocks(chunks + [c]) == SumBlocks(chunks) + BlocksOf(c)
    decreases |chunks|
  {
    hide BlocksOf;
    if chunks == [] {
      assert (chunks + [c])[1..] == [];
    } else {
      assert (chunks + [c])[1..] == chunks[1..] + [c];
      SumAppend(chunks[1..], c);
    }
  }

  // The blocks from one up to another are touched, or are not.
  ghost predicate AllTouched(extents: seq<Extent>, bs: nat, from: nat, to: nat, touched: bool)
    requires bs > 0
  {
    forall b: nat | from <= b < to :: Touched(extents, bs, b) <==> touched
  }

  lemma PrefixIs(chunks: seq<Chunk>, more: seq<Chunk>, i: nat, bs: nat, extents: seq<Extent>)
    requires bs > 0 && i < |chunks| <= |more| && more[..|chunks|] == chunks
    ensures ChunkIs(chunks, i, bs, extents) <==> ChunkIs(more, i, bs, extents)
  {
    hide Needed, Splits;
    assert chunks[..i] == more[..i] && chunks[i] == more[i] && (i > 0 ==> chunks[i - 1] == more[i - 1]);
  }

  lemma LastIs(chunks: seq<Chunk>, c: Chunk, bs: nat, extents: seq<Extent>)
    requires bs > 0 && Needed(c, bs) && (chunks != [] ==> Splits(chunks[|chunks| - 1], c, bs))
    requires AllTouched(extents, bs, SumBlocks(chunks), SumBlocks(chunks) + c.blocks, !c.DontCare?)
    ensures ChunkIs(chunks + [c], |chunks|, bs, extents)
  {
    hide Splits, Touched;
    var all := chunks + [c];
    assert all[..|chunks|] == chunks && all[|chunks|] == c;
  }

  // One more chunk
  lemma TightAppend(chunks: seq<Chunk>, c: Chunk, bs: nat, extents: seq<Extent>)
    requires bs > 0 && Tight(chunks, bs, extents)
    requires Needed(c, bs) && (chunks != [] ==> Splits(chunks[|chunks| - 1], c, bs))
    requires AllTouched(extents, bs, SumBlocks(chunks), SumBlocks(chunks) + c.blocks, !c.DontCare?)
    ensures Tight(chunks + [c], bs, extents)
  {
    hide ChunkIs, Needed, Splits, AllTouched;
    var all := chunks + [c];
    LastIs(chunks, c, bs, extents);
    forall i | 0 <= i < |all|
      ensures ChunkIs(all, i, bs, extents)
    {
      if i < |chunks| {
        PrefixIs(chunks, all, i, bs, extents);
      }
    }
  }

  lemma NoCrc(c: Chunk, bs: nat)
    requires bs > 0
    ensures Needed(c, bs) ==> !c.CrcChunk? && c.blocks > 0
  {
  }

  lemma LastChunk(chunks: seq<Chunk>, n: nat, bs: nat, extents: seq<Extent>)
    requires bs > 0 && n < |chunks| && ChunkIs(chunks, n, bs, extents)
    ensures Needed(chunks[n], bs) && (n > 0 ==> Splits(chunks[n - 1], chunks[n], bs))
    ensures !chunks[n].CrcChunk? && BlocksOf(chunks[n]) == chunks[n].blocks
    ensures AllTouched(extents, bs, SumBlocks(chunks[..n]), SumBlocks(chunks[..n]) + chunks[n].blocks, !chunks[n].DontCare?)
  {
    hide Splits, Touched, SumBlocks;
    NoCrc(chunks[n], bs);
  }

  // The chunks without the last one
  lemma TightFront(chunks: seq<Chunk>, bs: nat, extents: seq<Extent>)
    requires bs > 0 && chunks != [] && Tight(chunks, bs, extents)
    ensures var n := |chunks| - 1;
            && Tight(chunks[..n], bs, extents)
            && Needed(chunks[n], bs) && (n > 0 ==> Splits(chunks[n - 1], chunks[n], bs))
            && AllTouched(extents, bs, SumBlocks(chunks[..n]), SumBlocks(chunks[..n]) + chunks[n].blocks, !chunks[n].DontCare?)
            && SumBlocks(chunks) == SumBlocks(chunks[..n]) + chunks[n].blocks
  {
    hide Needed, Splits, Touched, InPlace, ChunkIs, AllTouched, SumBlocks;
    var n := |chunks| - 1;
    assert chunks == chunks[..n] + [chunks[n]];
    SumAppend(chunks[..n], chunks[n]);
    assert ChunkIs(chunks, n, bs, extents);
    LastChunk(chunks, n, bs, extents);
    forall i | 0 <= i < n
      ensures ChunkIs(chunks[..n], i, bs, extents)
    {
      assert ChunkIs(chunks, i, bs, extents);
      PrefixIs(chunks[..n], chunks, i, bs, extents);
    }
  }

  // The last chunk with one more block
  lemma TightGrow(chunks: seq<Chunk>, c: Chunk, bs: nat, extents: seq<Extent>)
    requires bs > 0 && chunks != [] && Tight(chunks, bs, extents) && Needed(c, bs)
    requires var last := chunks[|chunks| - 1];
             && !last.CrcChunk? && !last.DontCare? && c.blocks == last.blocks + 1
             && (if last.FillChunk? then c.FillChunk? && c.value == last.value else c.RawChunk?)
    requires Touched(extents, bs, SumBlocks(chunks))
    ensures Tight(chunks[..|chunks| - 1] + [c], bs, extents)
  {
    hide Needed, Tight, Touched;
    TightFront(chunks, bs, extents);
    TightAppend(chunks[..|chunks| - 1], c, bs, extents);
  }

  // ------------------------------------------------- the chunks of a file

  lemma NthOfMore(data: seq<byte>, b: seq<byte>, bs: nat, n: nat, k: nat)
    requires |data| == n * bs && |b| == bs && k <= n
    ensures Nth(data + b, bs, k) == if k < n then Nth(data, bs, k) else b
  {
    if k < n {
      SumTimes(k, 1, bs);
      SumTimes(k + 1, n - (k + 1), bs);
      assert k * bs + bs <= n * bs;
    }
  }

  lemma RawIsNeeded(c: Chunk, b: seq<byte>, bs: nat)
    requires BlockSize(bs) && c.RawChunk? && |b| == bs && !OneWord(b) && c.blocks < MaxRawBlocks(bs)
    requires |c.data| == c.blocks * bs && forall k | 0 <= k < c.blocks :: !OneWord(Nth(c.data, bs, k))
    ensures Needed(RawChunk(c.data + b, c.blocks + 1), bs)
  {
    hide OneWord, Nth;
    SumTimes(c.blocks, 1, bs);
    forall k | 0 <= k < c.blocks + 1
      ensures !OneWord(Nth(c.data + b, bs, k))
    {
      NthOfMore(c.data, b, bs, c.blocks, k);
    }
  }

  // Another block goes into the last chunk if it can, and into a new one if it has to.
  lemma AddBlockIsTight(chunks: seq<Chunk>, open: bool, b: seq<byte>, bs: nat, extents: seq<Extent>)
    requires BlockSize(bs) && |b| == bs && Tight(chunks, bs, extents) && Touched(extents, bs, SumBlocks(chunks))
    requires !open ==> chunks == [] || chunks[|chunks| - 1].DontCare?
    ensures var r := AddBlock(chunks, open, b, MaxRawBlocks(bs));
            && Tight(r, bs, extents) && !r[|r| - 1].DontCare?
            && SumBlocks(r) == SumBlocks(chunks) + 1
  {
    hide Tight, Touched, Uniform, OneWord, Nth;
    FourInBlock(bs);
    OneWordIff(b);
    MaxRawIsPositive(bs);
    var n := |chunks| - 1;
    var r := AddBlock(chunks, open, b, MaxRawBlocks(bs));
    var c := r[|r| - 1];
    if chunks != [] {
      TightFront(chunks, bs, extents);
      assert chunks == chunks[..n] + [chunks[n]];
    }
    if chunks != [] && |r| == |chunks| {
      if c.RawChunk? {
        RawIsNeeded(chunks[n], b, bs);
      }
      assert r == chunks[..n] + [c];
      TightGrow(chunks, c, bs, extents);
      SumAppend(chunks[..n], c);
    } else {
      assert r == chunks + [c];
      if c.RawChunk? {
        assert [] + b == b;
        RawIsNeeded(RawChunk([], 0), b, bs);
      }
      TightAppend(chunks, c, bs, extents);
      SumAppend(chunks, c);
    }
  }

  lemma {:induction false} AddBlocksIsTight(chunks: seq<Chunk>, open: bool, data: seq<byte>, bs: nat, k: nat, n: nat,
                                            extents: seq<Extent>)
    requires BlockSize(bs) && k < n && SumBlocks(chunks) == k && Tight(chunks, bs, extents)
    requires AllTouched(extents, bs, k, n, true)
    requires !open ==> chunks == [] || chunks[|chunks| - 1].DontCare?
    ensures var r := AddBlocks(chunks, open, data, bs, k, n);
            && Tight(r, bs, extents) && r != [] && !r[|r| - 1].DontCare? && SumBlocks(r) == n
    decreases n - k
  {
    hide Tight, Touched, AddBlock, BlockAt;
    var b := BlockAt(data, bs, k);
    AddBlockIsTight(chunks, open, b, bs, extents);
    var more := AddBlock(chunks, open, b, MaxRawBlocks(bs));
    if k + 1 < n {
      AddBlocksIsTight(more, true, data, bs, k + 1, n, extents);
    } else {
      assert AddBlocks(chunks, open, data, bs, k, n) == AddBlocks(more, true, data, bs, n, n);
    }
  }

  lemma AddGapIsTight(chunks: seq<Chunk>, bs: nat, block: nat, n: nat, extents: seq<Extent>)
    requires bs > 0 && Tight(chunks, bs, extents) && SumBlocks(chunks) == block <= n
    requires AllTouched(extents, bs, block, n, false)
    requires chunks != [] ==> !chunks[|chunks| - 1].DontCare?
    ensures var r := AddGap(chunks, block, n);
            && Tight(r, bs, extents) && SumBlocks(r) == n
            && if block < n then r != [] && r[|r| - 1].DontCare? else r == chunks
  {
    hide Tight, Touched, AllTouched;
    if block < n {
      SumAppend(chunks, DontCare(n - block));
      TightAppend(chunks, DontCare(n - block), bs, extents);
    }
  }

  lemma {:induction false} ExtentsAreTight(data: seq<byte>, bs: nat, extents: seq<Extent>, n: nat)
    requires BlockSize(bs) && Separated(extents, bs, |data|) && n <= |extents|
    ensures Ranges(extents, bs)
    ensures var g := AddExtents(data, bs, extents, n);
            && Tight(g.chunks, bs, extents) && SumBlocks(g.chunks) == g.block
            && g.block == (if n == 0 then 0 else EndBlock(extents[n - 1], bs))
            && (g.chunks != [] ==> !g.chunks[|g.chunks| - 1].DontCare?) && (g.chunks == [] <==> n == 0)
    decreases n
  {
    hide Separated, FirstBlock, EndBlock, AddGap, AddBlocks, Touched, BlockCount, ChunkIs;
    SeparatedAreRanges(extents, bs, |data|);
    if n > 0 {
      ExtentsAreTight(data, bs, extents, n - 1);
      SeparatedBlocks(extents, bs, |data|, n - 1);
      var g := AddExtents(data, bs, extents, n - 1);
      var first, end := FirstBlock(extents[n - 1], bs), EndBlock(extents[n - 1], bs);
      AddGapIsTight(g.chunks, bs, g.block, first, extents);
      AddBlocksIsTight(AddGap(g.chunks, g.block, first), false, data, bs, first, end, extents);
    }
  }

  // The chunks of every file are tight.
  lemma ChunksAreTight(data: seq<byte>, bs: nat, extents: seq<Extent>)
    requires BlockSize(bs) && Separated(extents, bs, |data|)
    ensures Ranges(extents, bs) && Tight(Chunks(data, bs, extents), bs, extents)
  {
    hide Separated, FirstBlock, EndBlock, AddGap, AddExtents, Touched, BlockCount, Tight;
    ExtentsAreTight(data, bs, extents, |extents|);
    NothingBehind(extents, bs, |data|);
    var g := AddExtents(data, bs, extents, |extents|);
    if extents != [] {
      SeparatedBlocks(extents, bs, |data|, |extents| - 1);
    }
    AddGapIsTight(g.chunks, bs, g.block, BlockCount(|data|, bs), extents);
  }

  // Extents that touch the same blocks
  lemma TightAlso(chunks: seq<Chunk>, bs: nat, a: seq<Extent>, b: seq<Extent>)
    requires bs > 0 && Tight(chunks, bs, a) && forall k: nat :: Touched(a, bs, k) <==> Touched(b, bs, k)
    ensures Tight(chunks, bs, b)
  {
    hide Needed, Splits, Touched;
    forall i | 0 <= i < |chunks|
      ensures ChunkIs(chunks, i, bs, b)
    {
      assert ChunkIs(chunks, i, bs, a);
    }
  }

  // ------------------------------------------------- there is only one such list

  // The image has these bytes in the n blocks from block s on.
  ghost predicate HoldsAt(image: seq<byte>, bs: nat, s: nat, n: nat, bytes: seq<byte>) {
    s * bs + n * bs <= |image| && image[s * bs..s * bs + n * bs] == bytes
  }

  lemma HoldsFirst(first: seq<byte>, rest: seq<byte>, bs: nat, n: nat)
    requires |first| == n * bs
    ensures HoldsAt(first + rest, bs, 0, n, first)
  {
  }

  lemma SliceOfRest(first: seq<byte>, rest: seq<byte>, p: nat, size: nat)
    requires p + size <= |rest|
    ensures (first + rest)[|first| + p..|first| + p + size] == rest[p..p + size]
  {
  }

  lemma HoldsLater(first: seq<byte>, rest: seq<byte>, bs: nat, m: nat, s: nat, n: nat, bytes: seq<byte>)
    requires |first| == m * bs && HoldsAt(rest, bs, s, n, bytes)
    ensures HoldsAt(first + rest, bs, m + s, n, bytes)
  {
    SumTimes(m, s, bs);
    SliceOfRest(first, rest, s * bs, n * bs);
  }

  lemma {:induction false} ExpandAt(chunks: seq<Chunk>, i: nat, bs: nat)
    requires bs % 4 == 0 && AllSound(chunks, bs) && i < |chunks|
    ensures HoldsAt(ExpandAll(chunks, bs), bs, SumBlocks(chunks[..i]), BlocksOf(chunks[i]), Expand(chunks[i], bs))
    decreases i
  {
    hide Expand, Sound, BlocksOf, HoldsAt;
    var first, rest := Expand(chunks[0], bs), ExpandAll(chunks[1..], bs);
    OneExpandSize(chunks[0], bs);
    if i == 0 {
      HoldsFirst(first, rest, bs, BlocksOf(chunks[0]));
    } else {
      ExpandAt(chunks[1..], i - 1, bs);
      assert chunks[..i][0] == chunks[0] && chunks[..i][1..] == chunks[1..][..i - 1];
      HoldsLater(first, rest, bs, BlocksOf(chunks[0]), SumBlocks(chunks[1..][..i - 1]), BlocksOf(chunks[i]), Expand(chunks[i], bs));
    }
  }

  lemma BlockBounds(bs: nat, s: nat, n: nat, t: nat)
    requires s <= t < s + n
    ensures t * bs == s * bs + (t - s) * bs && (t - s) * bs + bs <= n * bs
  {
    SumTimes(s, t - s, bs);
    SumTimes(t - s, 1, bs);
    SumTimes(t - s + 1, n - (t - s + 1), bs);
  }

  lemma NthIs(data: seq<byte>, bs: nat, k: nat, p: nat)
    requires p == k * bs && p + bs <= |data|
    ensures Nth(data, bs, k) == data[p..p + bs]
  {
  }

  lemma NthOfChunk(image: seq<byte>, bs: nat, s: nat, n: nat, bytes: seq<byte>, t: nat)
    requires s <= t < s + n && HoldsAt(image, bs, s, n, bytes)
    ensures Nth(image, bs, t) == Nth(bytes, bs, t - s)
  {
    BlockBounds(bs, s, n, t);
    SubSlice(image, s * bs, s * bs + n * bs, (t - s) * bs, (t - s) * bs + bs);
    NthIs(image, bs, t, t * bs);
    NthIs(bytes, bs, t - s, (t - s) * bs);
  }

  lemma SameWord(p: nat, i: nat)
    requires i >= 4
    ensures (p + i) % 4 == (p + i - 4) % 4
  {
  }

  lemma SliceOfFill(value: seq<byte>, n: nat, p: nat, bs: nat)
    requires |value| == 4 && p % 4 == 0 && 4 <= bs && p + bs <= 4 * n
    ensures var b := Repeat(value, n)[p..p + bs]; OneWord(b) && b[..4] == value
  {
    var all := Repeat(value, n);
    var b := all[p..p + bs];
    assert all[p] == value[0] && all[p + 1] == value[1] && all[p + 2] == value[2] && all[p + 3] == value[3];
    forall i | 4 <= i < bs
      ensures b[i] == b[i - 4]
    {
      SameWord(p, i);
      assert all[p + i] == value[(p + i) % 4] && all[p + i - 4] == value[(p + i - 4) % 4];
    }
  }

  lemma NthOfFill(value: seq<byte>, n: nat, bs: nat, k: nat)
    requires |value| == 4 && bs % 4 == 0 && bs >= 4 && k < n
    ensures var b := Nth(Repeat(value, n * bs / 4), bs, k); |b| == bs && OneWord(b) && b[..4] == value
  {
    hide OneWord, Repeat;
    FourDivides(n, bs);
    FourDivides(k, bs);
    BlockBounds(bs, 0, n, k);
    SliceOfFill(value, n * bs / 4, k * bs, bs);
  }

  // What a chunk is follows from each of its blocks in the image.
  lemma KindAt(chunks: seq<Chunk>, i: nat, bs: nat, extents: seq<Extent>, t: nat)
    requires BlockSize(bs) && AllSound(chunks, bs) && Tight(chunks, bs, extents) && i < |chunks|
    requires SumBlocks(chunks[..i]) <= t < SumBlocks(chunks[..i]) + BlocksOf(chunks[i])
    ensures var b := Nth(ExpandAll(chunks, bs), bs, t);
            && (chunks[i].DontCare? <==> !Touched(extents, bs, t))
            && (chunks[i].FillChunk? ==> |b| >= 4 && OneWord(b) && chunks[i].value == b[..4])
            && (chunks[i].RawChunk? ==> !OneWord(b))
  {
    hide OneWord, Nth, Touched, Repeat, ExpandAll, SumBlocks, HoldsAt;
    FourInBlock(bs);
    var c, s := chunks[i], SumBlocks(chunks[..i]);
    assert ChunkIs(chunks, i, bs, extents) && Sound(c, bs);
    ExpandAt(chunks, i, bs);
    NthOfChunk(ExpandAll(chunks, bs), bs, s, c.blocks, Expand(c, bs), t);
    if c.FillChunk? {
      NthOfFill(c.value, c.blocks, bs, t - s);
    }
  }

  lemma IsNeeded(chunks: seq<Chunk>, i: nat, bs: nat, extents: seq<Extent>)
    requires bs > 0 && Tight(chunks, bs, extents) && i < |chunks|
    ensures !chunks[i].CrcChunk? && chunks[i].blocks > 0
    ensures chunks[i].RawChunk? ==> chunks[i].blocks <= (0xffff_ffff - 12) / bs && |chunks[i].data| == chunks[i].blocks * bs
    ensures i > 0 ==> Splits(chunks[i - 1], chunks[i], bs)
  {
    hide Splits, InPlace;
    assert ChunkIs(chunks, i, bs, extents);
  }

  // Two lists that agree before chunk i agree in what this chunk is.
  lemma SameKind(a: seq<Chunk>, b: seq<Chunk>, i: nat, j: nat, bs: nat, extents: seq<Extent>, t: nat)
    requires BlockSize(bs) && AllSound(a, bs) && AllSound(b, bs) && Tight(a, bs, extents) && Tight(b, bs, extents)
    requires ExpandAll(a, bs) == ExpandAll(b, bs) && i < |a| && j < |b|
    requires SumBlocks(a[..i]) <= t < SumBlocks(a[..i]) + BlocksOf(a[i])
    requires SumBlocks(b[..j]) <= t < SumBlocks(b[..j]) + BlocksOf(b[j])
    ensures a[i].DontCare? == b[j].DontCare? && a[i].FillChunk? == b[j].FillChunk? && a[i].RawChunk? == b[j].RawChunk?
    ensures a[i].FillChunk? ==> a[i].value == b[j].value
  {
    hide OneWord, Nth, Touched, ExpandAll, SumBlocks, AllSound, Tight, InPlace;
    KindAt(a, i, bs, extents, t);
    KindAt(b, j, bs, extents, t);
    IsNeeded(a, i, bs, extents);
    IsNeeded(b, j, bs, extents);
  }

  lemma {:induction false} SumUpTo(chunks: seq<Chunk>, i: nat)
    requires i < |chunks|
    ensures SumBlocks(chunks[..i + 1]) == SumBlocks(chunks[..i]) + BlocksOf(chunks[i]) <= SumBlocks(chunks)
    ensures i + 1 == |chunks| ==> SumBlocks(chunks) == SumBlocks(chunks[..i + 1])
    decreases |chunks|
  {
    hide BlocksOf;
    assert chunks[..i + 1] == chunks[..i] + [chunks[i]];
    SumAppend(chunks[..i], chunks[i]);
    var n := |chunks| - 1;
    assert chunks == chunks[..n] + [chunks[n]];
    SumAppend(chunks[..n], chunks[n]);
    if i < n {
      SumUpTo(chunks[..n], i);
      assert chunks[..n][..i + 1] == chunks[..i + 1];
    }
  }

  // The first of them is not shorter.
  lemma NotShorter(a: seq<Chunk>, b: seq<Chunk>, i: nat, bs: nat, extents: seq<Extent>)
    requires BlockSize(bs) && AllSound(a, bs) && AllSound(b, bs) && Tight(a, bs, extents) && Tight(b, bs, extents)
    requires ExpandAll(a, bs) == ExpandAll(b, bs) && SumBlocks(a) == SumBlocks(b)
    requires i < |a| && i < |b| && a[..i] == b[..i]
    ensures BlocksOf(a[i]) >= BlocksOf(b[i])
  {
    hide Touched, ExpandAll, SumBlocks, AllSound, Tight;
    IsNeeded(a, i, bs, extents);
    IsNeeded(b, i, bs, extents);
    SameKind(a, b, i, i, bs, extents, SumBlocks(a[..i]));
    if a[i].blocks < b[i].blocks {
      SumUpTo(a, i);
      SumUpTo(b, i);
      assert i + 1 < |a|;
      IsNeeded(a, i + 1, bs, extents);
      SameKind(a, b, i + 1, i, bs, extents, SumBlocks(a[..i + 1]));
      assert false;
    }
  }

  lemma SameChunk(a: seq<Chunk>, b: seq<Chunk>, i: nat, bs: nat, extents: seq<Extent>)
    requires BlockSize(bs) && AllSound(a, bs) && AllSound(b, bs) && Tight(a, bs, extents) && Tight(b, bs, extents)
    requires ExpandAll(a, bs) == ExpandAll(b, bs) && SumBlocks(a) == SumBlocks(b)
    requires i < |a| && i < |b| && a[..i] == b[..i]
    ensures a[i] == b[i]
  {
    hide Touched, ExpandAll, SumBlocks, Tight, Splits;
    FourInBlock(bs);
    IsNeeded(a, i, bs, extents);
    IsNeeded(b, i, bs, extents);
    SameKind(a, b, i, i, bs, extents, SumBlocks(a[..i]));
    NotShorter(a, b, i, bs, extents);
    NotShorter(b, a, i, bs, extents);
    ExpandAt(a, i, bs);
    ExpandAt(b, i, bs);
  }

  lemma {:induction false} SameStart(a: seq<Chunk>, b: seq<Chunk>, i: nat, bs: nat, extents: seq<Extent>)
    requires BlockSize(bs) && AllSound(a, bs) && AllSound(b, bs) && Tight(a, bs, extents) && Tight(b, bs, extents)
    requires ExpandAll(a, bs) == ExpandAll(b, bs) && SumBlocks(a) == SumBlocks(b)
    requires i <= |a| && i <= |b|
    ensures a[..i] == b[..i]
    decreases i
  {
    hide ExpandAll, SumBlocks, Tight, AllSound;
    if i > 0 {
      SameStart(a, b, i - 1, bs, extents);
      SameChunk(a, b, i - 1, bs, extents);
      assert a[..i] == a[..i - 1] + [a[i - 1]] && b[..i] == b[..i - 1] + [b[i - 1]];
    }
  }

  lemma NoLonger(a: seq<Chunk>, b: seq<Chunk>, bs: nat, extents: seq<Extent>)
    requires bs > 0 && Tight(a, bs, extents) && SumBlocks(a) == SumBlocks(b) && |b| <= |a| && a[..|b|] == b
    ensures |a| == |b|
  {
    hide SumBlocks, Tight;
    if |b| < |a| {
      IsNeeded(a, |b|, bs, extents);
      SumUpTo(a, |b|);
    }
  }

  lemma SumOfExpanded(a: seq<Chunk>, b: seq<Chunk>, bs: nat)
    requires bs > 0 && bs % 4 == 0 && AllSound(a, bs) && AllSound(b, bs) && ExpandAll(a, bs) == ExpandAll(b, bs)
    ensures SumBlocks(a) == SumBlocks(b)
  {
    hide ExpandAll, SumBlocks, AllSound;
    ExpandSize(a, bs);
    ExpandSize(b, bs);
    if SumBlocks(a) < SumBlocks(b) {
      NextMultiple(SumBlocks(a), SumBlocks(b), bs);
    } else if SumBlocks(b) < SumBlocks(a) {
      NextMultiple(SumBlocks(b), SumBlocks(a), bs);
    }
  }

  // There is one list of tight chunks for an image.
  lemma TightIsUnique(a: seq<Chunk>, b: seq<Chunk>, bs: nat, extents: seq<Extent>)
    requires BlockSize(bs) && AllSound(a, bs) && AllSound(b, bs) && Tight(a, bs, extents) && Tight(b, bs, extents)
    requires ExpandAll(a, bs) == ExpandAll(b, bs)
    ensures a == b
  {
    hide ExpandAll, SumBlocks, Tight, AllSound;
    FourInBlock(bs);
    SumOfExpanded(a, b, bs);
    if |a| <= |b| {
      SameStart(a, b, |a|, bs, extents);
      NoLonger(b, a, bs, extents);
    } else {
      SameStart(a, b, |b|, bs, extents);
      NoLonger(a, b, bs, extents);
    }
    assert a == a[..|a|] && b == b[..|b|];
  }
}
