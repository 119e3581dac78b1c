/**
  The chunks that `android_sparse_generate` makes of an input file, as a
  function, and what a reader gets from them.
 */
module SparseEncoder {
  import opened Bytes
  import opened Files
  import opened Arith
  import opened Records
  import opened SparseExtents
  import opened SparseFormat
  import Crc32

  // ------------------------------------------------- blocks

  // Block k of a file; what is missing at the end of the file is zero.
  function BlockAt(data: seq<byte>, bs: nat, k: nat): (r: seq<byte>)
    ensures |r| == bs
  {
    seq(bs, i requires 0 <= i => At(data, k * bs + i))
  }

  function BlockCount(size: nat, bs: nat): nat
    requires bs > 0
  {
    (size + bs - 1) / bs
  }

  // A block that repeats its first four bytes.
  predicate Uniform(b: seq<byte>)
    requires |b| >= 4
  {
    forall i | 0 <= i < |b| / 4 :: b[4 * i..4 * i + 4] == b[..4]
  }

  predicate BlockSize(bs: nat) {
    0 < bs <= UINT32_MAX && bs % 512 == 0
  }

  // `max_raw_blocks`: the size of a raw chunk has to fit into 32 bits.
  function MaxRawBlocks(bs: nat): nat
    requires bs > 0
  {
    (UINT32_MAX - CHUNK_HEADER_SIZE) / bs
  }

  // ------------------------------------------------- the chunks

  // One more block; the last chunk can take it if it is still open.
  function AddBlock(chunks: seq<Chunk>, open: bool, b: seq<byte>, maxRaw: nat): (r: seq<Chunk>)
    requires |b| >= 4
    ensures r != []
  {
    var n := |chunks| - 1;
    if Uniform(b) then
      if open && chunks != [] && chunks[n].FillChunk? && chunks[n].value == b[..4]
      then chunks[..n] + [FillChunk(b[..4], chunks[n].blocks + 1)]
      else chunks + [FillChunk(b[..4], 1)]
    else
      if open && chunks != [] && chunks[n].RawChunk? && chunks[n].blocks < maxRaw
      then chunks[..n] + [RawChunk(chunks[n].data + b, chunks[n].blocks + 1)]
      else chunks + [RawChunk(b, 1)]
  }

  // The blocks from k up to n.
  function AddBlocks(chunks: seq<Chunk>, open: bool, data: seq<byte>, bs: nat, k: nat, n: nat): seq<Chunk>
    requires bs >= 4 && k <= n
    decreases n - k
  {
    if k == n then chunks
    else AddBlocks(AddBlock(chunks, open, BlockAt(data, bs, k), MaxRawBlocks(bs)), true, data, bs, k + 1, n)
  }

  // A gap before block n.
  function AddGap(chunks: seq<Chunk>, block: nat, n: nat): seq<Chunk> {
    if block < n then chunks + [DontCare(n - block)] else chunks
  }

  datatype Progress = Progress(chunks: seq<Chunk>, block: nat)

  function AddExtent(g: Progress, data: seq<byte>, bs: nat, e: Extent): Progress
    requires bs >= 4 && FirstBlock(e, bs) <= EndBlock(e, bs)
  {
    var first, end := FirstBlock(e, bs), EndBlock(e, bs);
    Progress(AddBlocks(AddGap(g.chunks, g.block, first), false, data, bs, first, end), end)
  }

  // The first n extents.
  function AddExtents(data: seq<byte>, bs: nat, extents: seq<Extent>, n: nat): Progress
    requires bs >= 4 && n <= |extents| && forall e | 0 <= e < |extents| :: FirstBlock(extents[e], bs) <= EndBlock(extents[e], bs)
    decreases n
  {
    if n == 0 then Progress([], 0) else AddExtent(AddExtents(data, bs, extents, n - 1), data, bs, extents[n - 1])
  }

  // ------------------------------------------------- what they stand for

  // Chunks as the encoder makes them: none is empty, and raw ones are limited.
  ghost predicate Made(chunks: seq<Chunk>, bs: nat)
    requires bs > 0
  {
    && AllSound(chunks, bs)
    && forall i | 0 <= i < |chunks| :: !chunks[i].CrcChunk? && chunks[i].blocks > 0 && (chunks[i].RawChunk? ==> chunks[i].blocks <= MaxRawBlocks(bs))
  }

  lemma {:induction false} ExpandAppend(chunks: seq<Chunk>, c: Chunk, bs: nat)
    requires AllSound(chunks, bs) && Sound(c, bs)
    ensures AllSound(chunks + [c], bs)
    ensures ExpandAll(chunks + [c], bs) == ExpandAll(chunks, bs) + Expand(c, bs)
    ensures SumBlocks(chunks + [c]) == SumBlocks(chunks) + BlocksOf(c)
    decreases |chunks|
  {
    hide Expand, Sound;
    var all := chunks + [c];
    if chunks == [] {
      assert all[1..] == [] && ExpandAll(all, bs) == Expand(c, bs) + ExpandAll([], bs);
    } else {
      assert all[1..] == chunks[1..] + [c];
      ExpandAppend(chunks[1..], c, bs);
      assert Expand(chunks[0], bs) + (ExpandAll(chunks[1..], bs) + Expand(c, bs)) == ExpandAll(chunks, bs) + Expand(c, bs);
    }
  }

  lemma MadeAppend(chunks: seq<Chunk>, c: Chunk, bs: nat)
    requires bs > 0 && Made(chunks, bs) && Sound(c, bs)
    requires !c.CrcChunk? && c.blocks > 0 && (c.RawChunk? ==> c.blocks <= MaxRawBlocks(bs))
    ensures Made(chunks + [c], bs)
  {
  }

  // A uniform block is a fill of one block.
  lemma UniformRepeats(b: seq<byte>)
    requires |b| % 4 == 0 && |b| >= 4 && Uniform(b)
    ensures b == Repeat(b[..4], |b| / 4)
  {
    forall i | 0 <= i < |b|
      ensures b[i] == b[..4][i % 4]
    {
      var q := i / 4;
      assert b[i] == b[4 * q..4 * q + 4][i % 4];
    }
  }

  lemma RepeatMore(value: seq<byte>, m: nat, n: nat)
    requires |value| == 4
    ensures Repeat(value, m + n) == Repeat(value, m) + Repeat(value, n)
  {
    forall i | 4 * m <= i < 4 * (m + n)
      ensures (i - 4 * m) % 4 == i % 4
    {
    }
  }

  lemma FillMore(value: seq<byte>, n: nat, bs: nat)
    requires |value| == 4 && bs % 4 == 0
    ensures Repeat(value, (n + 1) * bs / 4) == Repeat(value, n * bs / 4) + Repeat(value, bs / 4)
  {
    SumTimes(n, 1, bs);
    FourDivides(n, bs);
    FourDivides(n + 1, bs);
    RepeatMore(value, n * bs / 4, bs / 4);
  }

  lemma RawFits(n: nat, bs: nat)
    requires bs > 0 && n <= MaxRawBlocks(bs)
    ensures n * bs + CHUNK_HEADER_SIZE <= UINT32_MAX
  {
    DivMod(UINT32_MAX - CHUNK_HEADER_SIZE, bs);
    if n < MaxRawBlocks(bs) {
      NextMultiple(n, MaxRawBlocks(bs), bs);
    }
  }

  lemma MaxRawIsPositive(bs: nat)
    requires BlockSize(bs)
    ensures MaxRawBlocks(bs) >= 1
  {
  }

  lemma FourInBlock(bs: nat)
    requires BlockSize(bs)
    ensures bs % 4 == 0 && 4 <= bs <= UINT32_MAX
  {
    DivMod(bs, 512);
    var q := bs / 512;
    hide *;
    assert bs == 128 * q * 4;
    MultipleMod(128 * q, 4);
  }

  // A sound chunk with one more block.
  lemma GrowFill(c: Chunk, b: seq<byte>, bs: nat)
    requires BlockSize(bs) && c.FillChunk? && Sound(c, bs) && c.blocks < UINT32_MAX
    requires |b| == bs && Uniform(b) && b[..4] == c.value
    ensures var r := FillChunk(c.value, c.blocks + 1);
            Sound(r, bs) && Expand(r, bs) == Expand(c, bs) + b
  {
    hide Uniform, Repeat;
    FourInBlock(bs);
    UniformRepeats(b);
    FillMore(c.value, c.blocks, bs);
  }

  lemma GrowRaw(c: Chunk, b: seq<byte>, bs: nat)
    requires BlockSize(bs) && c.RawChunk? && Sound(c, bs) && c.blocks < MaxRawBlocks(bs) && c.blocks < UINT32_MAX
    requires |b| == bs
    ensures var r := RawChunk(c.data + b, c.blocks + 1);
            Sound(r, bs) && Expand(r, bs) == Expand(c, bs) + b
  {
    RawFits(c.blocks + 1, bs);
    SumTimes(c.blocks, 1, bs);
  }

  lemma FirstFill(b: seq<byte>, bs: nat)
    requires BlockSize(bs) && |b| == bs && Uniform(b)
    ensures var r := FillChunk(b[..4], 1); Sound(r, bs) && Expand(r, bs) == b
  {
    hide Uniform, Repeat;
    FourInBlock(bs);
    UniformRepeats(b);
  }

  lemma FirstRaw(b: seq<byte>, bs: nat)
    requires BlockSize(bs) && |b| == bs
    ensures var r := RawChunk(b, 1); Sound(r, bs) && Expand(r, bs) == b
  {
    MaxRawIsPositive(bs);
    RawFits(1, bs);
  }

  // The chunks before the last one, and the last one.
  lemma SplitLast(chunks: seq<Chunk>, bs: nat)
    requires bs > 0 && chunks != [] && Made(chunks, bs)
    ensures var n := |chunks| - 1;
            && Made(chunks[..n], bs) && Sound(chunks[n], bs) && !chunks[n].CrcChunk? && chunks[n].blocks > 0
            && ExpandAll(chunks, bs) == ExpandAll(chunks[..n], bs) + Expand(chunks[n], bs)
            && SumBlocks(chunks) == SumBlocks(chunks[..n]) + chunks[n].blocks
  {
    hide Expand, Sound, ExpandAll;
    var n := |chunks| - 1;
    assert chunks == chunks[..n] + [chunks[n]];
    ExpandAppend(chunks[..n], chunks[n], bs);
  }

  lemma MadeIsSound(chunks: seq<Chunk>, bs: nat)
    requires bs > 0 && Made(chunks, bs)
    ensures AllSound(chunks, bs)
  {
  }

  // One more block is what the chunks stand for in addition.
  lemma AddBlockIs(chunks: seq<Chunk>, open: bool, b: seq<byte>, bs: nat)
    requires BlockSize(bs) && |b| == bs && Made(chunks, bs) && SumBlocks(chunks) < UINT32_MAX
    ensures var r := AddBlock(chunks, open, b, MaxRawBlocks(bs));
            && Made(r, bs)
            && ExpandAll(r, bs) == ExpandAll(chunks, bs) + b
            && SumBlocks(r) == SumBlocks(chunks) + 1 && |r| <= |chunks| + 1
  {
    hide Expand, Sound, Made, ExpandAll, SumBlocks, Uniform;
    var n := |chunks| - 1;
    var maxRaw := MaxRawBlocks(bs);
    var r := AddBlock(chunks, open, b, maxRaw);
    MaxRawIsPositive(bs);
    MadeIsSound(chunks, bs);
    if chunks != [] && r[..|r| - 1] == chunks[..n] && |r| == |chunks| {
      SplitLast(chunks, bs);
      var c := r[|r| - 1];
      if c.FillChunk? {
        GrowFill(chunks[n], b, bs);
      } else {
        GrowRaw(chunks[n], b, bs);
      }
      MadeIsSound(chunks[..n], bs);
      assert r == chunks[..n] + [c];
      ExpandAppend(chunks[..n], c, bs);
      MadeAppend(chunks[..n], c, bs);
      assert ExpandAll(chunks[..n], bs) + (Expand(chunks[n], bs) + b) == ExpandAll(chunks, bs) + b;
    } else {
      var c := r[|r| - 1];
      if c.FillChunk? {
        FirstFill(b, bs);
      } else {
        FirstRaw(b, bs);
      }
      ExpandAppend(chunks, c, bs);
      MadeAppend(chunks, c, bs);
    }
  }

  // The bytes of the blocks from k up to n.
  function BlocksAt(data: seq<byte>, bs: nat, k: nat, n: nat): seq<byte>
    requires k <= n
    decreases n - k
  {
    if k == n then [] else BlockAt(data, bs, k) + BlocksAt(data, bs, k + 1, n)
  }

  lemma {:induction false} AddBlocksIs(chunks: seq<Chunk>, open: bool, data: seq<byte>, bs: nat, k: nat, n: nat)
    requires BlockSize(bs) && k <= n && Made(chunks, bs) && SumBlocks(chunks) + (n - k) <= UINT32_MAX
    ensures var r := AddBlocks(chunks, open, data, bs, k, n);
            && Made(r, bs)
            && ExpandAll(r, bs) == ExpandAll(chunks, bs) + BlocksAt(data, bs, k, n)
            && SumBlocks(r) == SumBlocks(chunks) + (n - k) && |r| <= |chunks| + (n - k)
    decreases n - k
  {
    hide Made, ExpandAll, SumBlocks, AddBlock, BlockAt;
    MadeIsSound(chunks, bs);
    if k < n {
      var b := BlockAt(data, bs, k);
      AddBlockIs(chunks, open, b, bs);
      var more := AddBlock(chunks, open, b, MaxRawBlocks(bs));
      AddBlocksIs(more, true, data, bs, k + 1, n);
      MadeIsSound(more, bs);
      assert ExpandAll(chunks, bs) + b + BlocksAt(data, bs, k + 1, n) == ExpandAll(chunks, bs) + (b + BlocksAt(data, bs, k + 1, n));
    } else {
      assert ExpandAll(chunks, bs) + [] == ExpandAll(chunks, bs);
    }
  }

  lemma AddGapIs(chunks: seq<Chunk>, bs: nat, block: nat, n: nat)
    requires BlockSize(bs) && block <= n && Made(chunks, bs) && n - block <= UINT32_MAX
    ensures var r := AddGap(chunks, block, n);
            && Made(r, bs)
            && ExpandAll(r, bs) == ExpandAll(chunks, bs) + Fill((n - block) * bs, 0)
            && SumBlocks(r) == SumBlocks(chunks) + (n - block) && |r| <= |chunks| + (n - block)
  {
    hide Made, ExpandAll, SumBlocks;
    MadeIsSound(chunks, bs);
    if block < n {
      ExpandAppend(chunks, DontCare(n - block), bs);
      MadeAppend(chunks, DontCare(n - block), bs);
    } else {
      assert ExpandAll(chunks, bs) + Fill(0, 0) == ExpandAll(chunks, bs);
    }
  }

  // ------------------------------------------------- the image

  // The first n blocks of the image: the touched ones, and zeros for the others.
  ghost function Image(data: seq<byte>, bs: nat, extents: seq<Extent>, n: nat): (r: seq<byte>)
    requires bs > 0
    decreases n
  {
    if n == 0 then [] else Image(data, bs, extents, n - 1) + if Touched(extents, bs, n - 1) then BlockAt(data, bs, n - 1) else Fill(bs, 0)
  }

  lemma {:induction false} ImageTouched(data: seq<byte>, bs: nat, extents: seq<Extent>, k: nat, n: nat)
    requires bs > 0 && k <= n && forall b: nat | k <= b < n :: Touched(extents, bs, b)
    ensures Image(data, bs, extents, n) == Image(data, bs, extents, k) + BlocksAt(data, bs, k, n)
    decreases n - k
  {
    hide Touched, BlockAt;
    if k < n {
      ImageTouched(data, bs, extents, k + 1, n);
      assert Image(data, bs, extents, k) + BlockAt(data, bs, k) + BlocksAt(data, bs, k + 1, n)
          == Image(data, bs, extents, k) + (BlockAt(data, bs, k) + BlocksAt(data, bs, k + 1, n));
    } else {
      assert Image(data, bs, extents, n) + [] == Image(data, bs, extents, n);
    }
  }

  lemma {:induction false} ImageGap(data: seq<byte>, bs: nat, extents: seq<Extent>, k: nat, n: nat)
    requires bs > 0 && k <= n && forall b: nat | k <= b < n :: !Touched(extents, bs, b)
    ensures Image(data, bs, extents, n) == Image(data, bs, extents, k) + Fill((n - k) * bs, 0)
    decreases n - k
  {
    hide Touched, BlockAt;
    if k < n {
      ImageGap(data, bs, extents, k, n - 1);
      SumTimes(n - 1 - k, 1, bs);
      assert Fill((n - 1 - k) * bs, 0) + Fill(bs, 0) == Fill((n - k) * bs, 0);
      assert Image(data, bs, extents, k) + Fill((n - 1 - k) * bs, 0) + Fill(bs, 0)
          == Image(data, bs, extents, k) + (Fill((n - 1 - k) * bs, 0) + Fill(bs, 0));
    } else {
      assert Image(data, bs, extents, n) + Fill(0, 0) == Image(data, bs, extents, n);
    }
  }

  // ------------------------------------------------- all extents

  lemma HasItsBlocks(e: Extent, bs: nat)
    requires bs > 0 && e.start < e.end
    ensures FirstBlock(e, bs) < EndBlock(e, bs)
  {
    FirstBlockBounds(e, bs);
    EndBlockBounds(e, bs);
    if EndBlock(e, bs) < FirstBlock(e, bs) {
      NextMultiple(EndBlock(e, bs), FirstBlock(e, bs), bs);
    }
  }

  lemma EndsBefore(extents: seq<Extent>, bs: nat, size: nat, n: nat, e: nat)
    requires bs > 0 && Separated(extents, bs, size) && n < |extents| && e < |extents|
    ensures e < n ==> EndBlock(extents[e], bs) <= EndBlock(extents[n - 1], bs)
    ensures n < e ==> FirstBlock(extents[n], bs) < FirstBlock(extents[e], bs)
  {
    HasItsBlocks(extents[n], bs);
    if e < n - 1 {
      HasItsBlocks(extents[n - 1], bs);
    }
    hide FirstBlock, EndBlock;
  }

  // The blocks that separated extents take: those of extent n are behind those
  // of the extents before, and there are none between.
  lemma SeparatedBlocks(extents: seq<Extent>, bs: nat, size: nat, n: nat)
    requires bs > 0 && Separated(extents, bs, size) && n < |extents|
    ensures var first, end := FirstBlock(extents[n], bs), EndBlock(extents[n], bs);
            && first < end <= BlockCount(size, bs)
            && (n > 0 ==> EndBlock(extents[n - 1], bs) < first)
            && (forall b: nat | first <= b < end :: Touched(extents, bs, b))
            && (forall b: nat | (if n > 0 then EndBlock(extents[n - 1], bs) else 0) <= b < first :: !Touched(extents, bs, b))
  {
    HasItsBlocks(extents[n], bs);
    EndBlockOrder(extents[n], Extent(size, size), bs);
    hide FirstBlock, EndBlock;
    var first, end := FirstBlock(extents[n], bs), EndBlock(extents[n], bs);
    forall b: nat | first <= b < end
      ensures Touched(extents, bs, b)
    {
      assert HasBlock(extents[n], bs, b);
    }
    forall b: nat | (if n > 0 then EndBlock(extents[n - 1], bs) else 0) <= b < first
      ensures !Touched(extents, bs, b)
    {
      forall e | 0 <= e < |extents|
        ensures !HasBlock(extents[e], bs, b)
      {
        EndsBefore(extents, bs, size, n, e);
      }
    }
  }

  ghost predicate Ranges(extents: seq<Extent>, bs: nat)
    requires bs > 0
  {
    forall e | 0 <= e < |extents| :: FirstBlock(extents[e], bs) <= EndBlock(extents[e], bs)
  }

  lemma SeparatedAreRanges(extents: seq<Extent>, bs: nat, size: nat)
    requires bs > 0 && Separated(extents, bs, size)
    ensures Ranges(extents, bs)
  {
    forall e | 0 <= e < |extents|
      ensures FirstBlock(extents[e], bs) <= EndBlock(extents[e], bs)
    {
      HasItsBlocks(extents[e], bs);
    }
  }

  // After n extents the chunks stand for the image up to the end of the last one.
  ghost predicate Stands(g: Progress, data: seq<byte>, bs: nat, extents: seq<Extent>)
    requires bs > 0
  {
    && Made(g.chunks, bs)
    && ExpandAll(g.chunks, bs) == Image(data, bs, extents, g.block)
    && SumBlocks(g.chunks) == g.block && |g.chunks| <= g.block
  }

  lemma NothingStands(data: seq<byte>, bs: nat, extents: seq<Extent>)
    requires bs > 0
    ensures Stands(Progress([], 0), data, bs, extents)
  {
  }

  lemma GapStands(g: Progress, data: seq<byte>, bs: nat, extents: seq<Extent>, n: nat)
    requires BlockSize(bs) && Stands(g, data, bs, extents) && g.block <= n <= UINT32_MAX
    requires forall b: nat | g.block <= b < n :: !Touched(extents, bs, b)
    ensures Stands(Progress(AddGap(g.chunks, g.block, n), n), data, bs, extents)
  {
    hide Made, ExpandAll, SumBlocks, Image, AddGap;
    AddGapIs(g.chunks, bs, g.block, n);
    ImageGap(data, bs, extents, g.block, n);
  }

  lemma BlocksStand(g: Progress, data: seq<byte>, bs: nat, extents: seq<Extent>, open: bool, n: nat)
    requires BlockSize(bs) && Stands(g, data, bs, extents) && g.block <= n <= UINT32_MAX
    requires forall b: nat | g.block <= b < n :: Touched(extents, bs, b)
    ensures Stands(Progress(AddBlocks(g.chunks, open, data, bs, g.block, n), n), data, bs, extents)
  {
    hide Made, ExpandAll, SumBlocks, Image, AddBlocks, BlocksAt;
    AddBlocksIs(g.chunks, open, data, bs, g.block, n);
    ImageTouched(data, bs, extents, g.block, n);
  }

  lemma {:induction false} ExtentsStand(data: seq<byte>, bs: nat, extents: seq<Extent>, n: nat)
    requires BlockSize(bs) && Separated(extents, bs, |data|) && BlockCount(|data|, bs) <= UINT32_MAX && n <= |extents|
    ensures Ranges(extents, bs)
    ensures var g := AddExtents(data, bs, extents, n);
            && Stands(g, data, bs, extents)
            && g.block == (if n == 0 then 0 else EndBlock(extents[n - 1], bs)) <= BlockCount(|data|, bs)
    decreases n
  {
    hide Separated, Stands, FirstBlock, EndBlock, AddGap, AddBlocks, Touched, BlockCount;
    SeparatedAreRanges(extents, bs, |data|);
    if n == 0 {
      NothingStands(data, bs, extents);
    } else {
      ExtentsStand(data, bs, extents, n - 1);
      SeparatedBlocks(extents, bs, |data|, n - 1);
      var g := AddExtents(data, bs, extents, n - 1);
      var first, end := FirstBlock(extents[n - 1], bs), EndBlock(extents[n - 1], bs);
      GapStands(g, data, bs, extents, first);
      BlocksStand(Progress(AddGap(g.chunks, g.block, first), first), data, bs, extents, false, end);
    }
  }

  // ------------------------------------------------- the whole file

  // All chunks of a file for extents in whole blocks.
  function Chunks(data: seq<byte>, bs: nat, extents: seq<Extent>): seq<Chunk>
    requires bs >= 4 && forall e | 0 <= e < |extents| :: FirstBlock(extents[e], bs) <= EndBlock(extents[e], bs)
  {
    var g := AddExtents(data, bs, extents, |extents|);
    AddGap(g.chunks, g.block, BlockCount(|data|, bs))
  }

  // With the checksum of the image behind them, if it is asked for.
  function WithCrc(chunks: seq<Chunk>, bs: nat, addCrc: bool): seq<Chunk>
    requires AllSound(chunks, bs)
  {
    if addCrc then chunks + [CrcChunk(Crc32.Crc(ExpandAll(chunks, bs)))] else chunks
  }

  lemma NothingBehind(extents: seq<Extent>, bs: nat, size: nat)
    requires bs > 0 && Separated(extents, bs, size)
    ensures forall b: nat | b >= (if extents == [] then 0 else EndBlock(extents[|extents| - 1], bs)) :: !Touched(extents, bs, b)
  {
    hide FirstBlock, EndBlock;
    if extents != [] {
      HasItsBlocks(extents[|extents| - 1], bs);
      assert forall e | 0 <= e < |extents| :: EndBlock(extents[e], bs) <= EndBlock(extents[|extents| - 1], bs);
    }
  }

  lemma ChunksStand(data: seq<byte>, bs: nat, extents: seq<Extent>)
    requires BlockSize(bs) && Separated(extents, bs, |data|) && BlockCount(|data|, bs) <= UINT32_MAX
    ensures Ranges(extents, bs)
    ensures var total := BlockCount(|data|, bs);
            Stands(Progress(Chunks(data, bs, extents), total), data, bs, extents)
  {
    hide Separated, Stands, FirstBlock, EndBlock, AddGap, AddExtents, Touched, BlockCount;
    var total := BlockCount(|data|, bs);
    ExtentsStand(data, bs, extents, |extents|);
    var g := AddExtents(data, bs, extents, |extents|);
    NothingBehind(extents, bs, |data|);
    GapStands(g, data, bs, extents, total);
  }

  // ------------------------------------------------- what a reader gets

  lemma {:induction false} NoChecksums(chunks: seq<Chunk>, bs: nat, image: seq<byte>)
    requires bs > 0 && Made(chunks, bs)
    ensures ChecksumsRight(chunks, bs, image)
    decreases |chunks|
  {
    hide Sound;
    if chunks == [] {
    } else {
      NoChecksums(chunks[1..], bs, image + Expand(chunks[0], bs));
    }
  }

  lemma MadeRest(chunks: seq<Chunk>, bs: nat)
    requires bs > 0 && chunks != [] && Made(chunks, bs)
    ensures Made(chunks[1..], bs) && !chunks[0].CrcChunk?
  {
    hide Sound;
  }

  lemma ImageGrows(image: seq<byte>, a: seq<byte>, b: seq<byte>)
    ensures image + (a + b) == image + a + b
  {
  }

  lemma CrcIsSound(crc: bv32, bs: nat)
    ensures Sound(CrcChunk(crc), bs) && Payload(CrcChunk(crc)) == Le(crc as nat, 4)
  {
  }

  lemma {:induction false} LastChecksum(chunks: seq<Chunk>, bs: nat, image: seq<byte>)
    requires bs > 0 && Made(chunks, bs) && AllSound(chunks, bs)
    ensures var all := chunks + [CrcChunk(Crc32.Crc(image + ExpandAll(chunks, bs)))];
            AllSound(all, bs) && ChecksumsRight(all, bs, image)
    decreases |chunks|
  {
    hide Crc32.Crc;
    var crc := Crc32.Crc(image + ExpandAll(chunks, bs));
    var all := chunks + [CrcChunk(crc)];
    CrcIsSound(crc, bs);
    hide Sound, Expand;
    assert forall i | 0 <= i < |all| :: all[i] == if i < |chunks| then chunks[i] else CrcChunk(crc);
    if chunks == [] {
      assert image + [] == image;
      assert all[1..] == [];
    } else {
      assert all[1..] == chunks[1..] + [CrcChunk(crc)];
      MadeRest(chunks, bs);
      ImageGrows(image, Expand(chunks[0], bs), ExpandAll(chunks[1..], bs));
      LastChecksum(chunks[1..], bs, image + Expand(chunks[0], bs));
    }
  }

  // The bytes of the file: the header tells the number of blocks, and of chunks.
  function SparseFile(data: seq<byte>, bs: nat, chunks: seq<Chunk>): seq<byte>
    requires bs > 0
  {
    FileHeader(bs, BlockCount(|data|, bs), |chunks|) + ChunksBytes(chunks)
  }

  // The number of blocks, and so of chunks, fits into the fields of the header.
  predicate Countable(size: nat, bs: nat, addCrc: bool)
    requires bs > 0
  {
    BlockCount(size, bs) + (if addCrc then 1 else 0) <= UINT32_MAX
  }

  // The blocks add up, no more chunks are counted than fit, every chunk says its
  // own size, and that fits.
  lemma Accounting(data: seq<byte>, bs: nat, extents: seq<Extent>, addCrc: bool)
    requires BlockSize(bs) && Separated(extents, bs, |data|) && Countable(|data|, bs, addCrc)
    ensures Ranges(extents, bs) && AllSound(Chunks(data, bs, extents), bs)
    ensures var chunks := WithCrc(Chunks(data, bs, extents), bs, addCrc);
            && AllSound(chunks, bs)
            && SumBlocks(chunks) == BlockCount(|data|, bs)
            && |chunks| <= UINT32_MAX
            && (forall i | 0 <= i < |chunks| ::
                  SizeOf(chunks[i]) == |ChunkBytes(chunks[i])| <= UINT32_MAX
                  && (chunks[i].RawChunk? ==> chunks[i].blocks <= MaxRawBlocks(bs)))
  {
    hide FirstBlock, EndBlock, Separated, BlockCount, AddGap, AddExtents, ExpandAll, Crc32.Crc, Image;
    ChunksStand(data, bs, extents);
    var chunks := Chunks(data, bs, extents);
    if addCrc {
      var crc := Crc32.Crc(ExpandAll(chunks, bs));
      CrcIsSound(crc, bs);
      hide Sound;
      ExpandAppend(chunks, CrcChunk(crc), bs);
    }
  }

  lemma CrcIsNothing(crc: bv32, bs: nat)
    requires Sound(CrcChunk(crc), bs)
    ensures Expand(CrcChunk(crc), bs) == []
  {
  }

  // Reading the file gives the blocks that the extents touch, and zeros for the
  // others; the checksum, if there is one, is that of all of it.
  lemma SparseRoundTrip(data: seq<byte>, bs: nat, extents: seq<Extent>, addCrc: bool)
    requires BlockSize(bs) && Separated(extents, bs, |data|) && Countable(|data|, bs, addCrc)
    ensures Ranges(extents, bs) && AllSound(Chunks(data, bs, extents), bs)
    ensures var chunks := WithCrc(Chunks(data, bs, extents), bs, addCrc);
            Decode(SparseFile(data, bs, chunks)) == Some(Image(data, bs, extents, BlockCount(|data|, bs)))
  {
    hide FirstBlock, EndBlock, Separated, BlockCount, Chunks, Made, Sound, ExpandAll, Expand, Decode;
    hide FileHeader, ChunksBytes, Image, SumBlocks, ChecksumsRight, Crc32.Crc;
    Accounting(data, bs, extents, addCrc);
    ChunksStand(data, bs, extents);
    var chunks := Chunks(data, bs, extents);
    var all := WithCrc(chunks, bs, addCrc);
    if addCrc {
      assert [] + ExpandAll(chunks, bs) == ExpandAll(chunks, bs);
      LastChecksum(chunks, bs, []);
      var crc := Crc32.Crc(ExpandAll(chunks, bs));
      CrcIsSound(crc, bs);
      ExpandAppend(chunks, CrcChunk(crc), bs);
      CrcIsNothing(crc, bs);
      assert ExpandAll(chunks, bs) + [] == ExpandAll(chunks, bs);
    } else {
      NoChecksums(chunks, bs, []);
    }
    FourInBlock(bs);
    FormatRoundTrip(all, bs);
  }

  // ------------------------------------------------- the image and the file

  // Touching the same blocks gives the same image.
  lemma {:induction false} SameImage(data: seq<byte>, bs: nat, a: seq<Extent>, b: seq<Extent>, n: nat)
    requires bs > 0 && forall k: nat :: Touched(a, bs, k) <==> Touched(b, bs, k)
    ensures Image(data, bs, a, n) == Image(data, bs, b, n)
    decreases n
  {
    hide Touched, BlockAt;
    if n == 0 {
    } else {
      SameImage(data, bs, a, b, n - 1);
    }
  }

  lemma NotCovered(extents: seq<Extent>, bs: nat, k: nat, p: nat, size: nat)
    requires bs > 0 && InFile(extents, size) && !Touched(extents, bs, k) && k * bs <= p < k * bs + bs
    ensures !Covered(extents, p)
  {
    forall e | 0 <= e < |extents|
      ensures !(extents[e].start <= p < extents[e].end)
    {
      assert !HasBlock(extents[e], bs, k);
      if extents[e].start < extents[e].end {
        HasBlockIff(extents[e], bs, k);
      }
    }
  }

  // A block that no extent touches has only zeros.
  lemma UntouchedIsZero(data: seq<byte>, bs: nat, extents: seq<Extent>, k: nat)
    requires bs > 0 && InFile(extents, |data|) && !Touched(extents, bs, k)
    requires forall p | 0 <= p < |data| :: !Covered(extents, p) ==> data[p] == 0
    ensures BlockAt(data, bs, k) == Fill(bs, 0)
  {
    var b := BlockAt(data, bs, k);
    forall i | 0 <= i < |b|
      ensures b[i] == 0
    {
      NotCovered(extents, bs, k, k * bs + i, |data|);
      assert b[i] == At(data, k * bs + i);
    }
    SameBytes(b, Fill(bs, 0));
  }

  // The input, padded with zeros to whole blocks.
  function Padded(data: seq<byte>, bs: nat): seq<byte>
    requires bs > 0
  {
    EndBlockBounds(Extent(0, |data|), bs);
    data + Fill(BlockCount(|data|, bs) * bs - |data|, 0)
  }

  lemma {:induction false} ImageIsPrefix(data: seq<byte>, bs: nat, extents: seq<Extent>, n: nat)
    requires bs > 0 && InFile(extents, |data|)
    requires forall p | 0 <= p < |data| :: !Covered(extents, p) ==> data[p] == 0
    ensures |Image(data, bs, extents, n)| == n * bs
    ensures forall p | 0 <= p < n * bs :: Image(data, bs, extents, n)[p] == At(data, p)
    decreases n
  {
    hide Touched, Covered;
    if n == 0 {
    } else {
      ImageIsPrefix(data, bs, extents, n - 1);
      SumTimes(n - 1, 1, bs);
      if !Touched(extents, bs, n - 1) {
        UntouchedIsZero(data, bs, extents, n - 1);
      }
    }
  }

  // If everything outside of the extents is zero, the image is the padded input.
  lemma ImageIsInput(data: seq<byte>, bs: nat, extents: seq<Extent>)
    requires bs > 0 && InFile(extents, |data|)
    requires forall p | 0 <= p < |data| :: !Covered(extents, p) ==> data[p] == 0
    ensures |data| <= BlockCount(|data|, bs) * bs < |data| + bs
    ensures Image(data, bs, extents, BlockCount(|data|, bs)) == Padded(data, bs)
  {
    EndBlockBounds(Extent(0, |data|), bs);
    ImageIsPrefix(data, bs, extents, BlockCount(|data|, bs));
    SameBytes(Image(data, bs, extents, BlockCount(|data|, bs)), Padded(data, bs));
  }

  lemma PaddedSize(data: seq<byte>, bs: nat)
    requires bs > 0
    ensures |Padded(data, bs)| == BlockCount(|data|, bs) * bs
  {
    EndBlockBounds(Extent(0, |data|), bs);
  }

  // No file with this block size holds an input of more blocks: the number in
  // the header has 32 bits.
  lemma TooManyBlocks(data: seq<byte>, bs: nat, file: seq<byte>)
    requires bs > 0 && BlockCount(|data|, bs) > UINT32_MAX
    requires |file| >= HEADER_SIZE && Num(file[12..16]) == bs
    ensures Decode(file) != Some(Padded(data, bs))
  {
    hide Num, ReadChunks, Decode, BlockCount;
    EndBlockBounds(Extent(0, |data|), bs);
    PaddedSize(data, bs);
    if Decode(file).Some? {
      DecodedSize(file);
      NextMultiple(UINT32_MAX, BlockCount(|data|, bs), bs);
    }
  }
}
