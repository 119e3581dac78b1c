/**
  `android_sparse_generate` of `image-android-sparse.c`: chunk headers are
  written as placeholders, and again when their chunks are complete.
 */
module SparseGenerate {
  import opened Bytes
  import opened Files
  import opened Arith
  import opened SparseExtents
  import opened SparseFormat
  import opened SparseEncoder
  import opened SparseExact
  import Crc32

  // ------------------------------------------------- bytes at the end of a file

  lemma OverwriteAppend(f: seq<byte>, s: seq<byte>)
    ensures Overwrite(f, |f|, s) == f + s
  {
  }

  // Replacing bytes in the middle of a file.
  lemma OverwriteMiddle(a: seq<byte>, h: seq<byte>, p: seq<byte>, g: seq<byte>)
    requires |g| == |h|
    ensures Overwrite(a + h + p, |a|, g) == a + g + p
  {
  }

  lemma {:induction false} ChunksBytesAppend(chunks: seq<Chunk>, c: Chunk)
    ensures ChunksBytes(chunks + [c]) == ChunksBytes(chunks) + ChunkBytes(c)
    decreases |chunks|
  {
    hide ChunkBytes;
    var all := chunks + [c];
    if chunks == [] {
      assert all[1..] == [] && ChunksBytes(all) == ChunkBytes(c) + ChunksBytes([]);
    } else {
      assert all[1..] == chunks[1..] + [c];
      ChunksBytesAppend(chunks[1..], c);
      assert ChunkBytes(chunks[0]) + (ChunksBytes(chunks[1..]) + ChunkBytes(c)) == ChunksBytes(chunks) + ChunkBytes(c);
    }
  }

  // The header that is written before the blocks of a chunk are known.
  function Placeholder(c: Chunk): (r: seq<byte>)
    ensures |r| == CHUNK_HEADER_SIZE
  {
    ChunkHeader(TypeOf(c), 0, CHUNK_HEADER_SIZE + if c.FillChunk? then 4 else 0)
  }

  // ------------------------------------------------- the handler

  class SparseImage {
    const blockSize: nat
    const fillHoles: bool
    const addCrc: bool
    // on a reliable system no read or write fails
    const reliable: bool
    // the output file, and the position of its descriptor
    var file: seq<byte>
    var at: nat
    // `header.input_chunks`, and the fields of `chunk_header`
    var inputChunks: nat
    var chunkType: nat
    var chunkBlocks: nat
    var chunkSize: nat
    // the local variables of the same names
    var fillValue: seq<byte>
    var pos: nat
    var crc: bv32

    constructor (blockSize: nat, fillHoles: bool, addCrc: bool, reliable: bool)
      ensures this.blockSize == blockSize && this.fillHoles == fillHoles && this.addCrc == addCrc && this.reliable == reliable
    {
      this.blockSize, this.fillHoles, this.addCrc, this.reliable := blockSize, fillHoles, addCrc, reliable;
      file, at, inputChunks := [], 0, 0;
      chunkType, chunkBlocks, chunkSize := 0, 0, 0;
      fillValue, pos, crc := [], 0, 0;
    }

    ghost predicate HoldsOpen(prefix: seq<byte>, chunks: seq<Chunk>)
      reads `file, `at, `pos, `chunkType, `chunkBlocks, `chunkSize, `fillValue
    {
      && chunks != []
      && var done, c := chunks[..|chunks| - 1], chunks[|chunks| - 1];
         && (c.RawChunk? || c.FillChunk?)
         && pos == |prefix + ChunksBytes(done)|
         && file == prefix + ChunksBytes(done) + Placeholder(c) + Payload(c)
         && chunkType == TypeOf(c) && chunkBlocks == c.blocks && chunkSize == SizeOf(c)
         && (c.FillChunk? ==> fillValue == c.value)
    }

    // The file holds some chunks; the last one may still be open.
    ghost predicate Laid(prefix: seq<byte>, chunks: seq<Chunk>, open: bool)
      reads `file, `at, `pos, `chunkType, `chunkBlocks, `chunkSize, `fillValue
    {
      && at == |file|
      && if open then HoldsOpen(prefix, chunks) else chunkType == 0 && file == prefix + ChunksBytes(chunks)
    }

    ghost predicate Holds(prefix: seq<byte>, chunks: seq<Chunk>, open: bool)
      reads `file, `at, `pos, `inputChunks, `chunkType, `chunkBlocks, `chunkSize, `fillValue
    {
      Laid(prefix, chunks, open) && inputChunks == |chunks|
    }

    // `write_data`
    method WriteData(s: seq<byte>) returns (ok: bool)
      modifies this`file, this`at
      ensures ok ==> file == Overwrite(old(file), old(at), s) && at == old(at) + |s|
      ensures reliable ==> ok
    {
      ok := *;
      if reliable {
        ok := true;
      }
      if ok {
        file := Overwrite(file, at, s);
        at := at + |s|;
      }
    }

    // `flush_header`, at the position of the descriptor
    method FlushHeader() returns (ok: bool)
      requires at == |file| && chunkType != 0
      modifies this`file, this`at
      ensures ok ==> file == old(file) + ChunkHeader(chunkType, chunkBlocks, chunkSize) && at == |file|
      ensures reliable ==> ok
    {
      hide ChunkHeader, Overwrite;
      OverwriteAppend(file, ChunkHeader(chunkType, chunkBlocks, chunkSize));
      ok := WriteData(ChunkHeader(chunkType, chunkBlocks, chunkSize));
    }

    // `flush_header`, at an earlier position, if there is a chunk
    method FlushHeaderAt(offset: nat) returns (ok: bool)
      modifies this`file, this`at
      ensures ok && chunkType == 0 ==> file == old(file) && at == old(at)
      ensures ok && chunkType != 0 ==> file == Overwrite(old(file), offset, ChunkHeader(chunkType, chunkBlocks, chunkSize)) && at == |file|
      ensures reliable ==> ok
    {
      hide ChunkHeader, Overwrite;
      if chunkType == 0 {
        return true;
      }
      at := offset;
      ok := WriteData(ChunkHeader(chunkType, chunkBlocks, chunkSize));
      at := |file|;
    }

    // The header of the last chunk gets its numbers.
    method Close(ghost prefix: seq<byte>, ghost chunks: seq<Chunk>, ghost open: bool) returns (ok: bool)
      requires Laid(prefix, chunks, open)
      modifies this`file, this`at
      ensures ok ==> file == prefix + ChunksBytes(chunks) && at == |file|
      ensures reliable ==> ok
    {
      hide ChunkHeader, Overwrite, ChunksBytes, Payload, TypeOf;
      if open {
        ghost var n := |chunks| - 1;
        ghost var c := chunks[n];
        assert chunks == chunks[..n] + [c];
        ChunksBytesAppend(chunks[..n], c);
        OverwriteMiddle(prefix + ChunksBytes(chunks[..n]), Placeholder(c), Payload(c), HeaderOf(c));
        TypeIsSome(c);
        assert prefix + ChunksBytes(chunks[..n]) + HeaderOf(c) + Payload(c) == prefix + (ChunksBytes(chunks[..n]) + ChunkBytes(c));
      }
      ok := FlushHeaderAt(pos);
    }

    // A chunk of its own behind the others.
    method AppendChunk(ghost prefix: seq<byte>, ghost chunks: seq<Chunk>, c: Chunk) returns (ok: bool)
      requires at == |file| && inputChunks == |chunks| && file == prefix + ChunksBytes(chunks)
      modifies this
      ensures ok ==> at == |file| && inputChunks == |chunks| + 1 && file == prefix + ChunksBytes(chunks + [c])
      ensures crc == old(crc)
      ensures reliable ==> ok
    {
      hide ChunkHeader, Overwrite, ChunksBytes, Payload, TypeOf, BlocksOf;
      inputChunks := inputChunks + 1;
      chunkType, chunkBlocks, chunkSize := TypeOf(c), BlocksOf(c), SizeOf(c);
      TypeIsSome(c);
      ok := FlushHeader();
      if !ok {
        return;
      }
      ghost var before := file;
      OverwriteAppend(before, Payload(c));
      if Payload(c) != [] {
        ok := WriteData(Payload(c));
      } else {
        assert before + Payload(c) == before;
      }
      ChunksBytesAppend(chunks, c);
      assert prefix + ChunksBytes(chunks) + HeaderOf(c) + Payload(c) == prefix + (ChunksBytes(chunks) + ChunkBytes(c));
    }

    // ------------------------------------------------- blocks

    // A new chunk without blocks, behind the one that was open.
    method OpenChunk(ghost prefix: seq<byte>, ghost chunks: seq<Chunk>, ghost open: bool, fill: bool, value: seq<byte>)
      returns (ok: bool)
      requires Holds(prefix, chunks, open) && (fill ==> |value| == 4)
      modifies this
      ensures ok ==> Holds(prefix, chunks + [if fill then FillChunk(value, 0) else RawChunk([], 0)], true)
      ensures crc == old(crc)
      ensures reliable ==> ok
    {
      hide ChunkHeader, Overwrite, ChunksBytes;
      ghost var c := if fill then FillChunk(value, 0) else RawChunk([], 0);
      inputChunks := inputChunks + 1;
      ok := Close(prefix, chunks, open);
      if !ok {
        return;
      }
      pos := at;
      chunkType, chunkBlocks := if fill then 0xcac2 else 0xcac1, 0;
      chunkSize := CHUNK_HEADER_SIZE + if fill then 4 else 0;
      ok := FlushHeader();
      if !ok {
        return;
      }
      ghost var before := file;
      if fill {
        fillValue := value;
        OverwriteAppend(before, value);
        ok := WriteData(value);
      } else {
        assert before + Payload(c) == before;
      }
      assert (chunks + [c])[..|chunks|] == chunks;
    }

    // The loop that compares the words of a block
    method IsFill(b: seq<byte>) returns (fill: bool)
      requires |b| >= 4
      ensures fill <==> forall k | 0 <= k < |b| / 4 :: b[4 * k..4 * k + 4] == b[..4]
      ensures fill == Uniform(b)
    {
      var i := 1;
      while i < |b| / 4
        invariant 1 <= i <= |b| / 4
        invariant forall k | 0 <= k < i :: b[4 * k..4 * k + 4] == b[..4]
      {
        if b[4 * i..4 * i + 4] != b[..4] {
          return false;
        }
        i := i + 1;
      }
      return true;
    }

    // One more block in an open chunk of fills: nothing is written.
    method GrowFillChunk(ghost prefix: seq<byte>, ghost chunks: seq<Chunk>, ghost b: seq<byte>)
      requires Holds(prefix, chunks, true) && chunks[|chunks| - 1].FillChunk?
      modifies this`chunkBlocks
      ensures Holds(prefix, Grown(chunks, b), true)
    {
      hide ChunkHeader, ChunksBytes;
      chunkBlocks := chunkBlocks + 1;
      assert Grown(chunks, b)[..|chunks| - 1] == chunks[..|chunks| - 1];
    }

    // One more block in an open raw chunk
    method GrowRawChunk(ghost prefix: seq<byte>, ghost chunks: seq<Chunk>, b: seq<byte>) returns (ok: bool)
      requires Holds(prefix, chunks, true) && chunks[|chunks| - 1].RawChunk?
      modifies this`chunkBlocks, this`chunkSize, this`file, this`at
      ensures ok ==> Holds(prefix, Grown(chunks, b), true)
      ensures reliable ==> ok
    {
      hide ChunkHeader, Overwrite, ChunksBytes;
      chunkBlocks := chunkBlocks + 1;
      chunkSize := chunkSize + |b|;
      ghost var before := file;
      OverwriteAppend(file, b);
      ok := WriteData(b);
      ghost var n := |chunks| - 1;
      assert Grown(chunks, b)[..n] == chunks[..n];
      ghost var front := prefix + ChunksBytes(chunks[..n]) + Placeholder(chunks[n]);
      assert front + chunks[n].data + b == front + (chunks[n].data + b);
    }

    // What the fields say about the chunk that is open.
    lemma WhatIsOpen(prefix: seq<byte>, chunks: seq<Chunk>, open: bool)
      requires Holds(prefix, chunks, open)
      ensures open ==> chunks != []
      ensures chunkType == 0xcac2 <==> open && chunks[|chunks| - 1].FillChunk?
      ensures chunkType == 0xcac1 <==> open && chunks[|chunks| - 1].RawChunk?
      ensures chunkType == 0xcac2 ==> fillValue == chunks[|chunks| - 1].value
      ensures chunkType == 0xcac1 ==> chunkBlocks == chunks[|chunks| - 1].blocks
    {
    }

    // Whether a block goes into the open chunk, or into a new one.
    lemma FillCase(prefix: seq<byte>, chunks: seq<Chunk>, open: bool, b: seq<byte>)
      requires blockSize > 0 && |b| >= 4 && Uniform(b) && Holds(prefix, chunks, open)
      ensures if chunkType == 0xcac2 && fillValue == b[..4]
              then
                && open && chunks != [] && chunks[|chunks| - 1].FillChunk?
                && AddBlock(chunks, open, b, MaxRawBlocks(blockSize)) == Grown(chunks, b)
              else AddBlock(chunks, open, b, MaxRawBlocks(blockSize)) == Grown(chunks + [FillChunk(b[..4], 0)], b)
    {
      hide Holds, AddBlock, Uniform, Grown, MaxRawBlocks;
      WhatIsOpen(prefix, chunks, open);
      AddFillIsGrown(chunks, open, b, MaxRawBlocks(blockSize));
    }

    lemma RawCase(prefix: seq<byte>, chunks: seq<Chunk>, open: bool, b: seq<byte>)
      requires blockSize > 0 && |b| >= 4 && !Uniform(b) && Holds(prefix, chunks, open)
      ensures if chunkType == 0xcac1 && chunkBlocks < MaxRawBlocks(blockSize)
              then
                && open && chunks != [] && chunks[|chunks| - 1].RawChunk?
                && AddBlock(chunks, open, b, MaxRawBlocks(blockSize)) == Grown(chunks, b)
              else AddBlock(chunks, open, b, MaxRawBlocks(blockSize)) == Grown(chunks + [RawChunk([], 0)], b)
    {
      hide Holds, AddBlock, Uniform, Grown, MaxRawBlocks;
      WhatIsOpen(prefix, chunks, open);
      AddRawIsGrown(chunks, open, b, MaxRawBlocks(blockSize));
    }

    // A block that is a fill
    method WriteFill(ghost prefix: seq<byte>, ghost chunks: seq<Chunk>, ghost open: bool, b: seq<byte>)
      returns (ok: bool)
      requires blockSize > 0 && |b| >= 4 && Uniform(b) && Holds(prefix, chunks, open)
      modifies this
      ensures ok ==> Holds(prefix, AddBlock(chunks, open, b, MaxRawBlocks(blockSize)), true)
      ensures crc == old(crc)
      ensures reliable ==> ok
    {
      hide Holds, AddBlock, Uniform, Grown, MaxRawBlocks;
      FillCase(prefix, chunks, open, b);
      ghost var all := chunks;
      ok := true;
      if chunkType != 0xcac2 || fillValue != b[..4] {
        ok := OpenChunk(prefix, chunks, open, true, b[..4]);
        if !ok {
          return;
        }
        all := chunks + [FillChunk(b[..4], 0)];
      }
      GrowFillChunk(prefix, all, b);
    }

    // A block that is none
    method WriteRaw(ghost prefix: seq<byte>, ghost chunks: seq<Chunk>, ghost open: bool, b: seq<byte>)
      returns (ok: bool)
      requires blockSize > 0 && |b| >= 4 && !Uniform(b) && Holds(prefix, chunks, open)
      modifies this
      ensures ok ==> Holds(prefix, AddBlock(chunks, open, b, MaxRawBlocks(blockSize)), true)
      ensures crc == old(crc)
      ensures reliable ==> ok
    {
      hide Holds, AddBlock, Uniform, Grown, MaxRawBlocks;
      RawCase(prefix, chunks, open, b);
      ghost var all := chunks;
      if chunkType != 0xcac1 || chunkBlocks >= MaxRawBlocks(blockSize) {
        ok := OpenChunk(prefix, chunks, open, false, []);
        if !ok {
          return;
        }
        all := chunks + [RawChunk([], 0)];
      }
      ok := GrowRawChunk(prefix, all, b);
    }

    // The part of the inner loop body that writes a block.
    method WriteBlock(ghost prefix: seq<byte>, ghost chunks: seq<Chunk>, ghost open: bool, b: seq<byte>)
      returns (ok: bool)
      requires blockSize > 0 && |b| >= 4 && Holds(prefix, chunks, open)
      modifies this
      ensures ok ==> Holds(prefix, AddBlock(chunks, open, b, MaxRawBlocks(blockSize)), true)
      ensures crc == old(crc)
      ensures reliable ==> ok
    {
      hide Holds, AddBlock, Uniform;
      var fill := IsFill(b);
      if fill {
        ok := WriteFill(prefix, chunks, open, b);
      } else {
        ok := WriteRaw(prefix, chunks, open, b);
      }
    }

    // ------------------------------------------------- extents

    // The file holds complete chunks.
    ghost predicate Complete(prefix: seq<byte>, chunks: seq<Chunk>)
      reads this
    {
      at == |file| && inputChunks == |chunks| && file == prefix + ChunksBytes(chunks)
    }

    // The checksum is that of the first n blocks of the image.
    ghost predicate Summed(data: seq<byte>, extents: seq<Extent>, n: nat)
      requires blockSize > 0
      reads `crc
    {
      crc == Crc32.Crc(Image(data, blockSize, extents, n))
    }

    // A gap before block n, and at the end of the file
    method WriteGap(ghost prefix: seq<byte>, ghost chunks: seq<Chunk>, block: nat, n: nat,
                    ghost data: seq<byte>, ghost extents: seq<Extent>)
      returns (ok: bool)
      requires blockSize > 0 && block <= n && Complete(prefix, chunks) && Summed(data, extents, block)
      requires forall b: nat | block <= b < n :: !Touched(extents, blockSize, b)
      modifies this
      ensures ok ==> Complete(prefix, AddGap(chunks, block, n)) && Summed(data, extents, n)
      ensures reliable ==> ok
    {
      hide ChunksBytes, Touched, Image, Crc32.CrcNext;
      if block >= n {
        return true;
      }
      ok := AppendChunk(prefix, chunks, DontCare(n - block));
      if !ok {
        return;
      }
      var zeros := Fill(blockSize, 0);
      var i := 0;
      while i < n - block
        invariant 0 <= i <= n - block
        invariant Complete(prefix, AddGap(chunks, block, n)) && Summed(data, extents, block + i)
      {
        crc := Crc32.Crc32Next(zeros, crc);
        NextSum(Image(data, blockSize, extents, block + i), zeros);
        NextImage(data, blockSize, extents, block + i);
        i := i + 1;
      }
    }

    // The rest of the inner loop body, for the block that has been read.
    method SumAndWrite(ghost prefix: seq<byte>, ghost chunks: seq<Chunk>, ghost open: bool, buf: seq<byte>,
                       ghost data: seq<byte>, ghost extents: seq<Extent>, ghost k: nat)
      returns (ok: bool)
      requires BlockSize(blockSize) && buf == BlockAt(data, blockSize, k) && Touched(extents, blockSize, k)
      requires Holds(prefix, chunks, open) && Summed(data, extents, k)
      modifies this
      ensures ok ==> Holds(prefix, AddBlock(chunks, open, buf, MaxRawBlocks(blockSize)), true) && Summed(data, extents, k + 1)
      ensures reliable ==> ok
    {
      hide ChunksBytes, Touched, Image, Crc32.CrcNext, AddBlock, BlockAt, HoldsOpen;
      crc := Crc32.Crc32Next(buf, crc);
      NextSum(Image(data, blockSize, extents, k), buf);
      NextImage(data, blockSize, extents, k);
      ok := WriteBlock(prefix, chunks, open, buf);
    }

    // The inner loop: the blocks of an extent.
    method WriteBlocks(ghost prefix: seq<byte>, ghost chunks: seq<Chunk>, data: seq<byte>, e: Extent,
                       ghost extents: seq<Extent>)
      returns (ok: bool)
      requires BlockSize(blockSize) && Whole(e, blockSize, |data|)
      requires Complete(prefix, chunks) && Summed(data, extents, FirstBlock(e, blockSize))
      requires TakenBy(e, extents, blockSize)
      modifies this
      ensures ok ==> Complete(prefix, AddWhole(chunks, data, blockSize, e)) && Summed(data, extents, EndBlock(e, blockSize))
      ensures reliable ==> ok
    {
      hide ChunksBytes, Touched, Image, Crc32.CrcNext, Summed, FirstBlock, EndBlock, Whole, Left, AddBlocks;
      hide AddBlock, BlockAt, HoldsOpen, MaxRawBlocks;
      ghost var first, end := FirstBlock(e, blockSize), EndBlock(e, blockSize);
      chunkType, chunkBlocks := 0, 0;
      pos := at;
      var size := e.end - e.start;
      var from := e.start;
      ghost var k, all := first, chunks;
      FirstLeft(e, blockSize, |data|);
      while size > 0
        invariant first <= k <= end && size == Left(e, blockSize, k) && from + size == e.end
        invariant Holds(prefix, all, k > first) && Summed(data, extents, k)
        invariant AddBlocks(chunks, false, data, blockSize, first, end) == AddBlocks(all, k > first, data, blockSize, k, end)
      {
        var now := if size < blockSize then size else blockSize;
        ok := *;
        if reliable {
          ok := true;
        }
        ReadIsBlock(data, e, blockSize, k);
        if !ok {
          return;
        }
        var buf := data[from..from + now] + Fill(blockSize - now, 0);
        ok := SumAndWrite(prefix, all, k > first, buf, data, extents, k);
        if !ok {
          return;
        }
        NextBlocks(all, k > first, data, blockSize, k, end);
        all, k := AddBlock(all, k > first, buf, MaxRawBlocks(blockSize)), k + 1;
        size, from := size - now, from + now;
      }
      NothingLeft(e, blockSize, k);
      NoBlocks(all, k > first, data, blockSize, end);
      ok := Close(prefix, all, k > first);
    }

    // The loop over the extents; removed ones are skipped.
    method WriteExtents(ghost prefix: seq<byte>, data: seq<byte>, list: array<Extent>, ghost extents: seq<Extent>)
      returns (ok: bool, block: nat)
      requires BlockSize(blockSize) && BlockCount(|data|, blockSize) <= UINT32_MAX
      requires extents == Survivors(list[..]) && Separated(extents, blockSize, |data|) && Ranges(extents, blockSize)
      requires forall k | 0 <= k < list.Length && list[k].end == 0 :: list[k] == Extent(0, 0)
      requires Complete(prefix, []) && Summed(data, extents, 0)
      modifies this
      ensures ok ==> var g := AddExtents(data, blockSize, extents, |extents|);
                Complete(prefix, g.chunks) && block == g.block && Summed(data, extents, block)
      ensures reliable ==> ok
    {
      hide ChunksBytes, Touched, Image, Complete, Summed, FirstBlock, EndBlock, Separated, AddBlocks, AddGap, Survivors;
      block := 0;
      ok := true;
      ghost var n := 0;
      NoSurvivors(list[..]);
      for i := 0 to list.Length
        invariant n <= |extents| && Survivors(list[..i]) == extents[..n]
        invariant var g := AddExtents(data, blockSize, extents, n);
                  Complete(prefix, g.chunks) && block == g.block && Summed(data, extents, block)
      {
        NextSurvivor(list[..], i);
        var e := list[i];
        if e.end - e.start == 0 {
          SurvivorsAreWhole(extents, blockSize, |data|);
          continue;
        }
        assert extents[n] == e;
        WholeExtent(data, blockSize, extents, n);
        ghost var g := AddExtents(data, blockSize, extents, n);
        var first := e.start / blockSize;
        FirstIs(e, blockSize);
        ok := WriteGap(prefix, g.chunks, block, first, data, extents);
        if !ok {
          return;
        }
        ok := WriteBlocks(prefix, AddGap(g.chunks, block, first), data, e, extents);
        if !ok {
          return;
        }
        block := (e.end - 1 + blockSize) / blockSize;
        EndIs(e, blockSize);
        n := n + 1;
      }
      assert list[..list.Length] == list[..];
    }

    // `map_file_extents`, or the whole file if holes are to be filled
    method FindExtents(src: Source) returns (r: Option<seq<Extent>>)
      ensures r == ExtentsOf(src, fillHoles)
    {
      if fillHoles {
        r := Some(WholeFile(|src.data|));
      } else {
        r := MapFileExtents(src, |src.data|);
      }
    }

    method CountBlocks(data: seq<byte>) returns (blockCount: nat)
      requires blockSize > 0
      ensures blockCount == BlockCount(|data|, blockSize)
    {
      blockCount := (|data| - 1 + blockSize) / blockSize;
    }

    // Everything behind the merging of the extents
    method WriteAll(data: seq<byte>, list: array<Extent>, ghost extents: seq<Extent>) returns (ok: bool)
      requires BlockSize(blockSize) && Countable(|data|, blockSize, addCrc)
      requires extents == Survivors(list[..]) && Separated(extents, blockSize, |data|)
      requires forall k | 0 <= k < list.Length && list[k].end == 0 :: list[k] == Extent(0, 0)
      modifies this
      ensures Ranges(extents, blockSize) && AllSound(Chunks(data, blockSize, extents), blockSize)
      ensures ok ==> file == SparseFile(data, blockSize, WithCrc(Chunks(data, blockSize, extents), blockSize, addCrc))
      ensures reliable ==> ok
    {
      hide ChunksBytes, Touched, Image, Crc32.CrcNext, FirstBlock, EndBlock, Separated, AddExtents, AddGap;
      hide Survivors, FileHeader, Overwrite, BlockCount, ExpandAll, SumBlocks, AllSound;
      ghost var total := BlockCount(|data|, blockSize);
      var blockCount := CountBlocks(data);
      ExtentsStand(data, blockSize, extents, |extents|);
      ChunksStand(data, blockSize, extents);
      ghost var prefix := FileHeader(blockSize, blockCount, 0);
      file, at, inputChunks, crc := [], 0, 0, 0;
      OverwriteAppend([], prefix);
      ok := WriteData(FileHeader(blockSize, blockCount, 0));
      if !ok {
        return;
      }
      NothingYet(data, blockSize, extents, prefix);
      var block;
      ok, block := WriteExtents(prefix, data, list, extents);
      if !ok {
        return;
      }
      ghost var chunks := Chunks(data, blockSize, extents);
      NothingBehind(extents, blockSize, |data|);
      BehindLast(data, blockSize, extents);
      ok := WriteGap(prefix, AddExtents(data, blockSize, extents, |extents|).chunks, block, blockCount, data, extents);
      if !ok {
        return;
      }
      assert crc == Crc32.Crc(ExpandAll(chunks, blockSize));
      if addCrc {
        ok := AppendChunk(prefix, chunks, CrcChunk(crc));
        if !ok {
          return;
        }
      }
      ghost var all := WithCrc(chunks, blockSize, addCrc);
      OverwriteFront(prefix, ChunksBytes(all), FileHeader(blockSize, blockCount, inputChunks));
      at := 0;
      ok := WriteData(FileHeader(blockSize, blockCount, inputChunks));
    }

    // `android_sparse_generate` on an input whose blocks and chunks can be counted
    // in 32 bits: a reader of the output gets the input, padded to whole blocks.
    // An input of more blocks fits into no file (`TooManyBlocks`).
    method AndroidSparseGenerate(src: Source) returns (ok: bool)
      requires BlockSize(blockSize) && Countable(|src.data|, blockSize, addCrc)
      requires src.Valid() && Allocated(src)
      modifies this
      ensures ok ==> ExtentsOf(src, fillHoles).Some?
      ensures ok ==> var extents := Merged(ExtentsOf(src, fillHoles).value, blockSize, |src.data|);
                && Ranges(extents, blockSize) && AllSound(Chunks(src.data, blockSize, extents), blockSize)
                && file == SparseFile(src.data, blockSize, WithCrc(Chunks(src.data, blockSize, extents), blockSize, addCrc))
      ensures ok ==> Decode(file) == Some(Padded(src.data, blockSize))
      ensures ok ==> IsSparse(file, src.data, blockSize, ExtentsOf(src, fillHoles).value, addCrc)
      ensures reliable ==> (ok <==> fillHoles || src.fiemap != Failed)
    {
      hide ChunksBytes, Touched, Image, Crc32.CrcNext, FirstBlock, EndBlock, Separated, AddExtents, AddGap;
      hide Merged, Survivors, FileHeader, Overwrite, BlockCount, InFile, Source.Valid, Allocated, ExtentsOf;
      hide Decode, WithCrc, SparseFile, AllSound, Padded, IsSparse;
      var data := src.data;
      var found := FindExtents(src);
      FoundWhen(src, fillHoles);
      if found == None {
        return false;
      }
      var list := new Extent[|found.value|](k requires 0 <= k < |found.value| => found.value[k]);
      assert list[..] == found.value;
      ExtentsAreInFile(src, fillHoles);
      MergeExtents(list, blockSize, |data|);
      ghost var extents := Survivors(list[..]);
      ok := WriteAll(data, list, extents);
      if !ok {
        return;
      }
      ReadsPadded(src, fillHoles, blockSize, addCrc);
      FileIsTight(src, fillHoles, blockSize, addCrc, file);
    }
  }

  lemma OverwriteFront(a: seq<byte>, rest: seq<byte>, b: seq<byte>)
    requires |a| == |b|
    ensures Overwrite(a + rest, 0, b) == b + rest
  {
  }

  lemma NothingYet(data: seq<byte>, bs: nat, extents: seq<Extent>, prefix: seq<byte>)
    requires bs > 0
    ensures Image(data, bs, extents, 0) == [] && prefix + ChunksBytes([]) == prefix && [] + prefix == prefix
    ensures Crc32.Crc([]) == 0
  {
    Crc32.CrcOfNothing();
  }

  // No block behind the last extent is touched.
  lemma BehindLast(data: seq<byte>, bs: nat, extents: seq<Extent>)
    requires bs >= 4 && Ranges(extents, bs)
    ensures AddExtents(data, bs, extents, |extents|).block == if extents == [] then 0 else EndBlock(extents[|extents| - 1], bs)
  {
  }

  // ------------------------------------------------- the input

  // The extents that FIEMAP reports are not empty.
  ghost predicate Allocated(src: Source) {
    src.fiemap.Mapped? ==> forall e | 0 <= e < |src.fiemap.extents| :: src.fiemap.extents[e].start < src.fiemap.extents[e].end
  }

  function ExtentsOf(src: Source, fillHoles: bool): Option<seq<Extent>> {
    if fillHoles then Some(WholeFile(|src.data|)) else MapFileExtents(src, |src.data|)
  }

  lemma FoundWhen(src: Source, fillHoles: bool)
    ensures ExtentsOf(src, fillHoles).Some? <==> fillHoles || src.fiemap != Failed
  {
    MapFailsWhen(src, |src.data|);
  }

  // They are inside of the file, and everything else is zero.
  lemma ExtentsAreInFile(src: Source, fillHoles: bool)
    requires src.Valid() && Allocated(src) && ExtentsOf(src, fillHoles).Some?
    ensures var extents := ExtentsOf(src, fillHoles).value;
            && InFile(extents, |src.data|)
            && forall p | 0 <= p < |src.data| :: !Covered(extents, p) ==> src.data[p] == 0
  {
    var extents := ExtentsOf(src, fillHoles).value;
    if fillHoles || src.fiemap.Unsupported? {
      forall p | 0 <= p < |src.data|
        ensures Covered(extents, p)
      {
        assert extents[0].start <= p < extents[0].end;
      }
    } else {
      MappedShape(src, |src.data|);
      MappedExtents(src, |src.data|);
    }
  }

  // A reader of the output gets the padded input.
  lemma ReadsPadded(src: Source, fillHoles: bool, bs: nat, addCrc: bool)
    requires BlockSize(bs) && Countable(|src.data|, bs, addCrc)
    requires src.Valid() && Allocated(src) && ExtentsOf(src, fillHoles).Some?
    ensures var extents := Merged(ExtentsOf(src, fillHoles).value, bs, |src.data|);
            && Separated(extents, bs, |src.data|)
            && Ranges(extents, bs) && AllSound(Chunks(src.data, bs, extents), bs)
            && Decode(SparseFile(src.data, bs, WithCrc(Chunks(src.data, bs, extents), bs, addCrc))) == Some(Padded(src.data, bs))
  {
    hide Touched, Image, FirstBlock, EndBlock, Separated, Merged, BlockCount, InFile, Covered, Decode;
    hide SparseFile, Chunks, WithCrc, AllSound, Padded, ExtentsOf, Allocated, Source.Valid;
    var found := ExtentsOf(src, fillHoles).value;
    var extents := Merged(found, bs, |src.data|);
    ExtentsAreInFile(src, fillHoles);
    MergedIs(found, bs, |src.data|);
    SparseRoundTrip(src.data, bs, extents, addCrc);
    SameImage(src.data, bs, extents, found, BlockCount(|src.data|, bs));
    ImageIsInput(src.data, bs, found);
  }

  lemma NoSurvivors(list: seq<Extent>)
    ensures Survivors(list[..0]) == []
  {
  }

  lemma {:induction false} SurvivorsPrefix(list: seq<Extent>, i: nat)
    requires i <= |list|
    ensures Survivors(list[..i]) <= Survivors(list)
    decreases |list| - i
  {
    if i < |list| {
      SurvivorsPrefix(list, i + 1);
      assert list[..i + 1][..i] == list[..i];
    } else {
      assert list[..i] == list;
    }
  }

  // The next survivor, or none.
  lemma NextSurvivor(list: seq<Extent>, i: nat)
    requires i < |list|
    ensures var n := |Survivors(list[..i])|;
            && n <= |Survivors(list)| && Survivors(list[..i]) == Survivors(list)[..n]
            && (list[i].end == 0 ==> Survivors(list[..i + 1]) == Survivors(list[..i]))
            && (list[i].end != 0 ==> n < |Survivors(list)| && Survivors(list)[n] == list[i] && Survivors(list[..i + 1]) == Survivors(list)[..n + 1])
  {
    assert list[..i + 1][..i] == list[..i];
    SurvivorsPrefix(list, i);
    SurvivorsPrefix(list, i + 1);
  }

  lemma SurvivorsAreWhole(extents: seq<Extent>, bs: nat, size: nat)
    requires bs > 0 && Separated(extents, bs, size)
    ensures forall e | 0 <= e < |extents| :: extents[e].start < extents[e].end
  {
  }

  // The blocks of an extent are touched.
  ghost predicate TakenBy(e: Extent, extents: seq<Extent>, bs: nat)
    requires bs > 0
  {
    forall b: nat | FirstBlock(e, bs) <= b < EndBlock(e, bs) :: Touched(extents, bs, b)
  }

  // An extent in whole blocks, except for an end at the end of the file.
  ghost predicate Whole(e: Extent, bs: nat, size: nat)
    requires bs > 0
  {
    && e.start < e.end <= size && e.start == FirstBlock(e, bs) * bs && (e.end % bs == 0 || e.end == size)
    && FirstBlock(e, bs) < EndBlock(e, bs)
  }

  // Extent number n, its blocks, and the gap before it.
  lemma WholeExtent(data: seq<byte>, bs: nat, extents: seq<Extent>, n: nat)
    requires bs >= 4 && Separated(extents, bs, |data|) && Ranges(extents, bs) && n < |extents|
    ensures Whole(extents[n], bs, |data|)
    ensures var first, end, block := FirstBlock(extents[n], bs), EndBlock(extents[n], bs), AddExtents(data, bs, extents, n).block;
            && block <= first
            && TakenBy(extents[n], extents, bs)
            && (forall b: nat | block <= b < first :: !Touched(extents, bs, b))
  {
    hide FirstBlock, EndBlock, Touched, AddGap, AddBlocks;
    SeparatedBlocks(extents, bs, |data|, n);
  }

  lemma FirstIs(e: Extent, bs: nat)
    requires bs > 0
    ensures e.start / bs == FirstBlock(e, bs)
  {
  }

  lemma EndIs(e: Extent, bs: nat)
    requires bs > 0
    ensures (e.end - 1 + bs) / bs == EndBlock(e, bs)
  {
  }

  // The chunks with the blocks of one more extent.
  function AddWhole(chunks: seq<Chunk>, data: seq<byte>, bs: nat, e: Extent): seq<Chunk>
    requires bs >= 4
  {
    if FirstBlock(e, bs) <= EndBlock(e, bs) then AddBlocks(chunks, false, data, bs, FirstBlock(e, bs), EndBlock(e, bs)) else chunks
  }

  lemma NextSum(image: seq<byte>, b: seq<byte>)
    ensures Crc32.CrcNext(b, Crc32.Crc(image)) == Crc32.Crc(image + b)
  {
    hide Crc32.CrcNext;
    Crc32.CrcComposes(image, b, 0);
  }

  lemma NextImage(data: seq<byte>, bs: nat, extents: seq<Extent>, n: nat)
    requires bs > 0
    ensures Image(data, bs, extents, n + 1)
         == Image(data, bs, extents, n) + if Touched(extents, bs, n) then BlockAt(data, bs, n) else Fill(bs, 0)
  {
  }

  lemma NextBlocks(chunks: seq<Chunk>, open: bool, data: seq<byte>, bs: nat, k: nat, n: nat)
    requires bs >= 4 && k < n
    ensures AddBlocks(chunks, open, data, bs, k, n)
         == AddBlocks(AddBlock(chunks, open, BlockAt(data, bs, k), MaxRawBlocks(bs)), true, data, bs, k + 1, n)
  {
  }

  lemma NoBlocks(chunks: seq<Chunk>, open: bool, data: seq<byte>, bs: nat, n: nat)
    requires bs >= 4
    ensures AddBlocks(chunks, open, data, bs, n, n) == chunks
  {
  }

  // The bytes of an extent from block k on.
  function Left(e: Extent, bs: nat, k: nat): int
    requires bs > 0
  {
    if k < EndBlock(e, bs) then e.end - k * bs else 0
  }

  lemma FirstLeft(e: Extent, bs: nat, size: nat)
    requires bs > 0 && Whole(e, bs, size)
    ensures Left(e, bs, FirstBlock(e, bs)) == e.end - e.start && FirstBlock(e, bs) <= EndBlock(e, bs)
  {
  }

  lemma NothingLeft(e: Extent, bs: nat, k: nat)
    requires bs > 0 && k <= EndBlock(e, bs) && Left(e, bs, k) <= 0
    ensures k == EndBlock(e, bs)
  {
    EndBlockBounds(e, bs);
    hide EndBlock;
    if k < EndBlock(e, bs) {
      NextMultiple(k, EndBlock(e, bs), bs);
    }
  }

  lemma PaddedBlock(data: seq<byte>, bs: nat, k: nat, from: nat, now: nat)
    requires from == k * bs && now <= bs && from + now <= |data| && (now < bs ==> from + now == |data|)
    ensures data[from..from + now] + Fill(bs - now, 0) == BlockAt(data, bs, k)
  {
    var b := BlockAt(data, bs, k);
    forall i | 0 <= i < bs
      ensures b[i] == (data[from..from + now] + Fill(bs - now, 0))[i]
    {
      assert b[i] == At(data, k * bs + i);
      assert At(data, k * bs + i) == At(data, from + i);
    }
    SameBytes(data[from..from + now] + Fill(bs - now, 0), BlockAt(data, bs, k));
  }

  // What is read for block k is the block, once it is padded.
  lemma ReadIsBlock(data: seq<byte>, e: Extent, bs: nat, k: nat)
    requires bs > 0 && Whole(e, bs, |data|) && FirstBlock(e, bs) <= k && Left(e, bs, k) > 0
    ensures k < EndBlock(e, bs)
    ensures var left := Left(e, bs, k);
            var now := Min(left, bs);
            && 0 <= e.end - left && e.end - left + now <= |data|
            && data[e.end - left..e.end - left + now] + Fill(bs - now, 0) == BlockAt(data, bs, k)
            && Left(e, bs, k + 1) == left - now
  {
    EndBlockBounds(e, bs);
    if e.end % bs == 0 {
      RoundedEnd(e, bs);
    }
    hide EndBlock, FirstBlock;
    var m, left := EndBlock(e, bs), e.end - k * bs;
    var now := Min(left, bs);
    SumTimes(k, 1, bs);
    if k + 1 < m {
      NextMultiple(k + 1, m, bs);
    } else {
      assert k + 1 == m;
    }
    PaddedBlock(data, bs, k, k * bs, now);
  }

  // The last chunk with one more block.
  function Grown(chunks: seq<Chunk>, b: seq<byte>): seq<Chunk>
    requires chunks != [] && (chunks[|chunks| - 1].RawChunk? || chunks[|chunks| - 1].FillChunk?)
  {
    var n := |chunks| - 1;
    var c := chunks[n];
    chunks[..n] + [if c.RawChunk? then RawChunk(c.data + b, c.blocks + 1) else FillChunk(c.value, c.blocks + 1)]
  }

  // One more block is growth of the last chunk, or of an empty one behind it.
  lemma AddFillIsGrown(chunks: seq<Chunk>, open: bool, b: seq<byte>, maxRaw: nat)
    requires |b| >= 4 && Uniform(b)
    ensures var n := |chunks| - 1;
            var last := chunks + [FillChunk(b[..4], 0)];
            AddBlock(chunks, open, b, maxRaw) ==
              if open && chunks != [] && chunks[n].FillChunk? && chunks[n].value == b[..4] then Grown(chunks, b) else Grown(last, b)
  {
    hide Uniform;
    var last := chunks + [FillChunk(b[..4], 0)];
    assert last[..|chunks|] == chunks;
  }

  lemma AddRawIsGrown(chunks: seq<Chunk>, open: bool, b: seq<byte>, maxRaw: nat)
    requires |b| >= 4 && !Uniform(b)
    ensures var n := |chunks| - 1;
            var last := chunks + [RawChunk([], 0)];
            AddBlock(chunks, open, b, maxRaw) ==
              if open && chunks != [] && chunks[n].RawChunk? && chunks[n].blocks < maxRaw then Grown(chunks, b) else Grown(last, b)
  {
    hide Uniform;
    var last := chunks + [RawChunk([], 0)];
    assert last[..|chunks|] == chunks;
    assert [] + b == b;
  }

  lemma TypeIsSome(c: Chunk)
    ensures TypeOf(c) != 0
  {
  }

  // A file with tight chunks that stand for the padded input, and with the checksum
  // of that behind them if it is asked for.
  ghost predicate IsSparse(file: seq<byte>, data: seq<byte>, bs: nat, extents: seq<Extent>, addCrc: bool)
    requires bs > 0
  {
    exists chunks ::
      && Tight(chunks, bs, extents) && AllSound(chunks, bs) && ExpandAll(chunks, bs) == Padded(data, bs)
      && var all := chunks + if addCrc then [CrcChunk(Crc32.Crc(Padded(data, bs)))] else [];
         file == FileHeader(bs, (|data| + bs - 1) / bs, |all|) + ChunksBytes(all)
  }

  // The chunks of a file are the only tight ones that stand for the padded input.
  lemma ChunksIff(src: Source, fillHoles: bool, bs: nat, chunks: seq<Chunk>)
    requires BlockSize(bs) && BlockCount(|src.data|, bs) <= UINT32_MAX
    requires src.Valid() && Allocated(src) && ExtentsOf(src, fillHoles).Some?
    ensures var found := ExtentsOf(src, fillHoles).value;
            var extents := Merged(found, bs, |src.data|);
            && Ranges(extents, bs)
            && (chunks == Chunks(src.data, bs, extents) <==>
                  Tight(chunks, bs, found) && AllSound(chunks, bs) && ExpandAll(chunks, bs) == Padded(src.data, bs))
  {
    hide Touched, Image, FirstBlock, EndBlock, Separated, Merged, InFile, Covered, ExpandAll, Made, BlockCount;
    hide Tight, Chunks, AllSound, Padded, ExtentsOf, Allocated, Source.Valid, SumBlocks;
    var found := ExtentsOf(src, fillHoles).value;
    var extents := Merged(found, bs, |src.data|);
    ExtentsAreInFile(src, fillHoles);
    MergedIs(found, bs, |src.data|);
    ChunksStand(src.data, bs, extents);
    var made := Chunks(src.data, bs, extents);
    MadeIsSound(made, bs);
    SameImage(src.data, bs, extents, found, BlockCount(|src.data|, bs));
    ImageIsInput(src.data, bs, found);
    ChunksAreTight(src.data, bs, extents);
    TightAlso(made, bs, extents, found);
    if Tight(chunks, bs, found) && AllSound(chunks, bs) && ExpandAll(chunks, bs) == Padded(src.data, bs) {
      TightIsUnique(chunks, made, bs, found);
    }
  }

  // The bytes of the file are the only ones of this form.
  lemma FileIsTight(src: Source, fillHoles: bool, bs: nat, addCrc: bool, file: seq<byte>)
    requires BlockSize(bs) && BlockCount(|src.data|, bs) <= UINT32_MAX
    requires src.Valid() && Allocated(src) && ExtentsOf(src, fillHoles).Some?
    ensures var found := ExtentsOf(src, fillHoles).value;
            var extents := Merged(found, bs, |src.data|);
            && Ranges(extents, bs) && AllSound(Chunks(src.data, bs, extents), bs)
            && (file == SparseFile(src.data, bs, WithCrc(Chunks(src.data, bs, extents), bs, addCrc)) <==>
                  IsSparse(file, src.data, bs, found, addCrc))
  {
    hide Merged, Crc32.Crc, ExpandAll, Tight, Chunks, AllSound, Padded, ExtentsOf, Allocated, Source.Valid, FileHeader;
    hide ChunksBytes;
    var found := ExtentsOf(src, fillHoles).value;
    var extents := Merged(found, bs, |src.data|);
    ChunksIff(src, fillHoles, bs, []);
    var made := Chunks(src.data, bs, extents);
    ChunksIff(src, fillHoles, bs, made);
    assert made + [] == made;
    if IsSparse(file, src.data, bs, found, addCrc) {
      var chunks :| Tight(chunks, bs, found) && AllSound(chunks, bs) && ExpandAll(chunks, bs) == Padded(src.data, bs)
        && var all := chunks + if addCrc then [CrcChunk(Crc32.Crc(Padded(src.data, bs)))] else [];
           file == FileHeader(bs, (|src.data| + bs - 1) / bs, |all|) + ChunksBytes(all);
      ChunksIff(src, fillHoles, bs, chunks);
    }
  }
}
