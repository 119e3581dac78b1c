/**
  The Android sparse format: the structures of `image-android-sparse.c`, and a
  strict reader of the files, which is the specification of the encoder.
 */
module SparseFormat {
  import opened Bytes
  import opened Arith
  import opened Records
  import Crc32

  const MAGIC: nat := 0xed26ff3a
  const HEADER_SIZE: nat := 28
  const CHUNK_HEADER_SIZE: nat := 12
  const UINT32_MAX: nat := 0xffff_ffff

  // A chunk; the number of blocks of a raw chunk is stored beside its data.
  datatype Chunk =
    | RawChunk(data: seq<byte>, blocks: nat)
    | FillChunk(value: seq<byte>, blocks: nat)
    | DontCare(blocks: nat)
    | CrcChunk(crc: bv32)

  // ------------------------------------------------- bytes of a file

  function TypeOf(c: Chunk): nat {
    match c
    case RawChunk(_, _) => 0xcac1
    case FillChunk(_, _) => 0xcac2
    case DontCare(_) => 0xcac3
    case CrcChunk(_) => 0xcac4
  }

  function BlocksOf(c: Chunk): nat {
    if c.CrcChunk? then 0 else c.blocks
  }

  function Payload(c: Chunk): seq<byte> {
    match c
    case RawChunk(data, _) => data
    case FillChunk(value, _) => value
    case DontCare(_) => []
    case CrcChunk(crc) => Le(crc as nat, 4)
  }

  // `struct sparse_chunk_header`
  function ChunkHeader(chunkType: nat, blocks: nat, size: nat): (r: seq<byte>)
    ensures |r| == CHUNK_HEADER_SIZE
  {
    Le(chunkType, 2) + Le(0, 2) + Le(blocks, 4) + Le(size, 4)
  }

  function SizeOf(c: Chunk): nat {
    CHUNK_HEADER_SIZE + |Payload(c)|
  }

  function HeaderOf(c: Chunk): (r: seq<byte>)
    ensures |r| == CHUNK_HEADER_SIZE
  {
    ChunkHeader(TypeOf(c), BlocksOf(c), SizeOf(c))
  }

  function ChunkBytes(c: Chunk): (r: seq<byte>)
    ensures |r| == SizeOf(c)
  {
    HeaderOf(c) + Payload(c)
  }

  function ChunksBytes(chunks: seq<Chunk>): seq<byte> {
    if chunks == [] then [] else ChunkBytes(chunks[0]) + ChunksBytes(chunks[1..])
  }

  // `struct sparse_header`
  function FileHeader(bs: nat, outputBlocks: nat, inputChunks: nat): (r: seq<byte>)
    ensures |r| == HEADER_SIZE
  {
    Le(MAGIC, 4) + (Le(1, 2) + Le(0, 2) + Le(HEADER_SIZE, 2) + Le(CHUNK_HEADER_SIZE, 2))
    + Le(bs, 4) + Le(outputBlocks, 4) + Le(inputChunks, 4) + Le(0, 4)
  }

  // ------------------------------------------------- the reader

  // A value of four bytes, n times.
  function Repeat(value: seq<byte>, n: nat): (r: seq<byte>)
    requires |value| == 4
    ensures |r| == 4 * n
  {
    seq(4 * n, i requires 0 <= i => value[i % 4])
  }

  // One chunk, of which the reader gets the bytes it stands for, and the rest of the file.
  datatype Read = Read(expanded: seq<byte>, rest: seq<byte>)

  // A chunk at the beginning of `file`, when `image` has been read already.
  function ReadChunk(file: seq<byte>, bs: nat, image: seq<byte>): Option<Read> {
    if |file| < CHUNK_HEADER_SIZE then None
    else
      var chunkType, blocks, size := Num(file[0..2]), Num(file[4..8]), Num(file[8..12]);
      if !(CHUNK_HEADER_SIZE <= size <= |file|) || file[2..4] != [0, 0] then None
      else
        var payload, rest := file[CHUNK_HEADER_SIZE..size], file[size..];
        if chunkType == 0xcac1 && |payload| == blocks * bs then Some(Read(payload, rest))
        else if chunkType == 0xcac2 && |payload| == 4 then Some(Read(Repeat(payload, blocks * bs / 4), rest))
        else if chunkType == 0xcac3 && payload == [] then Some(Read(Fill(blocks * bs, 0), rest))
        else if chunkType == 0xcac4 && |payload| == 4 && blocks == 0 && Num(payload) == Crc32.Crc(image) as nat then Some(Read([], rest))
        else None
  }

  // Exactly n chunks, up to the end of the file.
  function ReadChunks(file: seq<byte>, bs: nat, n: nat, image: seq<byte>): Option<seq<byte>>
    decreases n
  {
    if n == 0 then if file == [] then Some(image) else None
    else
      var c :- ReadChunk(file, bs, image);
      ReadChunks(c.rest, bs, n - 1, image + c.expanded)
  }

  // The image in a sparse file. Areas that nobody cares about are read as
  // zeros, and the counts in the header have to be right.
  function Decode(file: seq<byte>): Option<seq<byte>> {
    if |file| < HEADER_SIZE then None
    else if Num(file[0..4]) != 0xed26_ff3a || file[4..12] != [1, 0, 0, 0, 28, 0, 12, 0] || file[24..28] != [0, 0, 0, 0]
         || Num(file[12..16]) == 0 then None
    else
      var bs, outputBlocks, inputChunks := Num(file[12..16]), Num(file[16..20]), Num(file[20..24]);
      var image :- ReadChunks(file[HEADER_SIZE..], bs, inputChunks, []);
      if |image| == outputBlocks * bs then Some(image) else None
  }

  // ------------------------------------------------- what chunks stand for

  // Chunks whose header fields are right and hold their numbers.
  predicate Sound(c: Chunk, bs: nat) {
    && BlocksOf(c) <= UINT32_MAX && SizeOf(c) <= UINT32_MAX
    && (c.RawChunk? ==> |c.data| == c.blocks * bs)
    && (c.FillChunk? ==> |c.value| == 4)
  }

  function Expand(c: Chunk, bs: nat): seq<byte>
    requires Sound(c, bs)
  {
    match c
    case RawChunk(data, _) => data
    case FillChunk(value, blocks) => Repeat(value, blocks * bs / 4)
    case DontCare(blocks) => Fill(blocks * bs, 0)
    case CrcChunk(_) => []
  }

  ghost predicate AllSound(chunks: seq<Chunk>, bs: nat) {
    forall i | 0 <= i < |chunks| :: Sound(chunks[i], bs)
  }

  function ExpandAll(chunks: seq<Chunk>, bs: nat): seq<byte>
    requires AllSound(chunks, bs)
  {
    if chunks == [] then [] else Expand(chunks[0], bs) + ExpandAll(chunks[1..], bs)
  }

  function SumBlocks(chunks: seq<Chunk>): nat {
    if chunks == [] then 0 else BlocksOf(chunks[0]) + SumBlocks(chunks[1..])
  }

  // Every checksum is that of the image up to it.
  ghost predicate ChecksumsRight(chunks: seq<Chunk>, bs: nat, image: seq<byte>)
    requires AllSound(chunks, bs)
    decreases |chunks|
  {
    chunks != [] ==>
      && (chunks[0].CrcChunk? ==> chunks[0].crc == Crc32.Crc(image))
      && ChecksumsRight(chunks[1..], bs, image + Expand(chunks[0], bs))
  }

  // ------------------------------------------------- the reader reads what is written

  lemma Num16(n: nat)
    requires n < 0x1_0000
    ensures Num(Le(n, 2)) == n
  {
    Pow256Values();
    NumOfLe(n, 2);
  }

  lemma NumU32(n: nat)
    requires n <= UINT32_MAX
    ensures Num(Le(n, 4)) == n
  {
    Pow256Values();
    NumOfLe(n, 4);
  }

  lemma HeaderSlices(chunkType: nat, blocks: nat, size: nat, rest: seq<byte>)
    ensures var f := ChunkHeader(chunkType, blocks, size) + rest;
            && f[0..2] == Le(chunkType, 2) && f[2..4] == Le(0, 2) && f[4..8] == Le(blocks, 4) && f[8..12] == Le(size, 4)
            && f[12..] == rest
  {
    hide Le;
  }

  lemma TwoZeros()
    ensures Le(0, 2) == [0, 0]
  {
    assert Le(0, 1) == [0];
  }

  lemma ChunkSlices(c: Chunk, rest: seq<byte>)
    ensures var f := ChunkBytes(c) + rest;
            && f[0..2] == Le(TypeOf(c), 2) && f[2..4] == [0, 0] && f[4..8] == Le(BlocksOf(c), 4) && f[8..12] == Le(SizeOf(c), 4)
            && f[12..SizeOf(c)] == Payload(c) && f[SizeOf(c)..] == rest
  {
    hide Le, ChunkHeader, Payload;
    var f := ChunkBytes(c) + rest;
    assert f == HeaderOf(c) + (Payload(c) + rest);
    HeaderSlices(TypeOf(c), BlocksOf(c), SizeOf(c), Payload(c) + rest);
    TwoZeros();
    assert f[12..SizeOf(c)] == (HeaderOf(c) + Payload(c))[12..];
  }

  lemma WordIsSmall(v: bv32)
    ensures v as nat <= UINT32_MAX
  {
  }

  lemma CrcIsNumber(crc: bv32)
    ensures Num(Le(crc as nat, 4)) == crc as nat
  {
    WordIsSmall(crc);
    hide *;
    NumU32(crc as nat);
  }

  lemma TypeFits(c: Chunk)
    ensures TypeOf(c) < 0x1_0000
  {
  }

  // One chunk is read back.
  lemma ChunkIsRead(c: Chunk, rest: seq<byte>, bs: nat, image: seq<byte>)
    requires Sound(c, bs) && (c.CrcChunk? ==> c.crc == Crc32.Crc(image))
    ensures ReadChunk(ChunkBytes(c) + rest, bs, image) == Some(Read(Expand(c, bs), rest))
  {
    hide Le, Num, ChunkBytes, Crc32.Crc;
    ChunkSlices(c, rest);
    TypeFits(c);
    Num16(TypeOf(c));
    NumU32(BlocksOf(c));
    NumU32(SizeOf(c));
    if c.CrcChunk? {
      CrcIsNumber(c.crc);
    }
  }

  lemma {:induction false} ChunksAreRead(chunks: seq<Chunk>, bs: nat, image: seq<byte>)
    requires AllSound(chunks, bs) && ChecksumsRight(chunks, bs, image)
    ensures ReadChunks(ChunksBytes(chunks), bs, |chunks|, image) == Some(image + ExpandAll(chunks, bs))
    decreases |chunks|
  {
    hide ChunkBytes, Expand, Sound, ReadChunk;
    if chunks == [] {
      assert image + [] == image;
    } else {
      var c, rest := chunks[0], chunks[1..];
      ChunkIsRead(c, ChunksBytes(rest), bs, image);
      ChunksAreRead(rest, bs, image + Expand(c, bs));
      assert image + Expand(c, bs) + ExpandAll(rest, bs) == image + (Expand(c, bs) + ExpandAll(rest, bs));
    }
  }

  lemma FileHeaderSlices(bs: nat, outputBlocks: nat, inputChunks: nat, rest: seq<byte>)
    ensures var f := FileHeader(bs, outputBlocks, inputChunks) + rest;
            && f[0..4] == Le(MAGIC, 4) && f[4..12] == Le(1, 2) + Le(0, 2) + Le(HEADER_SIZE, 2) + Le(CHUNK_HEADER_SIZE, 2)
            && f[12..16] == Le(bs, 4) && f[16..20] == Le(outputBlocks, 4) && f[20..24] == Le(inputChunks, 4) && f[24..28] == Le(0, 4)
            && f[28..] == rest
  {
    hide Le;
  }

  lemma FixedFields()
    ensures Le(1, 2) + Le(0, 2) + Le(HEADER_SIZE, 2) + Le(CHUNK_HEADER_SIZE, 2) == [1, 0, 0, 0, 28, 0, 12, 0]
    ensures Le(0, 4) == [0, 0, 0, 0]
  {
    TwoZeros();
    assert Le(0, 1) == [0];
    assert Le(1, 2) == [1, 0] && Le(28, 2) == [28, 0] && Le(12, 2) == [12, 0];
    assert Le(0, 3) == [0] + Le(0, 2);
    assert Le(0, 4) == [0] + Le(0, 3);
  }

  lemma SumTimes(m: nat, n: nat, bs: nat)
    ensures (m + n) * bs == m * bs + n * bs
  {
  }

  lemma FourDivides(n: nat, bs: nat)
    requires bs % 4 == 0
    ensures 4 * (n * bs / 4) == n * bs
  {
    var q := bs / 4;
    assert n * bs == n * q * 4;
  }

  lemma OneExpandSize(c: Chunk, bs: nat)
    requires bs % 4 == 0 && Sound(c, bs)
    ensures |Expand(c, bs)| == BlocksOf(c) * bs
  {
    FourDivides(BlocksOf(c), bs);
  }

  lemma {:induction false} ExpandSize(chunks: seq<Chunk>, bs: nat)
    requires bs % 4 == 0 && AllSound(chunks, bs)
    ensures |ExpandAll(chunks, bs)| == SumBlocks(chunks) * bs
    decreases |chunks|
  {
    hide Sound, Expand, BlocksOf;
    if chunks == [] {
    } else {
      OneExpandSize(chunks[0], bs);
      ExpandSize(chunks[1..], bs);
      SumTimes(BlocksOf(chunks[0]), SumBlocks(chunks[1..]), bs);
    }
  }

  // A file with sound chunks and right checksums is read, and gives what they stand for.
  lemma FormatRoundTrip(chunks: seq<Chunk>, bs: nat)
    requires 0 < bs <= UINT32_MAX && bs % 4 == 0 && AllSound(chunks, bs) && ChecksumsRight(chunks, bs, [])
    requires |chunks| <= UINT32_MAX && SumBlocks(chunks) <= UINT32_MAX
    ensures Decode(FileHeader(bs, SumBlocks(chunks), |chunks|) + ChunksBytes(chunks)) == Some(ExpandAll(chunks, bs))
  {
    hide Le, Num, FileHeader, ReadChunks, ChunksBytes, ExpandAll, SumBlocks, Sound, ChecksumsRight;
    FileHeaderSlices(bs, SumBlocks(chunks), |chunks|, ChunksBytes(chunks));
    NumU32(MAGIC);
    NumU32(bs);
    NumU32(SumBlocks(chunks));
    NumU32(|chunks|);
    FixedFields();
    ChunksAreRead(chunks, bs, []);
    assert [] + ExpandAll(chunks, bs) == ExpandAll(chunks, bs);
    ExpandSize(chunks, bs);
  }

  lemma {:induction false} NumBound(s: seq<byte>)
    ensures Num(s) < Pow256(|s|)
    decreases |s|
  {
    if s == [] {
    } else {
      NumBound(s[1..]);
    }
  }

  lemma MultiplyLess(m: nat, n: nat, k: nat)
    requires m <= n
    ensures m * k <= n * k
  {
    if m < n {
      NextMultiple(m, n, k);
    }
  }

  // The image in a file has at most the number of blocks that its header can hold.
  lemma DecodedSize(file: seq<byte>)
    requires |file| >= HEADER_SIZE && Decode(file).Some?
    ensures |Decode(file).value| <= UINT32_MAX * Num(file[12..16])
  {
    hide Num, ReadChunks;
    NumBound(file[16..20]);
    Pow256Values();
    MultiplyLess(Num(file[16..20]), UINT32_MAX, Num(file[12..16]));
  }
}
