/**
 * Flashing a sparse image: the encoded image, its expansion onto a disk, the write loop that
 * sends an operation in payload-sized pieces, and the proof that they agree.
 */
module SparseFlash {
  import opened Bytes
  import opened Sparse

  // ------------------------------------------------------------------
  // Images and what they mean
  // ------------------------------------------------------------------

  type Pattern = p: seq<byte> | |p| == 4 witness [0, 0, 0, 0]

  datatype Chunk =
    | Raw(data: seq<byte>, blocks: nat)
    | Fill(pattern: Pattern, blocks: nat)
    | DontCare(blocks: nat)

  /** A sparse image; `headerExtra` and `chunkExtra` are header bytes of later format revisions. */
  datatype Image = Image(blkSz: nat, totalBlks: nat, checksum: nat, headerExtra: seq<byte>, chunkExtra: seq<byte>, chunks: seq<Chunk>)

  function ChunkSize(c: Chunk, blkSz: nat): nat { c.blocks * blkSz }

  /** A chunk whose fields fit the format and whose size is a whole number of sectors. */
  predicate GoodChunk(c: Chunk, img: Image, sectorSize: nat)
    requires sectorSize > 0
  {
    && c.blocks < WORD
    && (c.Raw? ==> |c.data| == ChunkSize(c, img.blkSz) && CHUNK_HEADER_SIZE + |img.chunkExtra| + |c.data| < WORD)
    && ChunkSize(c, img.blkSz) % sectorSize == 0 && ChunkSize(c, img.blkSz) / sectorSize < UINT_MAX
  }

  predicate GoodImage(img: Image, sectorSize: nat)
    requires sectorSize > 0
  {
    && HEADER_SIZE + |img.headerExtra| < 0x1_0000 && CHUNK_HEADER_SIZE + |img.chunkExtra| < 0x1_0000
    && img.blkSz < WORD && img.totalBlks < WORD && img.checksum < WORD && |img.chunks| < WORD
    && forall i :: 0 <= i < |img.chunks| ==> GoodChunk(img.chunks[i], img, sectorSize)
  }

  function ChunkType(c: Chunk): nat {
    match c
    case Raw(_, _) => CHUNK_TYPE_RAW
    case Fill(_, _) => CHUNK_TYPE_FILL
    case DontCare(_) => CHUNK_TYPE_DONT_CARE
  }

  function Payload(c: Chunk): seq<byte> {
    match c
    case Raw(data, _) => data
    case Fill(pattern, _) => pattern
    case DontCare(_) => []
  }

  function EncodeChunk(c: Chunk, img: Image): seq<byte> {
    LeBytes(ChunkType(c), 2) + LeBytes(0, 2) + LeBytes(c.blocks, 4) +
    LeBytes(CHUNK_HEADER_SIZE + |img.chunkExtra| + |Payload(c)|, 4) + (img.chunkExtra + Payload(c))
  }

  function EncodeChunks(cs: seq<Chunk>, img: Image): seq<byte> {
    if cs == [] then [] else EncodeChunk(cs[0], img) + EncodeChunks(cs[1..], img)
  }

  /** The file an image is stored in. */
  function Encode(img: Image): seq<byte> {
    LeBytes(SPARSE_HEADER_MAGIC, 4) + LeBytes(SPARSE_HEADER_MAJOR_VER, 2) + LeBytes(SPARSE_HEADER_MINOR_VER, 2) +
    LeBytes(HEADER_SIZE + |img.headerExtra|, 2) + LeBytes(CHUNK_HEADER_SIZE + |img.chunkExtra|, 2) +
    LeBytes(img.blkSz, 4) + LeBytes(img.totalBlks, 4) + LeBytes(|img.chunks|, 4) + LeBytes(img.checksum, 4) +
    (img.headerExtra + EncodeChunks(img.chunks, img))
  }

  /** Disk contents by byte address; only the addresses an operation writes are listed. */
  type Cells = map<nat, byte>

  /** Distance of address `p` from `base`. */
  function From(base: nat, p: nat): int { p - base }

  function Place(base: nat, data: seq<byte>): Cells {
    map p: nat | base <= p < base + |data| :: data[From(base, p)]
  }

  function Repeat(base: nat, size: nat, pattern: Pattern): Cells {
    map p: nat | base <= p < base + size :: pattern[From(base, p) % 4]
  }

  function ChunkCells(c: Chunk, img: Image, base: nat): Cells {
    match c
    case Raw(data, _) => Place(base, data)
    case Fill(pattern, _) => Repeat(base, ChunkSize(c, img.blkSz), pattern)
    case DontCare(_) => map[]
  }

  /** The image laid out from byte address `base`. */
  function Expand(cs: seq<Chunk>, img: Image, base: nat): Cells {
    if cs == [] then map[] else ChunkCells(cs[0], img, base) + Expand(cs[1..], img, base + ChunkSize(cs[0], img.blkSz))
  }

  function Sectors(cs: seq<Chunk>, img: Image, sectorSize: nat): nat
    requires sectorSize > 0
  {
    if cs == [] then 0 else ChunkSize(cs[0], img.blkSz) / sectorSize + Sectors(cs[1..], img, sectorSize)
  }

  /** Blocks of the first `n` chunks. */
  function BlocksBefore(cs: seq<Chunk>, n: nat): nat
    requires n <= |cs|
  {
    if n == 0 then 0 else cs[0].blocks + BlocksBefore(cs[1..], n - 1)
  }

  /** RAW chunks hold as many bytes as their blocks. */
  ghost predicate WholeData(cs: seq<Chunk>, img: Image) {
    forall i :: 0 <= i < |cs| && cs[i].Raw? ==> |cs[i].data| == cs[i].blocks * img.blkSz
  }

  /** One chunk byte by byte. */
  lemma ChunkAtByte(c: Chunk, img: Image, base: nat, p: nat)
    requires c.Raw? ==> |c.data| == c.blocks * img.blkSz
    ensures p in ChunkCells(c, img, base) <==> !c.DontCare? && base <= p < base + c.blocks * img.blkSz
    ensures c.Raw? && base <= p < base + c.blocks * img.blkSz ==> ChunkCells(c, img, base)[p] == c.data[p - base]
    ensures c.Fill? && base <= p < base + c.blocks * img.blkSz ==> ChunkCells(c, img, base)[p] == c.pattern[(p - base) % 4]
  {
    var size := ChunkSize(c, img.blkSz);
  }

  /** An expansion writes nothing in front of its base. */
  lemma {:induction false} ExpandsBehind(cs: seq<Chunk>, img: Image, base: nat, p: nat)
    requires p in Expand(cs, img, base)
    ensures cs != [] && base <= p
  {
    hide ChunkCells;
    if p !in ChunkCells(cs[0], img, base) {
      ExpandsBehind(cs[1..], img, base + ChunkSize(cs[0], img.blkSz), p);
    } else {
      NotInFront(cs[0], img, base, p);
    }
  }

  lemma NotInFront(c: Chunk, img: Image, base: nat, p: nat)
    requires p in ChunkCells(c, img, base)
    ensures base <= p
  {
  }

  /** Byte `k` of chunk `i`: its data, its pattern from the chunk's start on, or nothing, behind all blocks in front of it. */
  lemma {:induction false} ExpandedAt(cs: seq<Chunk>, img: Image, base: nat, i: nat, k: nat)
    requires i < |cs| && WholeData(cs, img) && k < cs[i].blocks * img.blkSz
    ensures var p, cells := base + BlocksBefore(cs, i) * img.blkSz + k, Expand(cs, img, base);
      match cs[i]
      case Raw(data, _) => p in cells && cells[p] == data[k]
      case Fill(pattern, _) => p in cells && cells[p] == pattern[k % 4]
      case DontCare(_) => p !in cells
  {
    hide ChunkCells, BlocksBefore;
    var size, p := ChunkSize(cs[0], img.blkSz), base + BlocksBefore(cs, i) * img.blkSz + k;
    BlocksFirst(cs, i, img.blkSz);
    ChunkAtByte(cs[0], img, base, p);
    if i == 0 {
      if p in Expand(cs[1..], img, base + size) {
        ExpandsBehind(cs[1..], img, base + size, p);
      }
    } else {
      assert forall j :: 0 <= j < |cs| - 1 ==> cs[1..][j] == cs[j + 1];
      ExpandedAt(cs[1..], img, base + size, i - 1, k);
    }
  }

  lemma BlocksFirst(cs: seq<Chunk>, i: nat, blkSz: nat)
    requires i < |cs|
    ensures i == 0 ==> BlocksBefore(cs, i) * blkSz == 0
    ensures i > 0 ==> BlocksBefore(cs, i) * blkSz == cs[0].blocks * blkSz + BlocksBefore(cs[1..], i - 1) * blkSz
  {
    if i > 0 {
      Distributes(cs[0].blocks, BlocksBefore(cs[1..], i - 1), blkSz);
    }
  }

  lemma Distributes(a: nat, b: nat, n: nat)
    ensures (a + b) * n == a * n + b * n
  {
  }

  // ------------------------------------------------------------------
  // What an operation writes
  // ------------------------------------------------------------------

  /** File bytes from `offset`, zeros standing in for bytes past the end of the file. */
  function Padded(data: seq<byte>, offset: nat, n: nat): (s: seq<byte>)
    ensures |s| == n
  {
    var s := ReadAt(data, offset, n);
    s + Zeros(n - |s|)
  }

  function OpCells(op: Program, data: seq<byte>): Cells {
    var base, size := op.startSector * op.sectorSize, op.numSectors * op.sectorSize;
    match op.kind
    case RawAt(offset) => Place(base, Padded(data, offset, size))
    case FillWith(value) => Repeat(base, size, LeBytes(value, 4))
    case Skip => map[]
  }

  function OpsCells(ops: seq<Program>, data: seq<byte>): Cells {
    if ops == [] then map[] else OpCells(ops[0], data) + OpsCells(ops[1..], data)
  }

  // ------------------------------------------------------------------
  // Parsing an encoded image
  // ------------------------------------------------------------------

  function HeaderFor(img: Image): SparseHeader {
    SparseHeader(HEADER_SIZE + |img.headerExtra|, CHUNK_HEADER_SIZE + |img.chunkExtra|, img.blkSz, |img.chunks|)
  }

  lemma HeaderSlices(f0: seq<byte>, f1: seq<byte>, f2: seq<byte>, f3: seq<byte>, f4: seq<byte>,
                     f5: seq<byte>, f6: seq<byte>, f7: seq<byte>, f8: seq<byte>)
    requires |f0| == 4 && |f1| == |f2| == |f3| == |f4| == 2 && |f5| == |f6| == |f7| == |f8| == 4
    ensures var h := f0 + f1 + f2 + f3 + f4 + f5 + f6 + f7 + f8;
      && |h| == HEADER_SIZE && h[0..4] == f0 && h[4..6] == f1 && h[6..8] == f2 && h[8..10] == f3
      && h[10..12] == f4 && h[12..16] == f5 && h[20..24] == f7
  {
  }

  lemma ParseEncodedHeader(img: Image, sectorSize: nat)
    requires sectorSize > 0 && GoodImage(img, sectorSize)
    ensures HeaderOf(Encode(img)) == Some(HeaderFor(img))
    ensures Skipped(0, HeaderFor(img).fileHdrSz, HEADER_SIZE) == HEADER_SIZE + |img.headerExtra|
    ensures HEADER_SIZE + |img.headerExtra| <= |Encode(img)|
    ensures Encode(img)[HEADER_SIZE + |img.headerExtra|..] == EncodeChunks(img.chunks, img)
  {
    hide LeBytes, LeValue, Pow256, EncodeChunks, GoodChunk;
    Pow256Small();
    var f0, f1, f2 := LeBytes(SPARSE_HEADER_MAGIC, 4), LeBytes(SPARSE_HEADER_MAJOR_VER, 2), LeBytes(SPARSE_HEADER_MINOR_VER, 2);
    var f3, f4 := LeBytes(HEADER_SIZE + |img.headerExtra|, 2), LeBytes(CHUNK_HEADER_SIZE + |img.chunkExtra|, 2);
    var f5, f6 := LeBytes(img.blkSz, 4), LeBytes(img.totalBlks, 4);
    var f7, f8 := LeBytes(|img.chunks|, 4), LeBytes(img.checksum, 4);
    var h, rest := f0 + f1 + f2 + f3 + f4 + f5 + f6 + f7 + f8, img.headerExtra + EncodeChunks(img.chunks, img);
    HeaderSlices(f0, f1, f2, f3, f4, f5, f6, f7, f8);
    LeRoundTrip(SPARSE_HEADER_MAGIC, 4);
    LeRoundTrip(SPARSE_HEADER_MAJOR_VER, 2);
    LeRoundTrip(SPARSE_HEADER_MINOR_VER, 2);
    LeRoundTrip(HEADER_SIZE + |img.headerExtra|, 2);
    LeRoundTrip(CHUNK_HEADER_SIZE + |img.chunkExtra|, 2);
    LeRoundTrip(img.blkSz, 4);
    LeRoundTrip(|img.chunks|, 4);
    SplitAfter(h, img.headerExtra, EncodeChunks(img.chunks, img));
    assert ReadAt(Encode(img), 0, HEADER_SIZE) == h;
  }

  lemma SplitAfter(h: seq<byte>, extra: seq<byte>, rest: seq<byte>)
    ensures (h + (extra + rest))[0..|h|] == h
    ensures (h + (extra + rest))[|h| + |extra|..] == rest
  {
  }

  function ParsedKind(c: Chunk, body: nat): ChunkKind {
    match c
    case Raw(_, _) => RawAt(body)
    case Fill(pattern, _) => FillWith(LeValue(pattern))
    case DontCare(_) => Skip
  }

  /** A chunk parses back to its type, size and payload position, and the cursor lands behind it. */
  lemma ParseEncodedChunk(data: seq<byte>, pos: nat, img: Image, c: Chunk, rest: seq<byte>, sectorSize: nat)
    requires sectorSize > 0 && GoodImage(img, sectorSize) && GoodChunk(c, img, sectorSize)
    requires pos <= |data| && data[pos..] == EncodeChunk(c, img) + rest
    ensures var body := pos + CHUNK_HEADER_SIZE + |img.chunkExtra|;
      && body + |Payload(c)| <= |data| && data[body..body + |Payload(c)|] == Payload(c)
      && ChunkAt(data, pos, HeaderFor(img)) ==
           Some(ParsedChunk(ParsedKind(c, body), ChunkSize(c, img.blkSz), body + |Payload(c)|))
      && data[body + |Payload(c)|..] == rest
  {
    hide LeBytes, LeValue, Pow256, EncodeChunks;
    Pow256Small();
    var payload := Payload(c);
    var total := CHUNK_HEADER_SIZE + |img.chunkExtra| + |payload|;
    var f0, f1, f2, f3 := LeBytes(ChunkType(c), 2), LeBytes(0, 2), LeBytes(c.blocks, 4), LeBytes(total, 4);
    ChunkSlices(data, pos, f0, f1, f2, f3, img.chunkExtra, payload, rest);
    LeRoundTrip(ChunkType(c), 2);
    LeRoundTrip(c.blocks, 4);
    LeRoundTrip(total, 4);
  }

  lemma ChunkSlices(data: seq<byte>, pos: nat, f0: seq<byte>, f1: seq<byte>, f2: seq<byte>, f3: seq<byte>,
                    extra: seq<byte>, payload: seq<byte>, rest: seq<byte>)
    requires |f0| == |f1| == 2 && |f2| == |f3| == 4
    requires pos <= |data| && data[pos..] == f0 + f1 + f2 + f3 + (extra + payload) + rest
    ensures var h, body := ReadAt(data, pos, CHUNK_HEADER_SIZE), pos + CHUNK_HEADER_SIZE + |extra|;
      && |h| == CHUNK_HEADER_SIZE && h[0..2] == f0 && h[4..8] == f2 && h[8..12] == f3
      && body + |payload| <= |data| && data[body..body + |payload|] == payload
      && data[body + |payload|..] == rest
  {
    var tail := data[pos..];
    var body := CHUNK_HEADER_SIZE + |extra|;
    assert ReadAt(data, pos, CHUNK_HEADER_SIZE) == tail[0..CHUNK_HEADER_SIZE] == f0 + f1 + f2 + f3;
    assert data[pos + body..pos + body + |payload|] == tail[body..body + |payload|] == payload;
    assert data[pos + body + |payload|..] == tail[body + |payload|..] == rest;
  }

  // ------------------------------------------------------------------
  // Operations of an encoded image
  // ------------------------------------------------------------------

  lemma ChunkCellsOfOp(data: seq<byte>, img: Image, c: Chunk, body: nat, sectorSize: nat, start: nat)
    requires sectorSize > 0 && GoodChunk(c, img, sectorSize)
    requires body + |Payload(c)| <= |data| && data[body..body + |Payload(c)|] == Payload(c)
    ensures var size := ChunkSize(c, img.blkSz);
      OpCells(Program(sectorSize, start, size / sectorSize, ParsedKind(c, body)), data) == ChunkCells(c, img, start * sectorSize)
  {
    var size := ChunkSize(c, img.blkSz);
    assert size / sectorSize * sectorSize == size;
    match c
    case Raw(_, _) =>
      assert Padded(data, body, size) == c.data;
    case Fill(pattern, _) =>
      LeInverse(pattern);
    case DontCare(_) =>
  }

  lemma {:induction false} LeInverse(s: seq<byte>)
    ensures LeBytes(LeValue(s), |s|) == s
  {
    if s != [] {
      LeInverse(s[1..]);
      FirstDigit(s[0], LeValue(s[1..]));
      assert s == [s[0]] + s[1..];
    }
  }

  lemma FirstDigit(b: byte, rest: nat)
    ensures (b + 256 * rest) % 256 == b && (b + 256 * rest) / 256 == rest
  {
  }

  lemma SectorBytes(start: nat, size: nat, sectorSize: nat)
    requires sectorSize > 0 && size % sectorSize == 0
    ensures (start + size / sectorSize) * sectorSize == start * sectorSize + size
    ensures size == 0 ==> size / sectorSize == 0
    ensures size > 0 ==> size / sectorSize > 0
  {
  }

  /** The cells of one parsed chunk's operations, and of whatever follows. */
  lemma {:induction false} CellsOfChunk(data: seq<byte>, img: Image, c: Chunk, body: nat, sectorSize: nat, start: nat, rest: seq<Program>)
    requires sectorSize > 0 && GoodChunk(c, img, sectorSize)
    requires body + |Payload(c)| <= |data| && data[body..body + |Payload(c)|] == Payload(c)
    ensures var size := ChunkSize(c, img.blkSz);
      var parsed := ParsedChunk(ParsedKind(c, body), size, body + |Payload(c)|);
      && OpsCells(ChunkOps(parsed, sectorSize, start) + rest, data) == ChunkCells(c, img, start * sectorSize) + OpsCells(rest, data)
      && (size == 0 ==> ChunkCells(c, img, start * sectorSize) == map[])
      && !BadSize(parsed, sectorSize)
  {
    var size := ChunkSize(c, img.blkSz);
    var ops := ChunkOps(ParsedChunk(ParsedKind(c, body), size, 0), sectorSize, start);
    ChunkCellsOfOp(data, img, c, body, sectorSize, start);
    hide OpCells;
    if c.DontCare? {
      assert ops + rest == rest;
    } else {
      assert (ops + rest)[1..] == rest;
    }
  }

  /** The operation a chunk ending at file position `next` turns into, if any. */
  function NewOps(c: Chunk, img: Image, next: nat, sectorSize: nat, start: nat): seq<Program>
    requires sectorSize > 0 && next >= |Payload(c)|
  {
    if !Writes(c, img) then []
    else [Program(sectorSize, start, ChunkSize(c, img.blkSz) / sectorSize, ParsedKind(c, next - |Payload(c)|))]
  }

  /** One step of loading an encoded image: the chunk's cells, then those of the chunks behind `next`. */
  lemma {:induction false} LoadEncodedChunk(data: seq<byte>, pos: nat, img: Image, c: Chunk, rest: seq<Chunk>, sectorSize: nat, start: nat)
    returns (next: nat)
    requires sectorSize > 0 && GoodImage(img, sectorSize) && GoodChunk(c, img, sectorSize)
    requires pos <= |data| && data[pos..] == EncodeChunk(c, img) + EncodeChunks(rest, img)
    ensures |Payload(c)| <= next <= |data| && data[next..] == EncodeChunks(rest, img)
    ensures var load := LoadChunks(data, HeaderFor(img), pos, |rest| + 1, sectorSize, start);
      var after := LoadChunks(data, HeaderFor(img), next, |rest|, sectorSize, Advance(start, ChunkSize(c, img.blkSz), sectorSize));
      && load.ok == after.ok
      && load.ops == NewOps(c, img, next, sectorSize, start) + after.ops
      && OpsCells(load.ops, data) == ChunkCells(c, img, start * sectorSize) + OpsCells(after.ops, data)
  {
    hide ChunkAt, EncodeChunk, EncodeChunks, GoodImage, OpCells, OpsCells, ChunkCells, ChunkOps, LoadChunks, GoodChunk, BadSize;
    var hdr, size := HeaderFor(img), ChunkSize(c, img.blkSz);
    var body := pos + CHUNK_HEADER_SIZE + |img.chunkExtra|;
    next := body + |Payload(c)|;
    ParseEncodedChunk(data, pos, img, c, EncodeChunks(rest, img), sectorSize);
    LoadStep(data, hdr, pos, |rest| + 1, sectorSize, start);
    var after := LoadChunks(data, hdr, next, |rest|, sectorSize, Advance(start, size, sectorSize));
    CellsOfChunk(data, img, c, body, sectorSize, start, after.ops);
    assert map[] + OpsCells(after.ops, data) == OpsCells(after.ops, data);
    assert [] + after.ops == after.ops;
    if size > 0 {
      OpsOfChunk(c, img, body, next, sectorSize, start);
    }
  }

  lemma OpsOfChunk(c: Chunk, img: Image, body: nat, next: nat, sectorSize: nat, start: nat)
    requires sectorSize > 0 && next == body + |Payload(c)| && ChunkSize(c, img.blkSz) > 0
    ensures ChunkOps(ParsedChunk(ParsedKind(c, body), ChunkSize(c, img.blkSz), next), sectorSize, start) ==
      NewOps(c, img, next, sectorSize, start)
  {
  }

  /**
   * Loading an encoded image gives operations that write exactly its expansion if and only if every
   * chunk that writes begins below sector 2^32.
   */
  lemma LoadWritesExpansion(data: seq<byte>, pos: nat, img: Image, cs: seq<Chunk>, sectorSize: nat, start: nat)
    requires sectorSize > 0 && GoodImage(img, sectorSize)
    requires forall i :: 0 <= i < |cs| ==> GoodChunk(cs[i], img, sectorSize)
    requires pos <= |data| && data[pos..] == EncodeChunks(cs, img)
    ensures var load := LoadChunks(data, HeaderFor(img), pos, |cs|, sectorSize, start % WORD);
      && load.ok
      && (OpsCells(load.ops, data) == Expand(cs, img, start * sectorSize) <==> AllBelow(Intended(cs, img, sectorSize, start)))
  {
    hide EncodeChunks, GoodImage, HeaderFor, LoadChunks, GoodChunk, Expand, OpsCells, Intended, AllBelow;
    LoadIsOk(data, pos, img, cs, sectorSize, start % WORD);
    if AllBelow(Intended(cs, img, sectorSize, start)) {
      WritesExpansion(data, pos, img, cs, sectorSize, start);
    } else {
      var p := MissedCell(data, pos, img, cs, sectorSize, start);
    }
  }

  lemma {:induction false} LoadIsOk(data: seq<byte>, pos: nat, img: Image, cs: seq<Chunk>, sectorSize: nat, start: nat)
    requires sectorSize > 0 && GoodImage(img, sectorSize)
    requires forall i :: 0 <= i < |cs| ==> GoodChunk(cs[i], img, sectorSize)
    requires pos <= |data| && data[pos..] == EncodeChunks(cs, img)
    ensures LoadChunks(data, HeaderFor(img), pos, |cs|, sectorSize, start).ok
    decreases |cs|
  {
    hide EncodeChunk, EncodeChunks, GoodImage, HeaderFor, LoadChunks, ChunkSize, GoodChunk, Advance, NewOps, OpsCells, ChunkCells;
    LoadStep(data, HeaderFor(img), pos, 0, sectorSize, start);
    if cs != [] {
      EncodeStep(cs, img);
      var next := LoadEncodedChunk(data, pos, img, cs[0], cs[1..], sectorSize, start);
      LoadIsOk(data, next, img, cs[1..], sectorSize, Advance(start, ChunkSize(cs[0], img.blkSz), sectorSize));
    }
  }

  /** The first chunk of an image and what follows it, in the file, on the disk and among the start sectors. */
  lemma FirstChunk(data: seq<byte>, pos: nat, img: Image, cs: seq<Chunk>, sectorSize: nat, start: nat) returns (next: nat)
    requires sectorSize > 0 && GoodImage(img, sectorSize) && cs != [] && GoodChunk(cs[0], img, sectorSize)
    requires pos <= |data| && data[pos..] == EncodeChunks(cs, img)
    ensures next <= |data| && data[next..] == EncodeChunks(cs[1..], img)
    ensures var behind := SectorBehind(cs[0], img, sectorSize, start);
      && Written(data, pos, img, cs, sectorSize, start) ==
           ChunkCells(cs[0], img, Address(start % WORD, sectorSize)) + Written(data, next, img, cs[1..], sectorSize, behind)
      && Expand(cs, img, Address(start, sectorSize)) ==
           ChunkCells(cs[0], img, Address(start, sectorSize)) + Expand(cs[1..], img, Address(behind, sectorSize))
      && (AllBelow(Intended(cs, img, sectorSize, start)) <==>
           (Writes(cs[0], img) ==> start < WORD) && AllBelow(Intended(cs[1..], img, sectorSize, behind)))
  {
    hide EncodeChunk, EncodeChunks, GoodImage, ChunkCells, HeaderFor, LoadChunks, ChunkSize, GoodChunk, Expand, OpsCells, NewOps, Advance, Intended, AllBelow, Writes;
    EncodeStep(cs, img);
    next := LoadEncodedChunk(data, pos, img, cs[0], cs[1..], sectorSize, start % WORD);
    ExpandStep(cs, img, sectorSize, start);
    IntendedStep(cs, img, sectorSize, start);
    AdvanceModulo(start, ChunkSize(cs[0], img.blkSz), sectorSize);
  }

  function Address(sector: nat, sectorSize: nat): nat {
    sector * sectorSize
  }

  /** The sector behind a chunk that begins at `start`. */
  function SectorBehind(c: Chunk, img: Image, sectorSize: nat, start: nat): nat
    requires sectorSize > 0
  {
    start + ChunkSize(c, img.blkSz) / sectorSize
  }

  /** What the operations write that chunks at file position `pos` are loaded as. */
  function Written(data: seq<byte>, pos: nat, img: Image, cs: seq<Chunk>, sectorSize: nat, start: nat): Cells
    requires sectorSize > 0
  {
    OpsCells(LoadChunks(data, HeaderFor(img), pos, |cs|, sectorSize, start % WORD).ops, data)
  }

  lemma NothingToWrite(data: seq<byte>, pos: nat, img: Image, sectorSize: nat, start: nat)
    requires sectorSize > 0
    ensures Written(data, pos, img, [], sectorSize, start) == map[] == Expand([], img, start * sectorSize)
  {
    hide HeaderFor;
    LoadStep(data, HeaderFor(img), pos, 0, sectorSize, start % WORD);
    NothingLeft(img, start * sectorSize, data);
  }

  lemma {:induction false} WritesExpansion(data: seq<byte>, pos: nat, img: Image, cs: seq<Chunk>, sectorSize: nat, start: nat)
    requires sectorSize > 0 && GoodImage(img, sectorSize)
    requires forall i :: 0 <= i < |cs| ==> GoodChunk(cs[i], img, sectorSize)
    requires pos <= |data| && data[pos..] == EncodeChunks(cs, img)
    requires AllBelow(Intended(cs, img, sectorSize, start))
    ensures Written(data, pos, img, cs, sectorSize, start) == Expand(cs, img, start * sectorSize)
    decreases |cs|
  {
    hide EncodeChunks, GoodImage, ChunkCells, ChunkSize, GoodChunk, Expand, Intended, AllBelow, Written, Writes;
    if cs == [] {
      NothingToWrite(data, pos, img, sectorSize, start);
    } else {
      var next := FirstChunk(data, pos, img, cs, sectorSize, start);
      WritesExpansion(data, next, img, cs[1..], sectorSize, start + ChunkSize(cs[0], img.blkSz) / sectorSize);
      if !Writes(cs[0], img) {
        IdleChunk(cs[0], img, sectorSize, start % WORD * sectorSize);
        IdleChunk(cs[0], img, sectorSize, start * sectorSize);
      }
    }
  }

  /** A chunk that begins too far on leaves a cell of the expansion unwritten: the last one of the image. */
  lemma {:induction false} MissedCell(data: seq<byte>, pos: nat, img: Image, cs: seq<Chunk>, sectorSize: nat, start: nat) returns (p: nat)
    requires sectorSize > 0 && GoodImage(img, sectorSize)
    requires forall i :: 0 <= i < |cs| ==> GoodChunk(cs[i], img, sectorSize)
    requires pos <= |data| && data[pos..] == EncodeChunks(cs, img)
    requires !AllBelow(Intended(cs, img, sectorSize, start))
    ensures p >= start * sectorSize && p in Expand(cs, img, start * sectorSize)
    ensures p !in Written(data, pos, img, cs, sectorSize, start)
    decreases |cs|
  {
    hide EncodeChunks, GoodImage, ChunkCells, ChunkSize, GoodChunk, Expand, Intended, AllBelow, Written, Writes, StartsMatch;
    NoneIntended(img, sectorSize, start);
    var c, rest := cs[0], cs[1..];
    var behind := start + ChunkSize(c, img.blkSz) / sectorSize;
    var next := FirstChunk(data, pos, img, cs, sectorSize, start);
    if !AllBelow(Intended(rest, img, sectorSize, behind)) {
      p := MissedCell(data, next, img, rest, sectorSize, behind);
      EarlierMisses(c, img, sectorSize, start, p);
    } else {
      NothingBehind(data, next, img, rest, sectorSize, behind);
      p := LastCell(c, img, sectorSize, start);
    }
  }

  lemma NothingBehind(data: seq<byte>, pos: nat, img: Image, cs: seq<Chunk>, sectorSize: nat, start: nat)
    requires sectorSize > 0 && GoodImage(img, sectorSize) && start >= WORD
    requires forall i :: 0 <= i < |cs| ==> GoodChunk(cs[i], img, sectorSize)
    requires pos <= |data| && data[pos..] == EncodeChunks(cs, img)
    requires AllBelow(Intended(cs, img, sectorSize, start))
    ensures Written(data, pos, img, cs, sectorSize, start) == map[]
  {
    hide EncodeChunks, GoodImage, HeaderFor, LoadChunks, GoodChunk, OpsCells, Intended, AllBelow, StartsMatch;
    NoneBehind(cs, img, sectorSize, start);
    StartSectors(data, pos, img, cs, sectorSize, start);
    NothingWritten(LoadChunks(data, HeaderFor(img), pos, |cs|, sectorSize, start % WORD).ops, data);
  }

  predicate Writes(c: Chunk, img: Image) {
    !c.DontCare? && ChunkSize(c, img.blkSz) > 0
  }

  lemma NoneIntended(img: Image, sectorSize: nat, start: nat)
    requires sectorSize > 0
    ensures AllBelow(Intended([], img, sectorSize, start))
  {
  }

  lemma IntendedStep(cs: seq<Chunk>, img: Image, sectorSize: nat, start: nat)
    requires sectorSize > 0 && cs != []
    ensures AllBelow(Intended(cs, img, sectorSize, start)) <==>
      && (Writes(cs[0], img) ==> start < WORD)
      && AllBelow(Intended(cs[1..], img, sectorSize, start + ChunkSize(cs[0], img.blkSz) / sectorSize))
  {
    var first := if Writes(cs[0], img) then [start] else [];
    AllBelowJoin(first, Intended(cs[1..], img, sectorSize, start + ChunkSize(cs[0], img.blkSz) / sectorSize));
  }

  lemma AllBelowJoin(a: seq<nat>, b: seq<nat>)
    ensures AllBelow(a + b) <==> AllBelow(a) && AllBelow(b)
  {
    if AllBelow(a + b) {
      assert forall i :: 0 <= i < |a| ==> a[i] == (a + b)[i];
      assert forall i :: 0 <= i < |b| ==> b[i] == (a + b)[|a| + i];
    }
  }

  lemma IdleChunk(c: Chunk, img: Image, sectorSize: nat, base: nat)
    requires sectorSize > 0 && GoodChunk(c, img, sectorSize) && !Writes(c, img)
    ensures ChunkCells(c, img, base) == map[]
  {
  }

  lemma CellBounds(c: Chunk, img: Image, base: nat, p: nat)
    requires c.Raw? ==> |c.data| == ChunkSize(c, img.blkSz)
    requires p >= base + ChunkSize(c, img.blkSz)
    ensures p !in ChunkCells(c, img, base)
  {
  }

  /** A chunk reaches no cell behind its intended place, wherever it is written. */
  lemma EarlierMisses(c: Chunk, img: Image, sectorSize: nat, start: nat, p: nat)
    requires sectorSize > 0 && GoodChunk(c, img, sectorSize)
    requires p >= (start + ChunkSize(c, img.blkSz) / sectorSize) * sectorSize
    ensures p >= start * sectorSize && p !in ChunkCells(c, img, start % WORD * sectorSize)
  {
    hide ChunkCells;
    SectorBytes(start, ChunkSize(c, img.blkSz), sectorSize);
    MonotoneProduct(start % WORD, start, sectorSize);
    CellBounds(c, img, start % WORD * sectorSize, p);
  }

  /** Chunks behind sector 2^32 that all begin below it do not write. */
  lemma {:induction false} NoneBehind(cs: seq<Chunk>, img: Image, sectorSize: nat, start: nat)
    requires sectorSize > 0 && start >= WORD && AllBelow(Intended(cs, img, sectorSize, start))
    ensures Intended(cs, img, sectorSize, start) == []
  {
    hide AllBelow;
    if cs != [] {
      IntendedStep(cs, img, sectorSize, start);
      NoneBehind(cs[1..], img, sectorSize, start + ChunkSize(cs[0], img.blkSz) / sectorSize);
    }
  }

  lemma NothingWritten(ops: seq<Program>, data: seq<byte>)
    requires StartsMatch(ops, [])
    ensures OpsCells(ops, data) == map[]
  {
  }

  lemma LastCell(c: Chunk, img: Image, sectorSize: nat, start: nat) returns (p: nat)
    requires sectorSize > 0 && GoodChunk(c, img, sectorSize) && Writes(c, img) && start >= WORD
    ensures p >= start * sectorSize && p in ChunkCells(c, img, start * sectorSize)
    ensures p !in ChunkCells(c, img, start % WORD * sectorSize)
  {
    hide ChunkCells;
    var size := ChunkSize(c, img.blkSz);
    SectorBytes(start, size, sectorSize);
    p := start * sectorSize + size - 1;
    MonotoneProduct(start % WORD + 1, start, sectorSize);
    NextProduct(start % WORD, sectorSize);
    CellBounds(c, img, start % WORD * sectorSize, p);
    InChunk(c, img, start * sectorSize, p);
  }

  lemma NextProduct(a: nat, k: nat)
    ensures (a + 1) * k == a * k + k
  {
  }

  lemma InChunk(c: Chunk, img: Image, base: nat, p: nat)
    requires Writes(c, img) && (c.Raw? ==> |c.data| == ChunkSize(c, img.blkSz))
    requires base <= p < base + ChunkSize(c, img.blkSz)
    ensures p in ChunkCells(c, img, base)
  {
  }

  lemma NothingLeft(img: Image, base: nat, data: seq<byte>)
    ensures Expand([], img, base) == map[] && OpsCells([], data) == map[]
  {
  }

  lemma EncodeStep(cs: seq<Chunk>, img: Image)
    requires cs != []
    ensures EncodeChunks(cs, img) == EncodeChunk(cs[0], img) + EncodeChunks(cs[1..], img)
  {
    hide EncodeChunk;
  }

  lemma {:induction false} ExpandStep(cs: seq<Chunk>, img: Image, sectorSize: nat, start: nat)
    requires sectorSize > 0 && cs != [] && GoodChunk(cs[0], img, sectorSize)
    ensures Expand(cs, img, start * sectorSize) ==
      ChunkCells(cs[0], img, start * sectorSize) + Expand(cs[1..], img, (start + ChunkSize(cs[0], img.blkSz) / sectorSize) * sectorSize)
  {
    hide ChunkCells;
    SectorBytes(start, ChunkSize(cs[0], img.blkSz), sectorSize);
  }

  // ------------------------------------------------------------------
  // The write loop
  // ------------------------------------------------------------------

  /** The device end: a program request sets the cursor, raw packets are stored one after the other. */
  class Target {
    var cells: Cells
    var cursor: nat

    method Begin(startSector: nat, sectorSize: nat)
      modifies this
      ensures cells == old(cells) && cursor == startSector * sectorSize
    {
      cursor := startSector * sectorSize;
    }

    method Receive(packet: seq<byte>)
      modifies this
      ensures cells == old(cells) + Place(old(cursor), packet) && cursor == old(cursor) + |packet|
    {
      cells := cells + Place(cursor, packet);
      cursor := cursor + |packet|;
    }
  }

  /** The offset of a byte within its piece. */
  function Within(k: int, piece: nat): (r: int)
    requires piece > 0
    ensures 0 <= r < piece
  {
    k % piece
  }

  function PieceByte(pattern: Pattern, piece: nat, k: int): byte
    requires piece > 0
  {
    pattern[Within(k, piece) % 4]
  }

  /** A fill sent in pieces of `piece` bytes: the pattern restarts with every piece. */
  function RepeatPieces(base: nat, size: nat, piece: nat, pattern: Pattern): Cells
    requires piece > 0
  {
    map p: nat | base <= p < base + size :: PieceByte(pattern, piece, From(base, p))
  }

  /** What one operation writes when it is sent in pieces of `piece` bytes. */
  function SentCells(op: Program, data: seq<byte>, piece: nat): Cells
    requires piece > 0
  {
    if op.kind.FillWith? then
      RepeatPieces(op.startSector * op.sectorSize, op.numSectors * op.sectorSize, piece, LeBytes(op.kind.value, 4))
    else OpCells(op, data)
  }

  /** The pattern keeps its phase whatever the fill value exactly when pieces are whole patterns or there is only one. */
  lemma PhaseKeptExactly(base: nat, size: nat, piece: nat)
    requires piece > 0
    ensures (forall pattern: Pattern :: RepeatPieces(base, size, piece, pattern) == Repeat(base, size, pattern)) <==>
      piece % 4 == 0 || size <= piece
  {
    if piece % 4 == 0 || size <= piece {
      forall pattern: Pattern
        ensures RepeatPieces(base, size, piece, pattern) == Repeat(base, size, pattern)
      {
        PhaseKept(base, size, piece, pattern);
      }
    } else {
      PhaseLost(base, size, piece);
    }
  }

  lemma PhaseKept(base: nat, size: nat, piece: nat, pattern: Pattern)
    requires piece > 0 && (piece % 4 == 0 || size <= piece)
    ensures RepeatPieces(base, size, piece, pattern) == Repeat(base, size, pattern)
  {
    hide Within;
    forall p: nat | base <= p < base + size
      ensures Within(From(base, p), piece) % 4 == From(base, p) % 4
    {
      PieceOffset(p - base, size, piece);
    }
  }

  lemma PhaseLost(base: nat, size: nat, piece: nat)
    requires 0 < piece < size && piece % 4 != 0
    ensures RepeatPieces(base, size, piece, [0, 1, 2, 3]) != Repeat(base, size, [0, 1, 2, 3])
  {
    var p := base + piece;
    WithinPiece(0, 1, piece);
    hide Within;
    assert Within(From(base, p), piece) == 0;
    assert Repeat(base, size, [0, 1, 2, 3])[p] == piece % 4;
    assert RepeatPieces(base, size, piece, [0, 1, 2, 3])[p] == 0;
  }

  lemma PieceOffset(k: nat, size: nat, piece: nat)
    requires piece > 0 && k < size && (piece % 4 == 0 || size <= piece)
    ensures Within(k, piece) % 4 == k % 4
  {
    hide Within;
    if size <= piece {
      SmallModulus(k, piece);
    } else {
      var q := WholePieces(k, piece);
      WholePiece(k, piece, q, Within(k, piece));
    }
  }

  lemma WholePieces(k: nat, piece: nat) returns (q: nat)
    requires piece > 0
    ensures k == piece * q + Within(k, piece)
  {
    q := k / piece;
    QuotientAndRest(k, piece);
  }

  lemma WholePiece(k: nat, piece: nat, q: nat, r: nat)
    requires k == piece * q + r && piece % 4 == 0
    ensures r % 4 == k % 4
  {
    FourTimes(piece);
    WholePatterns(k, q, r, piece / 4, piece);
  }

  lemma FourTimes(piece: nat)
    requires piece % 4 == 0
    ensures piece == 4 * (piece / 4)
  {
  }

  lemma WholePatterns(k: nat, q: nat, r: nat, w: nat, piece: nat)
    requires k == piece * q + r && piece == 4 * w
    ensures r % 4 == k % 4
  {
    EqualFactors(q, piece, 4 * w);
    Regroup(w, q);
    DropMultiple(r, w * q);
  }

  lemma Regroup(w: nat, q: nat)
    ensures (4 * w) * q == 4 * (w * q)
  {
  }

  lemma SmallModulus(k: nat, piece: nat)
    requires k < piece
    ensures Within(k, piece) == k
  {
  }

  lemma QuotientAndRest(k: nat, piece: nat)
    requires piece > 0
    ensures k == piece * (k / piece) + k % piece
  {
  }

  lemma DropMultiple(r: nat, q: nat)
    ensures (4 * q + r) % 4 == r % 4
  {
  }

  lemma PlaceConcat(base: nat, a: seq<byte>, b: seq<byte>)
    ensures Place(base, a) + Place(base + |a|, b) == Place(base, a + b)
  {
  }

  lemma PaddedConcat(data: seq<byte>, offset: nat, a: nat, b: nat)
    ensures Padded(data, offset, a) + Padded(data, offset + a, b) == Padded(data, offset, a + b)
  {
  }

  /** The bytes of one raw packet: as much of the file as there is, then zeros. */
  method FillBuffer(buf: array<byte>, file: ImageFile, want: nat)
    requires want <= buf.Length
    modifies buf, file
    ensures buf[..want] == Padded(file.data, old(file.pos), want)
    ensures file.pos == old(file.pos) + |ReadAt(file.data, old(file.pos), want)|
  {
    var s := file.Read(want);
    forall k | 0 <= k < |s| {
      buf[k] := s[k];
    }
    forall k | |s| <= k < buf.Length {
      buf[k] := 0;
    }
  }

  /** Repeats a pattern; the last copy reaches beyond a buffer that is not a multiple of four bytes. */
  method FillPattern(buf: array<byte>, pattern: Pattern) returns (inside: bool)
    modifies buf
    ensures forall k :: 0 <= k < buf.Length ==> buf[k] == pattern[k % 4]
    ensures inside <==> buf.Length % 4 == 0
  {
    var i := 0;
    while i < buf.Length
      invariant 0 <= i < buf.Length + 4 && i % 4 == 0
      invariant forall k :: 0 <= k < i && k < buf.Length ==> buf[k] == pattern[k % 4]
    {
      for j := 0 to 4
        invariant forall k :: 0 <= k < i + j && k < buf.Length ==> buf[k] == pattern[k % 4]
      {
        if i + j < buf.Length {
          buf[i + j] := pattern[j];
        }
      }
      i := i + 4;
    }
    inside := i == buf.Length;
  }

  /** Sends one write operation to the target in pieces of as many whole sectors as a payload holds. */
  method FirehoseProgram(op: Program, file: ImageFile, maxPayload: nat, target: Target) returns (inside: bool)
    requires op.sectorSize > 0 && maxPayload >= op.sectorSize
    modifies file, target
    ensures inside <==> !op.kind.FillWith? || maxPayload % 4 == 0
    ensures target.cells == old(target.cells) + SentCells(op, file.data, maxPayload / op.sectorSize * op.sectorSize)
  {
    var buf := new byte[maxPayload];
    inside := true;
    target.Begin(op.startSector, op.sectorSize);
    match op.kind {
      case RawAt(offset) =>
        file.pos := offset;
        SendRaw(op, offset, file, buf, target);
      case FillWith(value) =>
        inside := FillPattern(buf, LeBytes(value, 4));
        SendFill(op, LeBytes(value, 4), buf, target);
      case Skip =>
    }
  }

  lemma EmptyPlace(base: nat, data: seq<byte>, offset: nat)
    ensures Place(base, Padded(data, offset, 0)) == map[]
  {
  }

  /** A packet of whole sectors fits the payload and brings the count forward. */
  lemma PacketFits(payload: nat, sectorSize: nat, left: nat, total: nat)
    requires 0 < sectorSize <= payload && 0 < left <= total
    ensures var chunk := if payload / sectorSize < left then payload / sectorSize else left;
      && 0 < chunk && chunk * sectorSize <= payload / sectorSize * sectorSize <= payload
      && (total - left) * sectorSize + chunk * sectorSize == (total - (left - chunk)) * sectorSize
  {
    var per := payload / sectorSize;
    QuotientAndRest(payload, sectorSize);
    var chunk := if per < left then per else left;
    MonotoneProduct(chunk, per, sectorSize);
  }

  lemma MonotoneProduct(a: nat, b: nat, k: nat)
    requires a <= b
    ensures a * k <= b * k
  {
  }

  /** Past the end of the file every position reads the same. */
  lemma SamePastEnd(data: seq<byte>, a: nat, b: nat, n: nat)
    requires a == b || (a >= |data| && b >= |data|)
    ensures Padded(data, a, n) == Padded(data, b, n)
  {
  }

  method SendRaw(op: Program, offset: nat, file: ImageFile, buf: array<byte>, target: Target)
    requires op.sectorSize > 0 && buf.Length >= op.sectorSize && file.pos == offset
    requires target.cursor == op.startSector * op.sectorSize
    modifies file, target, buf
    ensures target.cells == old(target.cells) +
      Place(op.startSector * op.sectorSize, Padded(file.data, offset, op.numSectors * op.sectorSize))
  {
    hide Place, Padded;
    var left, perPacket := op.numSectors, buf.Length / op.sectorSize;
    ghost var base, done := op.startSector * op.sectorSize, 0;
    EmptyPlace(base, file.data, offset);
    assert old(target.cells) + map[] == old(target.cells);
    while left > 0
      invariant 0 <= left <= op.numSectors
      invariant done == (op.numSectors - left) * op.sectorSize && target.cursor == base + done
      invariant file.pos == offset + done || (file.pos >= |file.data| && offset + done >= |file.data|)
      invariant target.cells == old(target.cells) + Place(base, Padded(file.data, offset, done))
    {
      var chunk := if perPacket < left then perPacket else left;
      PacketFits(buf.Length, op.sectorSize, left, op.numSectors);
      var n := chunk * op.sectorSize;
      ghost var cells := target.cells;
      SamePastEnd(file.data, offset + done, file.pos, n);
      FillBuffer(buf, file, n);
      target.Receive(buf[..n]);
      PaddedConcat(file.data, offset, done, n);
      PlaceConcat(base, Padded(file.data, offset, done), Padded(file.data, offset + done, n));
      left := left - chunk;
      done := done + n;
    }
  }

  /** One more piece of the fill: it starts a new pattern because everything before it is whole pieces. */
  lemma RepeatConcat(base: nat, done: nat, n: nat, piece: nat, q: nat, pattern: Pattern, packet: seq<byte>)
    requires piece > 0 && done == q * piece && n == |packet| <= piece
    requires forall k :: 0 <= k < n ==> packet[k] == pattern[k % 4]
    ensures RepeatPieces(base, done, piece, pattern) + Place(base + done, packet) == RepeatPieces(base, done + n, piece, pattern)
  {
    forall p: nat | base + done <= p < base + done + n
      ensures packet[From(base + done, p)] == PieceByte(pattern, piece, From(base, p))
    {
      WithinPiece(p - base - done, q, piece);
    }
    hide PieceByte;
  }

  lemma WithinPiece(j: nat, q: nat, piece: nat)
    requires j < piece
    ensures Within(q * piece + j, piece) == j
  {
    hide Within;
    var k := q * piece + j;
    var pieces := WholePieces(k, piece);
    var d := q - pieces;
    assert piece * d == Within(k, piece) - j;
    if d >= 1 {
      MonotoneProduct(1, d, piece);
    } else if d <= -1 {
      MonotoneProduct(1, -d, piece);
    }
  }

  method SendFill(op: Program, pattern: Pattern, buf: array<byte>, target: Target)
    requires op.sectorSize > 0 && buf.Length >= op.sectorSize
    requires forall k :: 0 <= k < buf.Length ==> buf[k] == pattern[k % 4]
    requires target.cursor == op.startSector * op.sectorSize
    requires buf.Length / op.sectorSize * op.sectorSize > 0
    modifies target
    ensures target.cells == old(target.cells) +
      RepeatPieces(op.startSector * op.sectorSize, op.numSectors * op.sectorSize, buf.Length / op.sectorSize * op.sectorSize, pattern)
  {
    hide Place, RepeatPieces;
    var left, perPacket := op.numSectors, buf.Length / op.sectorSize;
    ghost var base, piece, done, sent := op.startSector * op.sectorSize, perPacket * op.sectorSize, 0, 0;
    EmptyRepeat(base, piece, pattern);
    assert old(target.cells) + map[] == old(target.cells);
    while left > 0
      invariant 0 <= left <= op.numSectors
      invariant done == (op.numSectors - left) * op.sectorSize && target.cursor == base + done
      invariant left > 0 ==> done == sent * piece
      invariant target.cells == old(target.cells) + RepeatPieces(base, done, piece, pattern)
    {
      var chunk := if perPacket < left then perPacket else left;
      PacketFits(buf.Length, op.sectorSize, left, op.numSectors);
      var n := chunk * op.sectorSize;
      target.Receive(buf[..n]);
      RepeatConcat(base, done, n, piece, sent, pattern, buf[..n]);
      NextPiece(sent, piece);
      left := left - chunk;
      done := done + n;
      sent := sent + 1;
    }
  }

  lemma NextPiece(sent: nat, piece: nat)
    ensures sent * piece + piece == (sent + 1) * piece
  {
  }

  lemma EmptyRepeat(base: nat, piece: nat, pattern: Pattern)
    requires piece > 0
    ensures RepeatPieces(base, 0, piece, pattern) == map[]
  {
  }

  // ------------------------------------------------------------------
  // The whole flash
  // ------------------------------------------------------------------

  /** Loads a sparse file and runs the resulting operations in order; false when loading fails. */
  method FlashSparse(data: seq<byte>, sectorSize: nat, numSectors: nat, startSector: nat, maxPayload: nat, target: Target) returns (ok: bool)
    requires sectorSize > 0 && startSector < WORD && maxPayload >= sectorSize
    requires HeaderOf(data).Some?
    modifies target
    ensures var h := HeaderOf(data).value;
      var load := LoadChunks(data, h, Skipped(0, h.fileHdrSz, HEADER_SIZE), h.totalChunks, sectorSize, startSector);
      && ok == load.ok && OpsFit(load.ops, maxPayload)
      && target.cells == if ok then old(target.cells) + AllSent(load.ops, data, maxPayload) else old(target.cells)
  {
    hide HeaderOf, LoadChunks, SentCells, Skipped, AllSent;
    NoneSent(data, maxPayload);
    var file := new ImageFile(data);
    var loaded := ProgramLoadSparse(file, sectorSize, numSectors, startSector);
    ghost var h := HeaderOf(data).value;
    LoadedOpsFit(data, h, Skipped(0, h.fileHdrSz, HEADER_SIZE), h.totalChunks, sectorSize, startSector);
    ok := loaded.load.ok;
    if ok {
      var ops := loaded.load.ops;
      assert old(target.cells) + map[] == old(target.cells);
      for i := 0 to |ops|
        invariant target.cells == old(target.cells) + AllSent(ops[..i], data, maxPayload)
      {
        AllSentStep(ops, i, data, maxPayload);
        var inside := FirehoseProgram(ops[i], file, maxPayload, target);
      }
      assert ops[..|ops|] == ops;
    }
  }

  predicate OpsFit(ops: seq<Program>, maxPayload: nat) {
    forall op :: op in ops ==> 0 < op.sectorSize <= maxPayload
  }

  function AllSent(ops: seq<Program>, data: seq<byte>, maxPayload: nat): Cells
    requires OpsFit(ops, maxPayload)
  {
    if ops == [] then map[]
    else
      var op := ops[|ops| - 1];
      PieceIsPositive(maxPayload, op.sectorSize);
      AllSent(ops[..|ops| - 1], data, maxPayload) + SentCells(op, data, maxPayload / op.sectorSize * op.sectorSize)
  }

  lemma NoneSent(data: seq<byte>, maxPayload: nat)
    ensures AllSent([], data, maxPayload) == map[]
  {
  }

  lemma {:induction false} AllSentStep(ops: seq<Program>, i: nat, data: seq<byte>, maxPayload: nat)
    requires i < |ops| && OpsFit(ops, maxPayload)
    ensures 0 < ops[i].sectorSize <= maxPayload && maxPayload / ops[i].sectorSize * ops[i].sectorSize > 0
    ensures AllSent(ops[..i + 1], data, maxPayload) ==
      AllSent(ops[..i], data, maxPayload) + SentCells(ops[i], data, maxPayload / ops[i].sectorSize * ops[i].sectorSize)
  {
    hide SentCells;
    assert ops[i] in ops;
    PieceIsPositive(maxPayload, ops[i].sectorSize);
    assert ops[..i + 1][..i] == ops[..i];
  }

  lemma PieceIsPositive(payload: nat, sectorSize: nat)
    requires 0 < sectorSize <= payload
    ensures payload / sectorSize * sectorSize > 0
  {
    PacketFits(payload, sectorSize, 1, 1);
  }

  lemma {:induction false} LoadedOpsFit(data: seq<byte>, hdr: SparseHeader, pos: nat, count: nat, sectorSize: nat, start: nat)
    requires sectorSize > 0
    ensures forall op :: op in LoadChunks(data, hdr, pos, count, sectorSize, start).ops ==> op.sectorSize == sectorSize
    decreases count
  {
    hide ChunkAt;
    if count > 0 && ChunkAt(data, pos, hdr).Some? {
      var c := ChunkAt(data, pos, hdr).value;
      LoadedOpsFit(data, hdr, c.next, count - 1, sectorSize, Advance(start, c.size, sectorSize));
    }
  }

  /** Sending every operation in pieces has the effect of the operations themselves. */
  lemma {:induction false} SentIsWritten(ops: seq<Program>, data: seq<byte>, sectorSize: nat, maxPayload: nat)
    requires 0 < sectorSize <= maxPayload && maxPayload / sectorSize * sectorSize % 4 == 0
    requires forall op :: op in ops ==> op.sectorSize == sectorSize
    ensures OpsFit(ops, maxPayload) && AllSent(ops, data, maxPayload) == OpsCells(ops, data)
  {
    hide SentCells, OpCells;
    if ops != [] {
      var k := |ops| - 1;
      SentIsWritten(ops[..k], data, sectorSize, maxPayload);
      assert ops[k] in ops;
      PieceIsPositive(maxPayload, sectorSize);
      SentOpIsWritten(ops[k], data, maxPayload / sectorSize * sectorSize);
      OpsCellsAppend(ops[..k], ops[k], data);
      assert ops == ops[..k] + [ops[k]];
    }
  }

  lemma SentOpIsWritten(op: Program, data: seq<byte>, piece: nat)
    requires piece > 0 && piece % 4 == 0
    ensures SentCells(op, data, piece) == OpCells(op, data)
  {
    if op.kind.FillWith? {
      PhaseKept(op.startSector * op.sectorSize, op.numSectors * op.sectorSize, piece, LeBytes(op.kind.value, 4));
    }
  }

  lemma {:induction false} OpsCellsAppend(ops: seq<Program>, op: Program, data: seq<byte>)
    ensures OpsCells(ops + [op], data) == OpsCells(ops, data) + OpCells(op, data)
  {
    hide OpCells;
    if ops == [] {
      assert [] + [op] == [op];
      assert map[] + OpCells(op, data) == OpCells(op, data);
    } else {
      assert (ops + [op])[1..] == ops[1..] + [op];
      OpsCellsAppend(ops[1..], op, data);
    }
  }

  /**
   * Flashing the file of any good image, with whole patterns in a sector or in a packet, leaves the
   * disk overlaid with the expanded image, RAW bytes, FILL patterns in phase and DON'T-CARE ranges
   * untouched, if and only if every chunk that writes begins below sector 2^32.
   */
  method FlashImage(img: Image, sectorSize: nat, numSectors: nat, startSector: nat, maxPayload: nat, target: Target)
      returns (ghost wrote: Cells)
    requires 0 < sectorSize <= maxPayload && (sectorSize % 4 == 0 || maxPayload / sectorSize * sectorSize % 4 == 0)
    requires GoodImage(img, sectorSize) && startSector < WORD
    modifies target
    ensures target.cells == old(target.cells) + wrote
    ensures wrote == Expand(img.chunks, img, startSector * sectorSize) <==> AllBelow(Intended(img.chunks, img, sectorSize, startSector))
  {
    hide HeaderOf, LoadChunks, Encode, EncodeChunks, Expand, OpsCells, AllSent, Intended, AllBelow;
    ParseEncodedHeader(img, sectorSize);
    if sectorSize % 4 == 0 {
      MultipleOfFour(maxPayload / sectorSize, sectorSize);
    }
    ghost var pos := HEADER_SIZE + |img.headerExtra|;
    ghost var ops := LoadChunks(Encode(img), HeaderFor(img), pos, |img.chunks|, sectorSize, startSector).ops;
    LoadWritesExpansion(Encode(img), pos, img, img.chunks, sectorSize, startSector);
    LoadedOpsFit(Encode(img), HeaderFor(img), pos, |img.chunks|, sectorSize, startSector);
    SentIsWritten(ops, Encode(img), sectorSize, maxPayload);
    wrote := OpsCells(ops, Encode(img));
    var ok := FlashSparse(Encode(img), sectorSize, numSectors, startSector, maxPayload, target);
  }

  /** With a sector size that is a multiple of 4, any number of whole sectors keeps the fill phase. */
  lemma MultipleOfFour(n: nat, k: nat)
    requires k % 4 == 0
    ensures n * k % 4 == 0
  {
    EqualFactors(n, k, 4 * (k / 4));
    FourfoldProduct(n, k / 4);
    DropMultiple(0, n * (k / 4));
  }

  lemma EqualFactors(n: nat, a: nat, b: nat)
    requires a == b
    ensures n * a == n * b
  {
  }

  lemma FourfoldProduct(n: nat, w: nat)
    ensures n * (4 * w) == 4 * (n * w) + 0
  {
  }

  // ------------------------------------------------------------------
  // Start sectors
  // ------------------------------------------------------------------

  /** Where the writing chunks of an image at `start` belong, without any wrap-around. */
  function Intended(cs: seq<Chunk>, img: Image, sectorSize: nat, start: nat): seq<nat>
    requires sectorSize > 0
  {
    if cs == [] then []
    else
      var size := ChunkSize(cs[0], img.blkSz);
      (if Writes(cs[0], img) then [start] else []) + Intended(cs[1..], img, sectorSize, start + size / sectorSize)
  }

  ghost predicate AllBelow(starts: seq<nat>) {
    forall i :: 0 <= i < |starts| ==> starts[i] < WORD
  }

  /** Start sectors are the intended ones modulo 2^32. */
  predicate StartsMatch(ops: seq<Program>, want: seq<nat>) {
    |ops| == |want| && forall i :: 0 <= i < |ops| ==> ops[i].startSector == want[i] % WORD
  }

  lemma StartsMatchConcat(a: seq<Program>, b: seq<Program>, u: seq<nat>, v: seq<nat>)
    requires StartsMatch(a, u) && StartsMatch(b, v)
    ensures StartsMatch(a + b, u + v)
  {
  }

  lemma {:induction false} StartSectors(data: seq<byte>, pos: nat, img: Image, cs: seq<Chunk>, sectorSize: nat, start: nat)
    requires sectorSize > 0 && GoodImage(img, sectorSize)
    requires forall i :: 0 <= i < |cs| ==> GoodChunk(cs[i], img, sectorSize)
    requires pos <= |data| && data[pos..] == EncodeChunks(cs, img)
    ensures StartsMatch(LoadChunks(data, HeaderFor(img), pos, |cs|, sectorSize, start % WORD).ops, Intended(cs, img, sectorSize, start))
    decreases |cs|
  {
    hide EncodeChunk, GoodImage, HeaderFor, LoadChunks, ChunkSize, GoodChunk, Advance, NewOps, StartsMatch, OpsCells, ChunkCells;
    LoadStep(data, HeaderFor(img), pos, 0, sectorSize, start % WORD);
    NothingMatches();
    if cs != [] {
      var c, rest := cs[0], cs[1..];
      var size := ChunkSize(c, img.blkSz);
      var next := LoadEncodedChunk(data, pos, img, c, rest, sectorSize, start % WORD);
      StartSectors(data, next, img, rest, sectorSize, start + size / sectorSize);
      AdvanceModulo(start, size, sectorSize);
      FirstMatches(c, img, next, sectorSize, start);
      StartsMatchConcat(NewOps(c, img, next, sectorSize, start % WORD),
                        LoadChunks(data, HeaderFor(img), next, |rest|, sectorSize, Advance(start % WORD, size, sectorSize)).ops,
                        if Writes(c, img) then [start] else [],
                        Intended(rest, img, sectorSize, start + size / sectorSize));
    }
  }

  lemma NothingMatches()
    ensures StartsMatch([], [])
  {
  }

  lemma FirstMatches(c: Chunk, img: Image, next: nat, sectorSize: nat, start: nat)
    requires sectorSize > 0 && next >= |Payload(c)|
    ensures StartsMatch(NewOps(c, img, next, sectorSize, start % WORD), if Writes(c, img) then [start] else [])
  {
  }

  lemma AdvanceModulo(start: nat, size: nat, sectorSize: nat)
    requires sectorSize > 0
    ensures Advance(start % WORD, size, sectorSize) == (start + size / sectorSize) % WORD
  {
    if size > 0 {
      var n := size / sectorSize;
      assert start == WORD * (start / WORD) + start % WORD;
      ModuloSum(start, n);
    }
  }

  lemma ModuloSum(a: nat, n: nat)
    ensures (a % WORD + n) % WORD == (a + n) % WORD
  {
  }

  /** Operations follow one another: each starts where the one before it ends, or later, and all stay below `limit`. */
  predicate Ascending(ops: seq<Program>, from: nat, limit: nat) {
    if ops == [] then from <= limit
    else from <= ops[0].startSector && Ascending(ops[1..], ops[0].startSector + ops[0].numSectors, limit)
  }

  lemma SectorsOfNone(img: Image, sectorSize: nat)
    requires sectorSize > 0
    ensures Sectors([], img, sectorSize) == 0
    ensures forall from: nat, limit: nat :: from <= limit ==> Ascending([], from, limit)
  {
  }

  lemma {:induction false} OpsAscend(data: seq<byte>, pos: nat, img: Image, cs: seq<Chunk>, sectorSize: nat, from: nat, start: nat)
    requires sectorSize > 0 && GoodImage(img, sectorSize)
    requires forall i :: 0 <= i < |cs| ==> GoodChunk(cs[i], img, sectorSize)
    requires pos <= |data| && data[pos..] == EncodeChunks(cs, img)
    requires from <= start && AllBelow(Intended(cs, img, sectorSize, start))
    ensures Ascending(LoadChunks(data, HeaderFor(img), pos, |cs|, sectorSize, start % WORD).ops, from, start + Sectors(cs, img, sectorSize))
    decreases |cs|
  {
    hide EncodeChunk, GoodImage, HeaderFor, LoadChunks, ChunkSize, GoodChunk, ParsedKind, ChunkCells, OpsCells, Writes, Sectors, Advance, Ascending, NewOps, Intended, AllBelow;
    SectorsOfNone(img, sectorSize);
    if cs == [] {
      LoadStep(data, HeaderFor(img), pos, 0, sectorSize, start % WORD);
    } else {
      var size := ChunkSize(cs[0], img.blkSz);
      var n := size / sectorSize;
      var next := LoadEncodedChunk(data, pos, img, cs[0], cs[1..], sectorSize, start % WORD);
      SectorsStep(cs, img, sectorSize);
      IntendedStep(cs, img, sectorSize, start);
      AdvanceModulo(start, size, sectorSize);
      var ops := NewOps(cs[0], img, next, sectorSize, start % WORD);
      var after := LoadChunks(data, HeaderFor(img), next, |cs| - 1, sectorSize, (start + n) % WORD).ops;
      var reached := if ops == [] then from else start + n;
      FirstAscends(cs[0], img, next, sectorSize, start, from);
      OpsAscend(data, next, img, cs[1..], sectorSize, reached, start + n);
      AscendingConcat(ops, after, from, reached, start + Sectors(cs, img, sectorSize));
    }
  }

  lemma SectorsStep(cs: seq<Chunk>, img: Image, sectorSize: nat)
    requires sectorSize > 0 && cs != []
    ensures Sectors(cs, img, sectorSize) == ChunkSize(cs[0], img.blkSz) / sectorSize + Sectors(cs[1..], img, sectorSize)
  {
  }

  lemma {:induction false} AscendingConcat(ops: seq<Program>, after: seq<Program>, from: nat, reached: nat, limit: nat)
    requires |ops| <= 1 && Ascending(ops, from, reached) && Ascending(after, reached, limit)
    ensures Ascending(ops + after, from, limit)
  {
    if ops == [] {
      assert ops + after == after;
      AscendingEarlier(after, from, reached, limit);
    } else {
      assert (ops + after)[1..] == after;
      assert Ascending(ops[1..], ops[0].startSector + ops[0].numSectors, reached);
      AscendingEarlier(after, ops[0].startSector + ops[0].numSectors, reached, limit);
    }
  }

  lemma {:induction false} AscendingEarlier(ops: seq<Program>, from: nat, later: nat, limit: nat)
    requires from <= later && Ascending(ops, later, limit)
    ensures Ascending(ops, from, limit)
  {
  }

  lemma FirstAscends(c: Chunk, img: Image, next: nat, sectorSize: nat, start: nat, from: nat)
    requires sectorSize > 0 && next >= |Payload(c)| && from <= start && GoodChunk(c, img, sectorSize)
    requires Writes(c, img) ==> start < WORD
    ensures var ops := NewOps(c, img, next, sectorSize, start % WORD);
      |ops| <= 1 && Ascending(ops, from, if ops == [] then from else start + ChunkSize(c, img.blkSz) / sectorSize)
  {
    var size := ChunkSize(c, img.blkSz);
    SectorBytes(start, size, sectorSize);
  }
}
