/**
 * Android sparse images: the header and chunk parsers, and the expansion of an image
 * into program operations with advancing start sectors.
 */
module Sparse {
  import opened Bytes
  import Seqs

  const SPARSE_HEADER_MAGIC := 0xed26ff3a
  const SPARSE_HEADER_MAJOR_VER := 1
  const SPARSE_HEADER_MINOR_VER := 0
  const HEADER_SIZE := 28
  const CHUNK_HEADER_SIZE := 12
  const CHUNK_TYPE_RAW := 0xCAC1
  const CHUNK_TYPE_FILL := 0xCAC2
  const CHUNK_TYPE_DONT_CARE := 0xCAC3
  const UINT_MAX := 0xFFFF_FFFF
  const WORD := 0x1_0000_0000

  datatype SparseHeader = SparseHeader(fileHdrSz: nat, chunkHdrSz: nat, blkSz: nat, totalChunks: nat)

  /** A chunk as parsed: RAW remembers where its bytes are in the file. */
  datatype ChunkKind = RawAt(offset: nat) | FillWith(value: nat) | Skip

  datatype ParsedChunk = ParsedChunk(kind: ChunkKind, size: nat, next: nat)

  /** One write request: `numSectors` sectors at `startSector`, from the file or from a pattern. */
  datatype Program = Program(sectorSize: nat, startSector: nat, numSectors: nat, kind: ChunkKind)

  // ------------------------------------------------------------------
  // Reading the file
  // ------------------------------------------------------------------

  /** What a read of at most `n` bytes at `pos` delivers; nothing past the end of the file. */
  function ReadAt(data: seq<byte>, pos: nat, n: nat): (s: seq<byte>)
    ensures |s| <= n
  {
    if pos >= |data| then [] else if pos + n <= |data| then data[pos..pos + n] else data[pos..]
  }

  function Field(s: seq<byte>, at: nat, width: nat): nat
    requires at + width <= |s|
  {
    LeValue(s[at..at + width])
  }

  function HeaderOf(data: seq<byte>): Option<SparseHeader> {
    var s := ReadAt(data, 0, HEADER_SIZE);
    if |s| != HEADER_SIZE || Field(s, 0, 4) != SPARSE_HEADER_MAGIC || Field(s, 4, 2) != SPARSE_HEADER_MAJOR_VER
       || Field(s, 6, 2) != SPARSE_HEADER_MINOR_VER then None
    else Some(SparseHeader(Field(s, 8, 2), Field(s, 10, 2), Field(s, 12, 4), Field(s, 20, 4)))
  }

  /** Header bytes beyond the known ones are skipped; a declared size below that skips nothing. */
  function Skipped(pos: nat, declared: nat, known: nat): nat {
    if declared > known then pos + known + (declared - known) else pos + known
  }

  function ChunkAt(data: seq<byte>, pos: nat, hdr: SparseHeader): Option<ParsedChunk> {
    var s := ReadAt(data, pos, CHUNK_HEADER_SIZE);
    if |s| != CHUNK_HEADER_SIZE then None
    else
      var body := Skipped(pos, hdr.chunkHdrSz, CHUNK_HEADER_SIZE);
      var kind, size, total := Field(s, 0, 2), Field(s, 4, 4) * hdr.blkSz, Field(s, 8, 4);
      if kind == CHUNK_TYPE_RAW then
        if total != hdr.chunkHdrSz + size then None else Some(ParsedChunk(RawAt(body), size, body + size))
      else if kind == CHUNK_TYPE_DONT_CARE then
        if total != hdr.chunkHdrSz then None else Some(ParsedChunk(Skip, size, body))
      else if kind == CHUNK_TYPE_FILL then
        if total != hdr.chunkHdrSz + 4 || |ReadAt(data, body, 4)| != 4 then None
        else Some(ParsedChunk(FillWith(LeValue(ReadAt(data, body, 4))), size, body + 4))
      else None
  }

  class ImageFile {
    const data: seq<byte>
    var pos: nat

    constructor (data: seq<byte>)
      ensures this.data == data && pos == 0
    {
      this.data := data;
      pos := 0;
    }

    method Read(n: nat) returns (s: seq<byte>)
      modifies this
      ensures s == ReadAt(data, old(pos), n) && pos == old(pos) + |s|
    {
      s := if pos >= |data| then [] else if pos + n <= |data| then data[pos..pos + n] else data[pos..];
      pos := pos + |s|;
    }

    /** Moves forward; positions past the end are allowed. */
    method SeekForward(n: nat)
      modifies this
      ensures pos == old(pos) + n
    {
      pos := pos + n;
    }

    method ParseHeader() returns (hdr: Option<SparseHeader>)
      modifies this
      ensures hdr == HeaderOf(data)
      ensures hdr.Some? ==> pos == Skipped(0, hdr.value.fileHdrSz, HEADER_SIZE)
    {
      pos := 0;
      var s := Read(HEADER_SIZE);
      if |s| != HEADER_SIZE {
        return None;
      }
      if Field(s, 0, 4) != SPARSE_HEADER_MAGIC {
        return None;
      }
      if Field(s, 4, 2) != SPARSE_HEADER_MAJOR_VER {
        return None;
      }
      if Field(s, 6, 2) != SPARSE_HEADER_MINOR_VER {
        return None;
      }
      var h := SparseHeader(Field(s, 8, 2), Field(s, 10, 2), Field(s, 12, 4), Field(s, 20, 4));
      if h.fileHdrSz > HEADER_SIZE {
        SeekForward(h.fileHdrSz - HEADER_SIZE);
      }
      hdr := Some(h);
    }

    method ParseChunkHeader(hdr: SparseHeader) returns (chunk: Option<ParsedChunk>)
      modifies this
      ensures chunk == ChunkAt(data, old(pos), hdr)
      ensures chunk.Some? ==> pos == chunk.value.next
    {
      hide Field, LeValue;
      var s := Read(CHUNK_HEADER_SIZE);
      if |s| != CHUNK_HEADER_SIZE {
        return None;
      }
      if hdr.chunkHdrSz > CHUNK_HEADER_SIZE {
        SeekForward(hdr.chunkHdrSz - CHUNK_HEADER_SIZE);
      }
      var kind, size, total := Field(s, 0, 2), Field(s, 4, 4) * hdr.blkSz, Field(s, 8, 4);
      if kind == CHUNK_TYPE_RAW {
        if total != hdr.chunkHdrSz + size {
          return None;
        }
        var offset := pos;
        SeekForward(size);
        chunk := Some(ParsedChunk(RawAt(offset), size, pos));
      } else if kind == CHUNK_TYPE_DONT_CARE {
        if total != hdr.chunkHdrSz {
          return None;
        }
        chunk := Some(ParsedChunk(Skip, size, pos));
      } else if kind == CHUNK_TYPE_FILL {
        if total != hdr.chunkHdrSz + 4 {
          return None;
        }
        var fill := Read(4);
        if |fill| != 4 {
          return None;
        }
        chunk := Some(ParsedChunk(FillWith(LeValue(fill)), size, pos));
      } else {
        chunk := None;
      }
    }
  }

  // ------------------------------------------------------------------
  // Chunks to program operations
  // ------------------------------------------------------------------

  /** Outcome of loading the remaining chunks: whether all were good, the operations, the next sector. */
  datatype Load = Load(ok: bool, ops: seq<Program>, start: nat)

  /** The start sector after a chunk: a 32-bit counter that only non-empty chunks move. */
  function Advance(start: nat, size: nat, sectorSize: nat): nat
    requires sectorSize > 0
  {
    if size == 0 then start else (start + size / sectorSize) % WORD
  }

  function LoadChunks(data: seq<byte>, hdr: SparseHeader, pos: nat, count: nat, sectorSize: nat, start: nat): Load
    requires sectorSize > 0
    decreases count
  {
    if count == 0 then Load(true, [], start)
    else
      match ChunkAt(data, pos, hdr)
      case None => Load(false, [], start)
      case Some(c) =>
        if c.size == 0 then LoadChunks(data, hdr, c.next, count - 1, sectorSize, start)
        else if BadSize(c, sectorSize) then Load(false, [], start)
        else
          var rest := LoadChunks(data, hdr, c.next, count - 1, sectorSize, Advance(start, c.size, sectorSize));
          rest.(ops := ChunkOps(c, sectorSize, start) + rest.ops)
  }

  function ChunkOps(c: ParsedChunk, sectorSize: nat, start: nat): seq<Program>
    requires sectorSize > 0
  {
    if c.kind.Skip? then [] else [Program(sectorSize, start, c.size / sectorSize, c.kind)]
  }

  predicate BadSize(c: ParsedChunk, sectorSize: nat)
    requires sectorSize > 0
  {
    c.size % sectorSize != 0 || c.size / sectorSize >= UINT_MAX
  }

  function AfterChunk(data: seq<byte>, hdr: SparseHeader, pos: nat, count: nat, sectorSize: nat, start: nat): Load
    requires sectorSize > 0 && count > 0
  {
    match ChunkAt(data, pos, hdr)
    case None => Load(false, [], start)
    case Some(c) =>
      if c.size == 0 then LoadChunks(data, hdr, c.next, count - 1, sectorSize, start)
      else if BadSize(c, sectorSize) then Load(false, [], start)
      else
        var rest := LoadChunks(data, hdr, c.next, count - 1, sectorSize, Advance(start, c.size, sectorSize));
        Load(rest.ok, ChunkOps(c, sectorSize, start) + rest.ops, rest.start)
  }

  lemma {:induction false} LoadStep(data: seq<byte>, hdr: SparseHeader, pos: nat, count: nat, sectorSize: nat, start: nat)
    requires sectorSize > 0
    ensures count == 0 ==> LoadChunks(data, hdr, pos, count, sectorSize, start) == Load(true, [], start)
    ensures count > 0 ==>
      LoadChunks(data, hdr, pos, count, sectorSize, start) == AfterChunk(data, hdr, pos, count, sectorSize, start)
  {
    hide ChunkAt, ChunkOps;
  }

  /** Without a sparse header the image is taken as plain when its size is the partition's, and rejected otherwise. */
  datatype Loaded = NotSparse | Rejected | Chunks(load: Load)

  method ProgramLoadSparse(file: ImageFile, sectorSize: nat, numSectors: nat, startSector: nat) returns (r: Loaded)
    requires sectorSize > 0 && startSector < WORD
    modifies file
    ensures HeaderOf(file.data).None? ==> r == if sectorSize * numSectors == |file.data| then NotSparse else Rejected
    ensures HeaderOf(file.data).Some? ==>
      var h := HeaderOf(file.data).value;
      r == Chunks(LoadChunks(file.data, h, Skipped(0, h.fileHdrSz, HEADER_SIZE), h.totalChunks, sectorSize, startSector))
  {
    var header := file.ParseHeader();
    if header.None? {
      return if sectorSize * numSectors == |file.data| then NotSparse else Rejected;
    }
    var load := LoadAll(file, header.value, sectorSize, startSector);
    r := Chunks(load);
  }

  /** The chunk loop: every non-empty chunk advances the start sector, modulo 2^32. */
  method LoadAll(file: ImageFile, hdr: SparseHeader, sectorSize: nat, startSector: nat) returns (load: Load)
    requires sectorSize > 0 && startSector < WORD
    modifies file
    ensures load == LoadChunks(file.data, hdr, old(file.pos), hdr.totalChunks, sectorSize, startSector)
  {
    hide ChunkAt, ChunkOps, LoadChunks, BadSize, Advance;
    load := Load(true, [], startSector);
    ghost var whole := LoadChunks(file.data, hdr, file.pos, hdr.totalChunks, sectorSize, startSector);
    ghost var rest := whole;
    assert [] + rest.ops == rest.ops;
    for i := 0 to hdr.totalChunks
      invariant load.ok
      invariant rest == LoadChunks(file.data, hdr, file.pos, hdr.totalChunks - i, sectorSize, load.start)
      invariant whole == Load(rest.ok, load.ops + rest.ops, rest.start)
    {
      LoadStep(file.data, hdr, file.pos, hdr.totalChunks - i, sectorSize, load.start);
      var chunk := file.ParseChunkHeader(hdr);
      if chunk.None? || (chunk.value.size != 0 && BadSize(chunk.value, sectorSize)) {
        assert load.ops + [] == load.ops;
        return load.(ok := false);
      }
      var c := chunk.value;
      if c.size != 0 {
        var ops, next := ChunkOps(c, sectorSize, load.start), Advance(load.start, c.size, sectorSize);
        rest := LoadChunks(file.data, hdr, c.next, hdr.totalChunks - i - 1, sectorSize, next);
        assert load.ops + (ops + rest.ops) == load.ops + ops + rest.ops;
        load := Load(true, load.ops + ops, next);
      }
    }
    LoadStep(file.data, hdr, file.pos, 0, sectorSize, load.start);
    assert load.ops + [] == load.ops;
  }

  // ------------------------------------------------------------------
  // What is rejected, byte by byte
  // ------------------------------------------------------------------

  lemma TwoBytes(s: seq<byte>, lo: byte, hi: byte)
    requires |s| == 2
    ensures LeValue(s) == 0x100 * hi + lo <==> s == [lo, hi]
  {
    assert s == [s[0], s[1]] && s[1..] == [s[1]];
    assert LeValue(s[1..]) == s[1];
  }

  lemma FourBytes(s: seq<byte>, a: byte, b: byte, c: byte, d: byte)
    requires |s| == 4
    ensures LeValue(s) == 0x100_0000 * d + 0x1_0000 * c + 0x100 * b + a <==> s == [a, b, c, d]
  {
    hide LeValue;
    LeStep(s);
    LeStep(s[1..]);
    assert s[1..][1..] == s[2..];
    TwoBytes(s[2..], c, d);
    TwoBytes(s[2..], s[2], s[3]);
    assert s[2..] == [s[2], s[3]];
    assert s == [s[0], s[1], s[2], s[3]];
  }

  lemma LeStep(s: seq<byte>)
    requires s != []
    ensures LeValue(s) == s[0] + 256 * LeValue(s[1..])
  {
  }

  /** A file is a sparse image exactly when it has 28 bytes that begin with the magic and version 1.0. */
  lemma HeaderAccepted(data: seq<byte>)
    ensures HeaderOf(data).Some? <==> |data| >= 28 && data[..8] == [0x3A, 0xFF, 0x26, 0xED, 1, 0, 0, 0]
    ensures HeaderOf(data).Some? ==>
      HeaderOf(data).value == SparseHeader(LeValue(data[8..10]), LeValue(data[10..12]), LeValue(data[12..16]), LeValue(data[20..24]))
  {
    hide LeValue;
    if |data| >= 28 {
      var s := data[0..28];
      assert s[0..4] == data[0..4] && s[4..6] == data[4..6] && s[6..8] == data[6..8];
      assert s[8..10] == data[8..10] && s[10..12] == data[10..12] && s[12..16] == data[12..16] && s[20..24] == data[20..24];
      FourBytes(data[0..4], 0x3A, 0xFF, 0x26, 0xED);
      TwoBytes(data[4..6], 1, 0);
      TwoBytes(data[6..8], 0, 0);
      assert data[..8] == data[0..4] + data[4..6] + data[6..8];
      assert data[..8][0..4] == data[0..4] && data[..8][4..6] == data[4..6] && data[..8][6..8] == data[6..8];
    }
  }

  /** A chunk is accepted exactly when its kind is known and its total size is the right one for its kind. */
  lemma ChunkAccepted(data: seq<byte>, pos: nat, hdr: SparseHeader)
    ensures pos + 12 > |data| ==> ChunkAt(data, pos, hdr) == None
    ensures pos + 12 <= |data| ==>
      var kind, total := data[pos..pos + 2], LeValue(data[pos + 8..pos + 12]);
      var size, body := LeValue(data[pos + 4..pos + 8]) * hdr.blkSz, pos + if hdr.chunkHdrSz > 12 then hdr.chunkHdrSz else 12;
      && (ChunkAt(data, pos, hdr).Some? <==>
           || (kind == [0xC1, 0xCA] && total == hdr.chunkHdrSz + size)
           || (kind == [0xC2, 0xCA] && total == hdr.chunkHdrSz + 4 && body + 4 <= |data|)
           || (kind == [0xC3, 0xCA] && total == hdr.chunkHdrSz))
      && (ChunkAt(data, pos, hdr).Some? ==> ChunkAt(data, pos, hdr).value.size == size)
  {
    hide LeValue, ReadAt, Field;
    ReadLength(data, pos, 12);
    if pos + 12 <= |data| {
      ReadFields(data, pos);
      ReadLength(data, Skipped(pos, hdr.chunkHdrSz, 12), 4);
      TwoBytes(data[pos..pos + 2], 0xC1, 0xCA);
      TwoBytes(data[pos..pos + 2], 0xC2, 0xCA);
      TwoBytes(data[pos..pos + 2], 0xC3, 0xCA);
    }
  }

  lemma ReadLength(data: seq<byte>, pos: nat, n: nat)
    requires n > 0
    ensures |ReadAt(data, pos, n)| == n <==> pos + n <= |data|
  {
  }

  lemma ReadFields(data: seq<byte>, pos: nat)
    requires pos + 12 <= |data|
    ensures var s := ReadAt(data, pos, 12);
      && |s| == 12 && Field(s, 0, 2) == LeValue(data[pos..pos + 2])
      && Field(s, 4, 4) == LeValue(data[pos + 4..pos + 8]) && Field(s, 8, 4) == LeValue(data[pos + 8..pos + 12])
  {
    hide LeValue;
    Seqs.SliceOfSlice(data, pos, pos + 12, 0, 2);
    Seqs.SliceOfSlice(data, pos, pos + 12, 4, 8);
    Seqs.SliceOfSlice(data, pos, pos + 12, 8, 12);
  }

  /** A chunk that is no whole number of sectors, or of 2^32 - 1 sectors and more, makes loading fail. */
  lemma SizeRefused(data: seq<byte>, hdr: SparseHeader, pos: nat, count: nat, sectorSize: nat, start: nat, c: ParsedChunk)
    requires sectorSize > 0 && count > 0 && ChunkAt(data, pos, hdr) == Some(c)
    ensures BadSize(c, sectorSize) <==> c.size % sectorSize != 0 || c.size >= 0xFFFF_FFFF * sectorSize
    ensures c.size % sectorSize != 0 || c.size >= 0xFFFF_FFFF * sectorSize ==>
      LoadChunks(data, hdr, pos, count, sectorSize, start) == Load(false, [], start)
  {
    hide ChunkAt, LoadChunks;
    LoadStep(data, hdr, pos, count, sectorSize, start);
    WholeSectors(c.size, sectorSize);
    NoSize(sectorSize);
  }

  lemma WholeSectors(size: nat, sectorSize: nat)
    requires sectorSize > 0
    ensures size / sectorSize >= 0xFFFF_FFFF <==> size >= 0xFFFF_FFFF * sectorSize
  {
    var q, r := size / sectorSize, size % sectorSize;
    assert size == q * sectorSize + r && r < sectorSize;
    if q >= 0xFFFF_FFFF {
      Times(0xFFFF_FFFF, q, sectorSize);
    } else {
      Times(q + 1, 0xFFFF_FFFF, sectorSize);
    }
  }

  lemma Times(a: nat, b: nat, m: nat)
    requires a <= b
    ensures a * m <= b * m
  {
  }

  lemma NoSize(sectorSize: nat)
    requires sectorSize > 0
    ensures 0 % sectorSize == 0 && 0 < 0xFFFF_FFFF * sectorSize
  {
  }
}
