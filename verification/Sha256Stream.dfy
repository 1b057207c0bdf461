/** Incremental SHA-256: a buffered context that agrees with the one-shot hash of FIPS 180-4. */
module Sha256Stream {
  import opened Blocks
  import opened Bytes
  import opened Sha256
  import opened Words

  const SHORT_BLOCK := 56
  const LENGTH_MODULUS := 0x1_0000_0000_0000_0000

  /** The 64-bit big-endian length field. */
  function Be64(n: nat): (s: seq<byte>)
    ensures |s| == 8
  {
    [n / 0x100_0000_0000_0000 % 256, n / 0x1_0000_0000_0000 % 256, n / 0x100_0000_0000 % 256, n / 0x1_0000_0000 % 256,
     n / 0x100_0000 % 256, n / 0x1_0000 % 256, n / 0x100 % 256, n % 256]
  }

  /** Zero bytes between the 1 bit and the length field. */
  function ZeroCount(n: nat): (z: nat)
    ensures z < BLOCK && (n + 1 + z + 8) % BLOCK == 0
  {
    (119 - n % BLOCK) % BLOCK
  }

  /** FIPS 180-4 section 5.1.1 for an `n`-byte message; the bit length is taken modulo 2^64. */
  function Padding(n: nat): (p: seq<byte>)
    ensures |p| == 1 + ZeroCount(n) + 8
  {
    [0x80] + Zeros(ZeroCount(n)) + Be64(8 * n % LENGTH_MODULUS)
  }

  function Padded(m: seq<byte>): (s: seq<byte>)
    ensures |s| % BLOCK == 0
  {
    PaddingSplit(|m|);
    m + Padding(|m|)
  }

  /** The padding fits the open block, or closes it and fills another one. */
  lemma PaddedSplit(m: seq<byte>)
    ensures var used, length := |m| % BLOCK, Be64(8 * |m| % LENGTH_MODULUS);
      if used < SHORT_BLOCK then Padded(m) == m + ([0x80] + Zeros(SHORT_BLOCK - 1 - used) + length)
      else Padded(m) == m + ([0x80] + Zeros(BLOCK - 1 - used)) + (Zeros(SHORT_BLOCK) + length)
  {
    hide Be64, Padding;
    PaddingSplit(|m|);
  }

  function WordBytes(w: bv32): seq<byte> {
    [LowByte(Down(Down(Down(w)))), LowByte(Down(Down(w))), LowByte(Down(w)), LowByte(w)]
  }

  function StateBytes(s: seq<bv32>): (d: seq<byte>)
    ensures |d| == 4 * |s|
  {
    if s == [] then [] else StateBytes(s[..|s| - 1]) + WordBytes(s[|s| - 1])
  }

  /** The one-shot hash of a whole message. */
  function Hash(m: seq<byte>): (d: seq<byte>)
    ensures |d| == 32
  {
    StateBytes(Absorb(Compress, INITIAL, Padded(m)))
  }

  lemma UsedSpace(n: nat)
    ensures 8 * n % LENGTH_MODULUS / 8 % BLOCK == n % BLOCK
  {
    EightTimes(n);
    ModOfMod(n);
  }

  lemma EightTimes(n: nat)
    ensures 8 * n % LENGTH_MODULUS == 8 * (n % 0x2000_0000_0000_0000)
  {
    assert 8 * n == LENGTH_MODULUS * (n / 0x2000_0000_0000_0000) + 8 * (n % 0x2000_0000_0000_0000);
  }

  lemma ModOfMod(n: nat)
    ensures n % 0x2000_0000_0000_0000 % BLOCK == n % BLOCK
  {
    assert n == BLOCK * (0x80_0000_0000_0000 * (n / 0x2000_0000_0000_0000)) + n % 0x2000_0000_0000_0000;
  }

  lemma BitsAdd(n: nat, d: nat)
    ensures (8 * n % LENGTH_MODULUS + 8 * d) % LENGTH_MODULUS == 8 * (n + d) % LENGTH_MODULUS
  {
  }

  lemma {:induction false} EmptyMessage()
    ensures FullBlocks(Compress, INITIAL, []) == INITIAL && Leftover([]) == []
  {
  }

  class Sha2Ctx {
    const state: array<bv32>
    const buffer: array<byte>
    const unroll: bool
    var bitcount: nat

    /** The context stands for having hashed exactly the bytes of `m` so far. */
    ghost predicate Holds(m: seq<byte>)
      reads this, state, buffer
    {
      && state.Length == 8 && buffer.Length == BLOCK
      && state[..] == FullBlocks(Compress, INITIAL, m)
      && buffer[..|m| % BLOCK] == Leftover(m)
      && bitcount == 8 * |m| % LENGTH_MODULUS
    }

    /** `unroll` stands for the build option that selects the unrolled round loop. */
    constructor (unroll: bool)
      ensures Holds([]) && fresh(state) && fresh(buffer)
    {
      this.unroll := unroll;
      state := new bv32[8];
      buffer := new byte[BLOCK];
      bitcount := 0;
      new;
      EmptyMessage();
      hide FullBlocks, Leftover;
      forall k | 0 <= k < 8 {
        state[k] := INITIAL[k];
      }
      assert state[..] == INITIAL;
    }

    /** Copies bytes into the buffer, as memcpy does. */
    method Copy(at: nat, data: seq<byte>)
      requires at + |data| <= buffer.Length
      modifies buffer
      ensures buffer[..at + |data|] == old(buffer[..at]) + data
      ensures buffer[at + |data|..] == old(buffer[at + |data|..])
    {
      forall k | 0 <= k < |data| {
        buffer[at + k] := data[k];
      }
    }

    method Transform(data: Block)
      requires state.Length == 8
      modifies state
      ensures state[..] == Compress(old(state[..]), data)
    {
      if unroll {
        TransformUnrolled(state, data);
      } else {
        TransformPlain(state, data);
      }
    }

    /** Compresses a block that completes the message `m`. */
    method AbsorbWhole(block: Block, count: nat, ghost m: seq<byte>, ghost data: seq<byte>)
      requires state.Length == 8 && buffer.Length == BLOCK
      requires state[..] == FullBlocks(Compress, INITIAL, m) && bitcount == 8 * |m| % LENGTH_MODULUS
      requires |m| % BLOCK + |data| == BLOCK && block == Leftover(m) + data && count == |data|
      modifies this, state
      ensures Holds(m + data) && |m + data| % BLOCK == 0
    {
      hide Full, FullBlocks, Leftover, Compress;
      AppendCompletesBlock(Compress, INITIAL, m, data);
      CompletedLength(|m|, |data|);
      BitsAdd(|m|, |data|);
      bitcount := (bitcount + 8 * count) % LENGTH_MODULUS;
      Transform(block);
      assert buffer[..0] == [];
    }

    /** Keeps bytes that do not complete a block. */
    method Keep(data: seq<byte>, ghost m: seq<byte>)
      requires Holds(m) && |m| % BLOCK + |data| < BLOCK
      modifies this, buffer
      ensures Holds(m + data)
    {
      hide Full, FullBlocks, Leftover, Compress;
      UsedSpace(|m|);
      AppendWithinBlock(Compress, INITIAL, m, data);
      BitsAdd(|m|, |data|);
      Copy(bitcount / 8 % BLOCK, data);
      bitcount := (bitcount + 8 * |data|) % LENGTH_MODULUS;
      WithinLength(|m|, |data|);
    }

    static lemma WithinLength(n: nat, d: nat)
      requires n % BLOCK + d < BLOCK
      ensures (n + d) % BLOCK == n % BLOCK + d
    {
    }

    method AbsorbNext(data: seq<byte>, i: nat, ghost m: seq<byte>)
      requires i + BLOCK <= |data| && Holds(m + data[..i]) && |m + data[..i]| % BLOCK == 0
      modifies this, state
      ensures Holds(m + data[..i + BLOCK]) && |m + data[..i + BLOCK]| % BLOCK == 0
    {
      hide Full, FullBlocks, Leftover, Compress;
      var block: Block := data[i..i + BLOCK];
      AlignedLeftover(m + data[..i]);
      assert [] + block == block;
      AbsorbWhole(block, BLOCK, m + data[..i], block);
      assert m + data[..i] + block == m + data[..i + BLOCK];
    }

    method Update(data: seq<byte>, ghost m: seq<byte>)
      requires Holds(m)
      modifies this, state, buffer
      ensures Holds(m + data)
    {
      hide Full, FullBlocks, Leftover, Compress;
      var len, i := |data|, 0;
      UsedSpace(|m|);
      var used := bitcount / 8 % BLOCK;
      assert m + data[..0] == m;
      if len == 0 {
        assert m + data == m;
        return;
      }
      if used > 0 {
        var free := BLOCK - used;
        if len < free {
          Keep(data, m);
          return;
        }
        Copy(used, data[..free]);
        AbsorbWhole(buffer[..], free, m, data[..free]);
        i := free;
      }
      while len - i >= BLOCK
        invariant 0 <= i <= len
        invariant Holds(m + data[..i]) && |m + data[..i]| % BLOCK == 0
      {
        AbsorbNext(data, i, m);
        i := i + BLOCK;
      }
      if len - i > 0 {
        Keep(data[i..], m + data[..i]);
      }
      assert m + data[..i] + data[i..] == m + data;
      assert i == len ==> data[..i] == data;
    }

    static lemma AlignedLeftover(m: seq<byte>)
      requires |m| % BLOCK == 0
      ensures Leftover(m) == []
    {
    }

    /** Zeroes buffer bytes `from..to`, as memset does. */
    method Clear(from: nat, to: nat)
      requires from <= to <= buffer.Length
      modifies buffer
      ensures buffer[..to] == old(buffer[..from]) + Zeros(to - from)
    {
      forall k | from <= k < to {
        buffer[k] := 0;
      }
    }

    /** Fills the block behind the padding's first byte with zeros, and clears the start of another one. */
    method CloseBlock(used: nat, ghost m: seq<byte>)
      requires state.Length == 8 && buffer.Length == BLOCK && used <= BLOCK && |m| % BLOCK + 1 == used
      requires state[..] == FullBlocks(Compress, INITIAL, m) && buffer[..used] == Leftover(m) + [0x80]
      modifies state, buffer
      ensures var first := [0x80] + Zeros(BLOCK - used);
        && state[..] == FullBlocks(Compress, INITIAL, m + first) && buffer[..SHORT_BLOCK] == Zeros(SHORT_BLOCK)
        && Leftover(m + first) == [] && |m + first| % BLOCK == 0
    {
      hide Full, FullBlocks, Leftover, Compress;
      ghost var first := [0x80] + Zeros(BLOCK - used);
      Clear(used, BLOCK);
      assert buffer[..] == Leftover(m) + first;
      AppendCompletesBlock(Compress, INITIAL, m, first);
      CompletedLength(|m|, |first|);
      AlignedLeftover(m + first);
      Transform(buffer[..]);
      Clear(0, SHORT_BLOCK);
      assert buffer[..0] == [];
    }

    /** Puts the length into a block that is complete but for it, and compresses the block. */
    method LastBlock(ghost m: seq<byte>, ghost head: seq<byte>)
      requires state.Length == 8 && buffer.Length == BLOCK && bitcount < LENGTH_MODULUS
      requires state[..] == FullBlocks(Compress, INITIAL, m) && buffer[..SHORT_BLOCK] == Leftover(m) + head
      modifies state, buffer
      ensures state[..] == FullBlocks(Compress, INITIAL, m + (head + Be64(bitcount)))
    {
      hide Full, FullBlocks, Leftover, Compress, Be64;
      ghost var length := Be64(bitcount);
      Copy(SHORT_BLOCK, Be64(bitcount));
      assert buffer[..BLOCK] == Leftover(m) + head + length == Leftover(m) + (head + length);
      AppendCompletesBlock(Compress, INITIAL, m, head + length);
      assert buffer[..] == buffer[..BLOCK];
      Transform(buffer[..]);
    }

    /** Puts the first byte of the padding and the zeros behind it, which may close one block. */
    method StartPadding(ghost m: seq<byte>) returns (ghost whole: seq<byte>, ghost head: seq<byte>)
      requires Holds(m)
      modifies state, buffer
      ensures state[..] == FullBlocks(Compress, INITIAL, whole) && buffer[..SHORT_BLOCK] == Leftover(whole) + head
      ensures whole + (head + Be64(bitcount)) == Padded(m)
    {
      hide Full, FullBlocks, Leftover, Compress, Be64, Padded;
      UsedSpace(|m|);
      var used := bitcount / 8 % BLOCK;
      whole, head := m, [0x80] + Zeros(SHORT_BLOCK - 1 - (if used < SHORT_BLOCK then used else 0));
      PaddedSplit(m);
      if used > 0 {
        buffer[used] := 0x80;
        assert buffer[..used + 1] == Leftover(m) + [0x80];
        used := used + 1;
        if used <= SHORT_BLOCK {
          Clear(used, SHORT_BLOCK);
          assert Leftover(m) + [0x80] + Zeros(SHORT_BLOCK - used) == Leftover(m) + head;
        } else {
          CloseBlock(used, m);
          whole, head := m + ([0x80] + Zeros(BLOCK - used)), Zeros(SHORT_BLOCK);
          assert [] + head == head;
        }
      } else {
        Clear(0, SHORT_BLOCK);
        buffer[0] := 0x80;
        assert buffer[..SHORT_BLOCK] == Leftover(m) + head;
      }
    }

    /** Appends the padding and compresses the last one or two blocks. */
    method Pad(ghost m: seq<byte>)
      requires Holds(m)
      modifies state, buffer
      ensures state[..] == Absorb(Compress, INITIAL, Padded(m))
    {
      hide FullBlocks, Leftover, Compress, Padded, Be64, Absorb;
      ghost var whole, head := StartPadding(m);
      LastBlock(whole, head);
      AlignedMessage(Padded(m));
    }

    /** The digest of everything hashed so far; the context is wiped afterwards. */
    method Final(ghost m: seq<byte>) returns (digest: seq<byte>)
      requires Holds(m)
      modifies this, state, buffer
      ensures digest == Hash(m)
      ensures bitcount == 0 && (forall k :: 0 <= k < state.Length ==> state[k] == 0)
    {
      hide Compress, Padded, Absorb, FullBlocks, WordBytes;
      Pad(m);
      digest := [];
      for i := 0 to 8
        invariant state[..] == Absorb(Compress, INITIAL, Padded(m))
        invariant digest == StateBytes(state[..i])
      {
        assert state[..i + 1][..i] == state[..i];
        digest := digest + WordBytes(state[i]);
      }
      assert state[..8] == state[..];
      forall k | 0 <= k < state.Length {
        state[k] := 0;
      }
      forall k | 0 <= k < buffer.Length {
        buffer[k] := 0;
      }
      bitcount := 0;
    }
  }

  lemma PaddingSplit(n: nat)
    ensures var used, length := n % BLOCK, Be64(8 * n % LENGTH_MODULUS);
      if used < SHORT_BLOCK then Padding(n) == [0x80] + Zeros(SHORT_BLOCK - 1 - used) + length
      else Padding(n) == [0x80] + Zeros(BLOCK - 1 - used) + (Zeros(SHORT_BLOCK) + length)
    ensures (n + |Padding(n)|) % BLOCK == 0
  {
    hide Be64;
    var used := n % BLOCK;
    if used >= SHORT_BLOCK {
      assert ZeroCount(n) == BLOCK - 1 - used + SHORT_BLOCK;
      assert Zeros(ZeroCount(n)) == Zeros(BLOCK - 1 - used) + Zeros(SHORT_BLOCK);
    } else {
      assert ZeroCount(n) == SHORT_BLOCK - 1 - used;
    }
  }

  lemma {:induction false} AlignedMessage(m: seq<byte>)
    requires |m| % BLOCK == 0
    ensures FullBlocks(Compress, INITIAL, m) == Absorb(Compress, INITIAL, m)
  {
    hide Compress, Absorb;
    assert m[..Full(|m|)] == m;
  }

  /** Any sequence of updates followed by the final call gives the hash of the concatenation. */
  method HashPieces(unroll: bool, pieces: seq<seq<byte>>) returns (digest: seq<byte>)
    ensures digest == Hash(Concat(pieces))
  {
    hide Hash, Sha2Ctx.Holds, Full, FullBlocks, Leftover;
    var ctx := new Sha2Ctx(unroll);
    for i := 0 to |pieces|
      invariant ctx.Holds(Concat(pieces[..i])) && fresh(ctx) && fresh(ctx.state) && fresh(ctx.buffer)
    {
      assert pieces[..i + 1][..i] == pieces[..i];
      ctx.Update(pieces[i], Concat(pieces[..i]));
    }
    assert pieces[..|pieces|] == pieces;
    digest := ctx.Final(Concat(pieces));
  }

  /** Hashing a file in reads of at most 1024 bytes. */
  method CalculateHashOfFile(unroll: bool, file: seq<byte>) returns (digest: seq<byte>)
    ensures digest == Hash(file)
  {
    hide Hash, Sha2Ctx.Holds, Full, FullBlocks, Leftover;
    var ctx := new Sha2Ctx(unroll);
    var pos := 0;
    assert file[..0] == [];
    while pos < |file|
      invariant 0 <= pos <= |file|
      invariant ctx.Holds(file[..pos]) && fresh(ctx) && fresh(ctx.state) && fresh(ctx.buffer)
    {
      var bytes := if |file| - pos < 1024 then |file| - pos else 1024;
      ctx.Update(file[pos..pos + bytes], file[..pos]);
      assert file[..pos] + file[pos..pos + bytes] == file[..pos + bytes];
      pos := pos + bytes;
    }
    assert file[..pos] == file;
    digest := ctx.Final(file);
  }
}
