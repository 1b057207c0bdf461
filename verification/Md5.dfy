/**
 * Incremental MD5, sections 3.1 to 3.5 of RFC 1321: the buffered update, the two 32-bit counters
 * and the padding.
 */
module Md5 {
  import opened Blocks
  import opened Bytes
  import opened Words
  import opened Md5Transform

  const WORD := 0x1_0000_0000
  const LENGTH_MODULUS := 0x1_0000_0000_0000_0000

  const INITIAL: State := [0x67452301, 0xefcdab89, 0x98badcfe, 0x10325476]

  /** Length of the padding before the 64-bit length field. */
  function PadLength(n: nat): (p: nat)
    ensures 0 < p <= BLOCK && (n + p + 8) % BLOCK == 0
  {
    if n % BLOCK < 56 then 56 - n % BLOCK else 120 - n % BLOCK
  }

  function Pad(n: nat): (p: seq<byte>)
    ensures |p| == PadLength(n)
  {
    [0x80] + Zeros(PadLength(n) - 1)
  }

  /** The bit length modulo 2^64, low-order bytes first. */
  function LengthField(n: nat): (f: seq<byte>)
    ensures |f| == 8
  {
    LeBytes(8 * n % LENGTH_MODULUS, 8)
  }

  /** The four bytes of a word, low-order first. */
  function WordBytes(w: bv32): seq<byte> {
    [LowByte(w), LowByte(Down(w)), LowByte(Down(Down(w))), LowByte(Down(Down(Down(w))))]
  }

  function StateBytes(s: seq<bv32>): seq<byte> {
    if s == [] then [] else StateBytes(s[..|s| - 1]) + WordBytes(s[|s| - 1])
  }

  /** The one-shot hash of a whole message. */
  function Hash(m: seq<byte>): seq<byte> {
    StateBytes(Absorb(Compress, INITIAL, m + Pad(|m|) + LengthField(|m|)))
  }

  // ------------------------------------------------------------------
  // The counters
  // ------------------------------------------------------------------

  /** The two counters after `len` more bytes, as the code computes them on 32-bit words. */
  function Count(low: word, high: word, len: nat): (c: (word, word)) {
    var bits := 8 * (len % WORD) % WORD;
    var low' := (low + bits) % WORD;
    var carried := if low' < bits then (high + 1) % WORD else high;
    (low', (carried + len % WORD / 0x2000_0000) % WORD)
  }

  function Counted(low: word, high: word): nat {
    low + WORD * high
  }

  /** The pair is one 64-bit counter: the carry test and the shifted-out bits lose nothing. */
  lemma CountIs64Bit(low: word, high: word, len: nat)
    ensures var c := Count(low, high, len);
      Counted(c.0, c.1) == (Counted(low, high) + 8 * (len % WORD)) % LENGTH_MODULUS
  {
    var n := len % WORD;
    var bits, top := 8 * n % WORD, n / 0x2000_0000;
    assert 8 * n == WORD * top + bits by {
      ShiftedOut(n);
    }
    var low', carry := (low + bits) % WORD, (low + bits) / WORD;
    assert carry == if low' < bits then 1 else 0;
    HighWord(high, carry, top);
    var c := Count(low, high, len);
    Join64(low', high + carry + top);
    assert Counted(low, high) + 8 * n == low' + WORD * (high + carry + top);
  }

  lemma ShiftedOut(n: word)
    ensures 8 * n == WORD * (n / 0x2000_0000) + 8 * n % WORD
  {
    var q, r := n / 0x2000_0000, n % 0x2000_0000;
    assert 8 * n == WORD * q + 8 * r;
    assert 8 * r < WORD;
  }

  lemma HighWord(high: word, carry: nat, top: nat)
    requires carry <= 1
    ensures ((if carry == 1 then (high + 1) % WORD else high) + top) % WORD == (high + carry + top) % WORD
  {
  }

  lemma Join64(low: word, high: nat)
    ensures (low + WORD * high) % LENGTH_MODULUS == low + WORD * (high % WORD)
  {
    var q, r := high / WORD, high % WORD;
    assert low + WORD * high == LENGTH_MODULUS * q + (low + WORD * r);
  }

  /** Counting is exact modulo 2^64 unless a single update is 2^32 bytes or longer. */
  lemma CountExactly(total: nat, len: nat)
    ensures (8 * total % LENGTH_MODULUS + 8 * (len % WORD)) % LENGTH_MODULUS == 8 * (total + len) % LENGTH_MODULUS
      <==> len / WORD % 0x2000_0000 == 0
  {
    var h, counted := len / WORD, 8 * total + 8 * (len % WORD);
    assert 8 * (total + len) == counted + 0x8_0000_0000 * h;
    CountedModulo(8 * total, 8 * (len % WORD));
    LostBits(counted, h);
  }

  lemma CountedModulo(x: nat, y: nat)
    ensures (x % LENGTH_MODULUS + y) % LENGTH_MODULUS == (x + y) % LENGTH_MODULUS
  {
  }

  lemma LostBits(x: nat, h: nat)
    ensures x % LENGTH_MODULUS == (x + 0x8_0000_0000 * h) % LENGTH_MODULUS <==> h % 0x2000_0000 == 0
  {
    var q, r := h / 0x2000_0000, h % 0x2000_0000;
    assert x + 0x8_0000_0000 * h == x + 0x8_0000_0000 * r + LENGTH_MODULUS * q;
    DropModulus(x + 0x8_0000_0000 * r, q);
    PartOfModulus(x, 0x8_0000_0000 * r);
  }

  lemma DropModulus(x: nat, q: nat)
    ensures (x + LENGTH_MODULUS * q) % LENGTH_MODULUS == x % LENGTH_MODULUS
  {
  }

  lemma PartOfModulus(x: nat, d: nat)
    requires d < LENGTH_MODULUS
    ensures x % LENGTH_MODULUS == (x + d) % LENGTH_MODULUS <==> d == 0
  {
  }

  lemma CountUpdate(total: nat, len: nat, low: word, high: word)
    requires len < WORD && Counted(low, high) == 8 * total % LENGTH_MODULUS
    ensures var c := Count(low, high, len);
      Counted(c.0, c.1) == 8 * (total + len) % LENGTH_MODULUS
  {
    hide Count, Counted;
    CountIs64Bit(low, high, len);
    CountExactly(total, len);
  }

  // ------------------------------------------------------------------
  // The block loop's 32-bit index
  // ------------------------------------------------------------------

  /** The index at which fewer than 64 of `len` bytes are left, starting behind `index` buffered ones. */
  function StopIndex(index: nat, len: nat): (i: nat)
    requires index < BLOCK && BLOCK - index <= len
    ensures BLOCK - index <= i <= len < i + BLOCK && (i + index) % BLOCK == 0
  {
    len - (len + index) % BLOCK
  }

  /** The loop guard `i + 63 < len` as it is evaluated on 32-bit words. */
  predicate Guard(i: nat, len: nat) {
    (i + 63) % WORD < len
  }

  /** The loop index never wraps round. */
  predicate IndexFits(index: nat, len: nat)
    requires index < BLOCK
  {
    len < WORD && (BLOCK - index <= len ==> StopIndex(index, len) + 63 < WORD)
  }

  /** The loop stops where it should exactly when the index fits: otherwise the guard still holds with less than a block left. */
  lemma LoopStopsExactly(index: nat, len: nat)
    requires index < BLOCK && BLOCK - index <= len < WORD
    ensures !Guard(StopIndex(index, len), len) <==> IndexFits(index, len)
    ensures forall i: nat :: i < StopIndex(index, len) && (i + index) % BLOCK == 0 ==> Guard(i, len) && i + BLOCK <= len
  {
    var stop := StopIndex(index, len);
    forall i: nat | i < stop && (i + index) % BLOCK == 0
      ensures Guard(i, len) && i + BLOCK <= len
    {
      assert i + BLOCK <= stop;
    }
  }

  /** Not every length below 2^32 fits: one buffered byte and 2^32 - 1 new ones do not. */
  lemma IndexCanWrap()
    ensures !IndexFits(1, WORD - 1) && IndexFits(0, WORD - 1)
  {
  }

  // ------------------------------------------------------------------
  // The context
  // ------------------------------------------------------------------

  lemma {:induction false} EmptyMessage()
    ensures FullBlocks(Compress, INITIAL, []) == INITIAL && Leftover([]) == []
  {
  }

  lemma WithinLength(n: nat, d: nat)
    requires n % BLOCK + d < BLOCK
    ensures (n + d) % BLOCK == n % BLOCK + d
  {
  }

  lemma BufferIndex(n: nat, low: word, high: word)
    requires Counted(low, high) == 8 * n % LENGTH_MODULUS
    ensures low / 8 % BLOCK == n % BLOCK
  {
    LowWord(8 * n, low, high);
    BytesOfBits(n);
  }

  lemma BytesOfBits(n: nat)
    ensures 8 * n % WORD / 8 % BLOCK == n % BLOCK
  {
    EightTimes(n);
    ModOfMod(n);
  }

  lemma EightTimes(n: nat)
    ensures 8 * n % WORD == 8 * (n % 0x2000_0000)
  {
    assert 8 * n == WORD * (n / 0x2000_0000) + 8 * (n % 0x2000_0000);
  }

  lemma ModOfMod(n: nat)
    ensures n % 0x2000_0000 % BLOCK == n % BLOCK
  {
    assert n == BLOCK * (0x80_0000 * (n / 0x2000_0000)) + n % 0x2000_0000;
  }

  lemma LowWord(n: nat, low: word, high: word)
    requires low + WORD * high == n % LENGTH_MODULUS
    ensures low == n % WORD
  {
    var q := n / LENGTH_MODULUS;
    assert n == LENGTH_MODULUS * q + n % LENGTH_MODULUS;
    RemainderOf(WORD * q + high, low);
  }

  lemma RemainderOf(x: nat, low: word)
    ensures (WORD * x + low) % WORD == low
  {
  }

  class Md5Ctx {
    const buffer: array<byte>
    var state: State
    var count0: word
    var count1: word

    /** The context stands for having hashed exactly the bytes of `m` so far. */
    ghost predicate Holds(m: seq<byte>)
      reads this, buffer
    {
      && buffer.Length == BLOCK
      && state == FullBlocks(Compress, INITIAL, m)
      && buffer[..|m| % BLOCK] == Leftover(m)
      && Counted(count0, count1) == 8 * |m| % LENGTH_MODULUS
    }

    constructor ()
      ensures Holds([]) && fresh(buffer)
    {
      buffer := new byte[BLOCK];
      state, count0, count1 := INITIAL, 0, 0;
      new;
      EmptyMessage();
      assert buffer[..0] == [];
    }

    method Copy(at: nat, data: seq<byte>)
      requires at + |data| <= buffer.Length
      modifies buffer
      ensures buffer[..at + |data|] == old(buffer[..at]) + data
    {
      forall k | 0 <= k < |data| {
        buffer[at + k] := data[k];
      }
    }

    /** The loop over whole blocks of the input, behind the one that completed the buffer. */
    method AbsorbBlocks(data: seq<byte>, index: nat, ghost m: seq<byte>) returns (i: nat)
      requires index == |m| % BLOCK && BLOCK - index <= |data| && IndexFits(index, |data|)
      requires state == FullBlocks(Compress, INITIAL, m + data[..BLOCK - index])
      modifies this`state
      ensures i == StopIndex(index, |data|)
      ensures state == FullBlocks(Compress, INITIAL, m + data[..i])
    {
      hide Compress, Full, FullBlocks, Leftover, StopIndex, Guard;
      ghost var stop := StopIndex(index, |data|);
      LoopStopsExactly(index, |data|);
      i := BLOCK - index;
      while Guard(i, |data|)
        invariant 0 <= i <= stop && (i + index) % BLOCK == 0
        invariant state == FullBlocks(Compress, INITIAL, m + data[..i])
        decreases |data| - i
      {
        AlignedLength(|m|, i);
        AbsorbOne(data, i, m);
        i := i + BLOCK;
        NextAligned(i, index, stop);
      }
    }

    method AbsorbOne(data: seq<byte>, i: nat, ghost m: seq<byte>)
      requires i + BLOCK <= |data| && (|m| + i) % BLOCK == 0
      requires state == FullBlocks(Compress, INITIAL, m + data[..i])
      modifies this`state
      ensures state == FullBlocks(Compress, INITIAL, m + data[..i + BLOCK])
    {
      hide Compress, Full, FullBlocks, Leftover;
      var block: Block := data[i..i + BLOCK];
      AbsorbAligned(m + data[..i], block);
      assert m + data[..i] + block == m + data[..i + BLOCK];
      state := Transform(state, block);
    }

    static lemma NextAligned(i: nat, index: nat, stop: nat)
      requires i >= BLOCK && (i - BLOCK + index) % BLOCK == 0 && (stop + index) % BLOCK == 0 && i - BLOCK < stop
      ensures (i + index) % BLOCK == 0 && i <= stop
    {
    }

    static lemma AlignedLength(n: nat, i: nat)
      requires (i + n % BLOCK) % BLOCK == 0
      ensures (n + i) % BLOCK == 0
    {
    }

    /** Completes the buffered block, then takes whole blocks from the input. */
    method FillAndAbsorb(data: seq<byte>, index: nat, ghost m: seq<byte>) returns (i: nat)
      requires buffer.Length == BLOCK && index == |m| % BLOCK && BLOCK - index <= |data| && IndexFits(index, |data|)
      requires state == FullBlocks(Compress, INITIAL, m) && buffer[..index] == Leftover(m)
      modifies this`state, buffer
      ensures i <= |data| < i + BLOCK && |m + data[..i]| % BLOCK == 0 && Leftover(m + data[..i]) == []
      ensures state == FullBlocks(Compress, INITIAL, m + data[..i])
    {
      hide Compress, Full, FullBlocks, Leftover, IndexFits;
      var partLen := BLOCK - index;
      Copy(index, data[..partLen]);
      assert buffer[..] == Leftover(m) + data[..partLen];
      state := Transform(state, buffer[..]);
      AppendCompletesBlock(Compress, INITIAL, m, data[..partLen]);
      i := AbsorbBlocks(data, index, m);
      AlignedLength(|m|, i);
      NothingLeft(m + data[..i]);
    }

    static lemma NothingLeft(m: seq<byte>)
      requires |m| % BLOCK == 0
      ensures Leftover(m) == []
    {
    }

    method Update(data: seq<byte>, ghost m: seq<byte>)
      requires Holds(m) && IndexFits(|m| % BLOCK, |data|)
      modifies this, buffer
      ensures Holds(m + data)
    {
      hide Compress, Full, FullBlocks, Leftover, Count, Counted, StopIndex;
      BufferIndex(|m|, count0, count1);
      CountUpdate(|m|, |data|, count0, count1);
      var index := count0 / 8 % BLOCK;
      var counts := Count(count0, count1, |data|);
      count0, count1 := counts.0, counts.1;
      var partLen := BLOCK - index;
      var i := 0;
      if |data| >= partLen {
        i := FillAndAbsorb(data, index, m);
        index := 0;
      } else {
        assert m + data[..0] == m;
      }
      assert buffer[..index] == Leftover(m + data[..i]) && index == |m + data[..i]| % BLOCK;
      Copy(index, data[i..]);
      AppendWithinBlock(Compress, INITIAL, m + data[..i], data[i..]);
      WithinLength(|m + data[..i]|, |data[i..]|);
      assert m + data[..i] + data[i..] == m + data;
    }

    lemma IndexOf(m: seq<byte>)
      requires Holds(m)
      ensures count0 / 8 % BLOCK == |m| % BLOCK
      ensures LeBytes(count0, 4) + LeBytes(count1, 4) == LengthField(|m|)
    {
      hide FullBlocks, Leftover, LeBytes;
      BufferIndex(|m|, count0, count1);
      LengthBytes(count0, count1);
    }

    static lemma SmallFits(index: nat, len: nat)
      requires index < BLOCK && len <= BLOCK
      ensures IndexFits(index, len)
    {
    }

    lemma AbsorbAligned(m: seq<byte>, block: Block)
      requires |m| % BLOCK == 0
      ensures FullBlocks(Compress, INITIAL, m + block) == Compress(FullBlocks(Compress, INITIAL, m), block)
      ensures |m + block| % BLOCK == 0
    {
      hide Compress, FullBlocks;
      AppendCompletesBlock(Compress, INITIAL, m, block);
      assert Leftover(m) + block == block;
    }

    method Final(ghost m: seq<byte>) returns (digest: seq<byte>)
      requires Holds(m)
      modifies this, buffer
      ensures digest == Hash(m)
    {
      hide Compress, Full, FullBlocks, Leftover, Absorb, LeBytes, WordBytes, IndexFits, Md5Ctx.Holds;
      IndexOf(m);
      var bits := LeBytes(count0, 4) + LeBytes(count1, 4);
      var index := count0 / 8 % BLOCK;
      var padLen := if index < 56 then 56 - index else 120 - index;
      var padding := [0x80] + Zeros(padLen - 1);
      SmallFits(|m| % BLOCK, padLen);
      assert padding == Pad(|m|) && bits == LengthField(|m|);
      Update(padding, m);
      SmallFits(|m + padding| % BLOCK, 8);
      Update(bits, m + padding);
      assert m + padding + bits == m + Pad(|m|) + LengthField(|m|);
      AlignedMessage(m + padding + bits);
      digest := [];
      for i := 0 to 4
        invariant digest == StateBytes(state[..i])
      {
        assert state[..i + 1][..i] == state[..i];
        digest := digest + WordBytes(state[i]);
      }
      assert state[..4] == state;
    }

    lemma {:induction false} AlignedMessage(m: seq<byte>)
      requires |m| % BLOCK == 0 && Holds(m)
      ensures state == Absorb(Compress, INITIAL, m)
    {
      hide Absorb;
      assert m[..Full(|m|)] == m;
    }
  }

  lemma LengthBytes(low: word, high: word)
    ensures LeBytes(low, 4) + LeBytes(high, 4) == LeBytes(Counted(low, high), 8)
  {
    hide LeBytes;
    var l1 := low / 256;
    var l2 := l1 / 256;
    var l3 := l2 / 256;
    FirstByte(low, 4);
    FirstByte(l1, 3);
    FirstByte(l2, 2);
    FirstByte(l3, 1);
    assert l3 / 256 == 0;
    var n1, n2, n3 := l1 + 0x100_0000 * high, l2 + 0x1_0000 * high, l3 + 0x100 * high;
    FirstByte(low + WORD * high, 8);
    FirstByte(n1, 7);
    FirstByte(n2, 6);
    FirstByte(n3, 5);
    assert (low + WORD * high) / 256 == n1 && n1 / 256 == n2 && n2 / 256 == n3 && n3 / 256 == high;
    assert (low + WORD * high) % 256 == low % 256 && n1 % 256 == l1 % 256 && n2 % 256 == l2 % 256 && n3 % 256 == l3 % 256;
  }

  lemma FirstByte(n: nat, width: nat)
    requires width > 0
    ensures LeBytes(n, width) == [n % 256] + LeBytes(n / 256, width - 1)
    ensures LeBytes(n, 0) == []
  {
  }

  /** Any sequence of updates whose block index fits, then the final call, gives the hash of the concatenation. */
  method HashPieces(pieces: seq<seq<byte>>) returns (digest: seq<byte>)
    requires forall i :: 0 <= i < |pieces| ==> IndexFits(|Concat(pieces[..i])| % BLOCK, |pieces[i]|)
    ensures digest == Hash(Concat(pieces))
  {
    hide Hash, Md5Ctx.Holds, IndexFits;
    var ctx := new Md5Ctx();
    for i := 0 to |pieces|
      invariant ctx.Holds(Concat(pieces[..i])) && fresh(ctx) && fresh(ctx.buffer)
    {
      assert pieces[..i + 1][..i] == pieces[..i];
      ctx.Update(pieces[i], Concat(pieces[..i]));
    }
    assert pieces[..|pieces|] == pieces;
    digest := ctx.Final(Concat(pieces));
  }

  lemma PieceFits(index: nat, len: nat)
    requires index < BLOCK && len <= 4096
    ensures IndexFits(index, len)
  {
  }

  /** Hashing a file in reads of at most 4096 bytes, for which the index always fits. */
  method HashFile(file: seq<byte>) returns (digest: seq<byte>)
    ensures digest == Hash(file)
  {
    hide Hash, Md5Ctx.Holds, IndexFits;
    var ctx := new Md5Ctx();
    var pos := 0;
    assert file[..0] == [];
    while pos < |file|
      invariant 0 <= pos <= |file|
      invariant ctx.Holds(file[..pos]) && fresh(ctx) && fresh(ctx.buffer)
    {
      var n := if |file| - pos < 4096 then |file| - pos else 4096;
      PieceFits(pos % BLOCK, n);
      ctx.Update(file[pos..pos + n], file[..pos]);
      assert file[..pos] + file[pos..pos + n] == file[..pos + n];
      pos := pos + n;
    }
    assert file[..pos] == file;
    digest := ctx.Final(file);
  }
}
