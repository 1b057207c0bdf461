/**
 * Block-wise hashing in general: a compression function folded over 64-byte blocks.
 * SHA-256 and MD5 share this shape and differ in compression, padding and word order.
 */
module Blocks {
  import opened Bytes

  const BLOCK := 64

  type Block = b: seq<byte> | |b| == 64 witness seq(64, _ => 0)

  /** The state after all blocks of `data`, whose length is a whole number of blocks. */
  function Absorb<S>(f: (S, Block) -> S, s: S, data: seq<byte>): S
    requires |data| % BLOCK == 0
  {
    if data == [] then s
    else
      var k := |data| - BLOCK;
      f(Absorb(f, s, data[..k]), data[k..])
  }

  /** Length of the part of an `n`-byte message that fills whole blocks. */
  function Full(n: nat): (k: nat)
    ensures k <= n < k + BLOCK && k % BLOCK == 0
  {
    n - n % BLOCK
  }

  /** The state once every full block of `m` has been compressed. */
  function FullBlocks<S>(f: (S, Block) -> S, s: S, m: seq<byte>): S {
    Absorb(f, s, m[..Full(|m|)])
  }

  /** The bytes of `m` that wait for the rest of their block. */
  function Leftover(m: seq<byte>): (r: seq<byte>)
    ensures |r| == |m| % BLOCK
  {
    m[Full(|m|)..]
  }

  lemma {:induction false} AbsorbBlock<S>(f: (S, Block) -> S, s: S, data: seq<byte>, block: Block)
    requires |data| % BLOCK == 0
    ensures (|data| + |block|) % BLOCK == 0
    ensures Absorb(f, s, data + block) == f(Absorb(f, s, data), block)
  {
    var all := data + block;
    assert all[..|all| - BLOCK] == data && all[|all| - BLOCK..] == block;
  }

  /** New bytes that stay within the open block only lengthen the leftover. */
  lemma {:induction false} AppendWithinBlock<S>(f: (S, Block) -> S, s: S, m: seq<byte>, data: seq<byte>)
    requires |m| % BLOCK + |data| < BLOCK
    ensures FullBlocks(f, s, m + data) == FullBlocks(f, s, m)
    ensures Leftover(m + data) == Leftover(m) + data
  {
    SameFull(|m|, |data|);
    hide Full, Absorb;
    assert (m + data)[..Full(|m|)] == m[..Full(|m|)];
    assert (m + data)[Full(|m|)..] == m[Full(|m|)..] + data;
  }

  lemma SameFull(n: nat, d: nat)
    requires n % BLOCK + d < BLOCK
    ensures Full(n + d) == Full(n)
  {
  }

  lemma CompletedLength(n: nat, d: nat)
    requires n % BLOCK + d == BLOCK
    ensures Full(n + d) == n + d && (n + d) % BLOCK == 0
  {
  }

  /** New bytes that complete the open block. */
  lemma {:induction false} AppendCompletesBlock<S>(f: (S, Block) -> S, s: S, m: seq<byte>, data: seq<byte>)
    requires |m| % BLOCK + |data| == BLOCK
    ensures FullBlocks(f, s, m + data) == f(FullBlocks(f, s, m), Leftover(m) + data)
    ensures Leftover(m + data) == []
  {
    var full := m[..Full(|m|)];
    CompletedLength(|m|, |data|);
    hide Full, Absorb;
    AbsorbBlock(f, s, full, Leftover(m) + data);
    assert full + (Leftover(m) + data) == m + data == (m + data)[..|m + data|];
  }

  /** All pieces of a message in order. */
  function Concat(pieces: seq<seq<byte>>): seq<byte> {
    if pieces == [] then [] else Concat(pieces[..|pieces| - 1]) + pieces[|pieces| - 1]
  }
}
