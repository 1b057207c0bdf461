/** The SHA-256 compression function: the definition of FIPS 180-4 section 6.2.2 and both code variants. */
module Sha256 {
  import opened Blocks
  import opened Bytes
  import opened Words

  type State = s: seq<bv32> | |s| == 8 witness seq(8, _ => 0)

  // ------------------------------------------------------------------
  // FIPS 180-4
  // ------------------------------------------------------------------

  /** Rotation to the right. */
  function S32(b: bv8, x: bv32): bv32
    requires b <= 32
  {
    (x >> b) | (x << (32 - b))
  }

  function R(b: bv8, x: bv32): bv32
    requires b <= 32
  {
    x >> b
  }

  function Xor3(a: bv32, b: bv32, c: bv32): bv32 {
    a ^ b ^ c
  }

  function Sigma0(x: bv32): bv32 {
    Xor3(S32(2, x), S32(13, x), S32(22, x))
  }

  function Sigma1(x: bv32): bv32 {
    Xor3(S32(6, x), S32(11, x), S32(25, x))
  }

  function LittleSigma0(x: bv32): bv32 {
    Xor3(S32(7, x), S32(18, x), R(3, x))
  }

  function LittleSigma1(x: bv32): bv32 {
    Xor3(S32(17, x), S32(19, x), R(10, x))
  }

  function Ch(x: bv32, y: bv32, z: bv32): bv32 {
    (x & y) ^ (!x & z)
  }

  function Maj(x: bv32, y: bv32, z: bv32): bv32 {
    (x & y) ^ (x & z) ^ (y & z)
  }

  const INITIAL: State := [
    0x6a09e667, 0xbb67ae85, 0x3c6ef372, 0xa54ff53a, 0x510e527f, 0x9b05688c, 0x1f83d9ab, 0x5be0cd19
  ]

  /** The constants of section 4.2.2, eight in a row. */
  function K(t: nat): bv32
    requires t < 64
  {
    var row, k := t / 8, t % 8;
    if row == 0 then Pick(k, 0x428a2f98, 0x71374491, 0xb5c0fbcf, 0xe9b5dba5, 0x3956c25b, 0x59f111f1, 0x923f82a4, 0xab1c5ed5)
    else if row == 1 then Pick(k, 0xd807aa98, 0x12835b01, 0x243185be, 0x550c7dc3, 0x72be5d74, 0x80deb1fe, 0x9bdc06a7, 0xc19bf174)
    else if row == 2 then Pick(k, 0xe49b69c1, 0xefbe4786, 0x0fc19dc6, 0x240ca1cc, 0x2de92c6f, 0x4a7484aa, 0x5cb0a9dc, 0x76f988da)
    else if row == 3 then Pick(k, 0x983e5152, 0xa831c66d, 0xb00327c8, 0xbf597fc7, 0xc6e00bf3, 0xd5a79147, 0x06ca6351, 0x14292967)
    else if row == 4 then Pick(k, 0x27b70a85, 0x2e1b2138, 0x4d2c6dfc, 0x53380d13, 0x650a7354, 0x766a0abb, 0x81c2c92e, 0x92722c85)
    else if row == 5 then Pick(k, 0xa2bfe8a1, 0xa81a664b, 0xc24b8b70, 0xc76c51a3, 0xd192e819, 0xd6990624, 0xf40e3585, 0x106aa070)
    else if row == 6 then Pick(k, 0x19a4c116, 0x1e376c08, 0x2748774c, 0x34b0bcb5, 0x391c0cb3, 0x4ed8aa4a, 0x5b9cca4f, 0x682e6ff3)
    else Pick(k, 0x748f82ee, 0x78a5636f, 0x84c87814, 0x8cc70208, 0x90befffa, 0xa4506ceb, 0xbef9a3f7, 0xc67178f2)
  }

  function Pick(k: nat, a: bv32, b: bv32, c: bv32, d: bv32, e: bv32, f: bv32, g: bv32, h: bv32): bv32 {
    if k == 0 then a else if k == 1 then b else if k == 2 then c else if k == 3 then d
    else if k == 4 then e else if k == 5 then f else if k == 6 then g else h
  }

  function BigEndianWord(b: seq<byte>): bv32
    requires |b| == 4
  {
    Joined(Joined(Joined(FromByte(b[0]), b[1]), b[2]), b[3])
  }

  /** Word `t` of the 64-word message schedule. */
  function Schedule(block: Block, t: nat): bv32 {
    if t < 16 then BigEndianWord(block[4 * t..4 * t + 4])
    else Add(Add(Add(LittleSigma1(Schedule(block, t - 2)), Schedule(block, t - 7)),
                 LittleSigma0(Schedule(block, t - 15))), Schedule(block, t - 16))
  }

  datatype Regs = Regs(a: bv32, b: bv32, c: bv32, d: bv32, e: bv32, f: bv32, g: bv32, h: bv32)

  function T1(e: bv32, f: bv32, g: bv32, h: bv32, k: bv32, w: bv32): bv32 {
    Add(Add(Add(Add(h, Sigma1(e)), Ch(e, f, g)), k), w)
  }

  function Round(r: Regs, k: bv32, w: bv32): Regs {
    var t1 := T1(r.e, r.f, r.g, r.h, k, w);
    var t2 := Add(Sigma0(r.a), Maj(r.a, r.b, r.c));
    Regs(Add(t1, t2), r.a, r.b, r.c, Add(r.d, t1), r.e, r.f, r.g)
  }

  /** The working variables after the first `n` rounds. */
  function Rounds(s: State, block: Block, n: nat): Regs
    requires n <= 64
  {
    if n == 0 then Regs(s[0], s[1], s[2], s[3], s[4], s[5], s[6], s[7])
    else Round(Rounds(s, block, n - 1), K(n - 1), Schedule(block, n - 1))
  }

  function AddRegs(s: State, r: Regs): State {
    [Add(s[0], r.a), Add(s[1], r.b), Add(s[2], r.c), Add(s[3], r.d),
     Add(s[4], r.e), Add(s[5], r.f), Add(s[6], r.g), Add(s[7], r.h)]
  }

  function Compress(s: State, block: Block): State {
    AddRegs(s, Rounds(s, block, 64))
  }

  // ------------------------------------------------------------------
  // The sixteen-word rolling schedule
  // ------------------------------------------------------------------

  /** The ring holds the last sixteen schedule words before word `j`, each at its index modulo 16. */
  ghost predicate Rolling(w: seq<bv32>, block: Block, j: nat)
    requires |w| == 16
  {
    forall t: nat :: t < j <= t + 16 ==> w[t % 16] == Schedule(block, t)
  }

  /** The four ring slots a new word is made from. */
  lemma RingSlots(j: nat)
    requires j >= 16
    ensures (j + 1) % 16 == (j - 15) % 16 && (j + 14) % 16 == (j - 2) % 16
    ensures (j + 9) % 16 == (j - 7) % 16 && j % 16 == (j - 16) % 16
  {
  }

  lemma {:induction false} RollOn(w: seq<bv32>, block: Block, j: nat)
    requires |w| == 16 && Rolling(w, block, j)
    ensures Rolling(w[j % 16 := Schedule(block, j)], block, j + 1)
  {
    forall t: nat | t < j + 1 <= t + 16
      ensures w[j % 16 := Schedule(block, j)][t % 16] == Schedule(block, t)
    {
      if t < j {
        DistinctSlots(t, j);
      }
    }
  }

  lemma DistinctSlots(t: nat, j: nat)
    requires t < j < t + 16
    ensures t % 16 != j % 16
  {
  }

  method LoadWord(w: array<bv32>, data: Block, j: nat)
    requires w.Length == 16 && j < 16 && Rolling(w[..], data, j)
    modifies w
    ensures Rolling(w[..], data, j + 1) && w[j] == Schedule(data, j)
  {
    RollOn(w[..], data, j);
    assert j % 16 == j;
    hide *;
    w[j] := BigEndianWord(data[4 * j..4 * j + 4]);
  }

  lemma {:induction false} ScheduleStep(block: Block, j: nat)
    requires j >= 16
    ensures Schedule(block, j) == Add(Add(Add(LittleSigma1(Schedule(block, j - 2)), Schedule(block, j - 7)),
                                          LittleSigma0(Schedule(block, j - 15))), Schedule(block, j - 16))
  {
    hide LittleSigma0, LittleSigma1, BigEndianWord, Add;
  }

  /** The new word of the ring is word `j` of the full schedule. */
  lemma {:induction false} RolledWord(w: seq<bv32>, block: Block, j: nat)
    requires |w| == 16 && j >= 16 && Rolling(w, block, j)
    ensures Add(w[j % 16], Add(Add(LittleSigma1(w[(j + 14) % 16]), w[(j + 9) % 16]), LittleSigma0(w[(j + 1) % 16])))
      == Schedule(block, j)
  {
    hide LittleSigma0, LittleSigma1, Schedule, Add;
    RingSlots(j);
    ScheduleStep(block, j);
    assert w[(j - 15) % 16] == Schedule(block, j - 15) && w[(j - 2) % 16] == Schedule(block, j - 2);
    assert w[(j - 7) % 16] == Schedule(block, j - 7) && w[(j - 16) % 16] == Schedule(block, j - 16);
    AddCommutes(w[j % 16], Add(Add(LittleSigma1(w[(j + 14) % 16]), w[(j + 9) % 16]), LittleSigma0(w[(j + 1) % 16])));
  }

  /** Word `j` replaces word `j - 16` in place. */
  method ExpandWord(w: array<bv32>, ghost block: Block, j: nat)
    requires w.Length == 16 && j >= 16 && Rolling(w[..], block, j)
    modifies w
    ensures Rolling(w[..], block, j + 1) && w[j % 16] == Schedule(block, j)
  {
    hide *;
    RolledWord(w[..], block, j);
    RollOn(w[..], block, j);
    var s0 := LittleSigma0(w[(j + 1) % 16]);
    var s1 := LittleSigma1(w[(j + 14) % 16]);
    w[j % 16] := Add(w[j % 16], Add(Add(s1, w[(j + 9) % 16]), s0));
  }

  // ------------------------------------------------------------------
  // The plain round loop
  // ------------------------------------------------------------------

  /** One application of the compression step with fresh names for the eight registers. */
  method TransformPlain(state: array<bv32>, data: Block)
    requires state.Length == 8
    modifies state
    ensures state[..] == Compress(old(state[..]), data)
  {
    hide *;
    ghost var s: State := state[..];
    var w := new bv32[16];
    var a, b, c, d, e, f, g, h := state[0], state[1], state[2], state[3], state[4], state[5], state[6], state[7];
    StartRounds(s, data, w[..]);
    var j := 0;
    while j < 64
      invariant 0 <= j <= 64 && state[..] == s
      invariant Rolling(w[..], data, j)
      invariant Regs(a, b, c, d, e, f, g, h) == Rounds(s, data, j)
    {
      if j < 16 {
        LoadWord(w, data, j);
      } else {
        ExpandWord(w, data, j);
      }
      var word := w[j % 16];
      NextRound(s, data, j, a, b, c, d, e, f, g, h);
      var t1 := T1(e, f, g, h, K(j), word);
      var t2 := Add(Sigma0(a), Maj(a, b, c));
      h := g;
      g := f;
      f := e;
      e := Add(d, t1);
      d := c;
      c := b;
      b := a;
      a := Add(t1, t2);
      j := j + 1;
    }
    FinalState(s, data, a, b, c, d, e, f, g, h);
    AddToState(state, a, b, c, d, e, f, g, h);
  }

  method AddToState(state: array<bv32>, a: bv32, b: bv32, c: bv32, d: bv32, e: bv32, f: bv32, g: bv32, h: bv32)
    requires state.Length == 8
    modifies state
    ensures state[..] == AddRegs(old(state[..]), Regs(a, b, c, d, e, f, g, h))
  {
    hide Add, AddRegs;
    ghost var s: State := state[..];
    state[0] := Add(state[0], a);
    state[1] := Add(state[1], b);
    state[2] := Add(state[2], c);
    state[3] := Add(state[3], d);
    state[4] := Add(state[4], e);
    state[5] := Add(state[5], f);
    state[6] := Add(state[6], g);
    state[7] := Add(state[7], h);
    AddedUp(s, Regs(a, b, c, d, e, f, g, h), state[..]);
  }

  lemma AddedUp(s: State, r: Regs, after: seq<bv32>)
    requires |after| == 8 && after[0] == Add(s[0], r.a) && after[1] == Add(s[1], r.b) && after[2] == Add(s[2], r.c)
    requires after[3] == Add(s[3], r.d) && after[4] == Add(s[4], r.e) && after[5] == Add(s[5], r.f)
    requires after[6] == Add(s[6], r.g) && after[7] == Add(s[7], r.h)
    ensures after == AddRegs(s, r)
  {
    hide Add;
  }

  lemma {:induction false} StartRounds(s: State, block: Block, w: seq<bv32>)
    requires |w| == 16
    ensures Rolling(w, block, 0)
    ensures Rounds(s, block, 0) == Regs(s[0], s[1], s[2], s[3], s[4], s[5], s[6], s[7])
  {
  }

  lemma {:induction false} NextRound(s: State, block: Block, j: nat, a: bv32, b: bv32, c: bv32, d: bv32, e: bv32, f: bv32, g: bv32, h: bv32)
    requires j < 64 && Rounds(s, block, j) == Regs(a, b, c, d, e, f, g, h)
    ensures var t1 := T1(e, f, g, h, K(j), Schedule(block, j));
      var t2 := Add(Sigma0(a), Maj(a, b, c));
      Rounds(s, block, j + 1) == Regs(Add(t1, t2), a, b, c, Add(d, t1), e, f, g)
  {
    hide Sigma0, T1, Maj, K, Schedule, Add;
  }

  lemma {:induction false} FinalState(s: State, block: Block, a: bv32, b: bv32, c: bv32, d: bv32, e: bv32, f: bv32, g: bv32, h: bv32)
    requires Rounds(s, block, 64) == Regs(a, b, c, d, e, f, g, h)
    ensures Compress(s, block) == AddRegs(s, Regs(a, b, c, d, e, f, g, h))
  {
    hide Rounds, AddRegs;
  }

  // ------------------------------------------------------------------
  // The unrolled round loop
  // ------------------------------------------------------------------

  /** The body of both round macros: only the fourth and the eighth register change. */
  method RoundMacro(a: bv32, b: bv32, c: bv32, d: bv32, e: bv32, f: bv32, g: bv32, h: bv32, k: bv32, word: bv32)
    returns (d': bv32, h': bv32)
    ensures Round(Regs(a, b, c, d, e, f, g, h), k, word) == Regs(h', a, b, c, d', e, f, g)
  {
    hide Sigma0, T1, Maj, Add;
    var t1 := T1(e, f, g, h, k, word);
    d' := Add(d, t1);
    h' := Add(Add(t1, Sigma0(a)), Maj(a, b, c));
    AddAssociates(t1, Sigma0(a), Maj(a, b, c));
  }

  /** One macro of the unrolled loop: schedule word `j`, then round `j` on renamed registers. */
  method UnrolledRound(w: array<bv32>, data: Block, ghost s: State, j: nat,
                       a: bv32, b: bv32, c: bv32, d: bv32, e: bv32, f: bv32, g: bv32, h: bv32)
    returns (d': bv32, h': bv32)
    requires w.Length == 16 && j < 64 && Rolling(w[..], data, j)
    requires Regs(a, b, c, d, e, f, g, h) == Rounds(s, data, j)
    modifies w
    ensures Rolling(w[..], data, j + 1)
    ensures Regs(h', a, b, c, d', e, f, g) == Rounds(s, data, j + 1)
  {
    hide *;
    if j < 16 {
      LoadWord(w, data, j);
    } else {
      ExpandWord(w, data, j);
    }
    d', h' := RoundMacro(a, b, c, d, e, f, g, h, K(j), w[j % 16]);
    RoundStep(s, data, j);
  }

  lemma {:induction false} RoundStep(s: State, block: Block, j: nat)
    requires j < 64
    ensures Rounds(s, block, j + 1) == Round(Rounds(s, block, j), K(j), Schedule(block, j))
  {
    hide Round, K, Schedule;
  }

  /** The body of the loop: eight macros, each with the register names rotated by one place. */
  method EightRounds(w: array<bv32>, data: Block, ghost s: State, j: nat,
                     a0: bv32, b0: bv32, c0: bv32, d0: bv32, e0: bv32, f0: bv32, g0: bv32, h0: bv32)
    returns (a: bv32, b: bv32, c: bv32, d: bv32, e: bv32, f: bv32, g: bv32, h: bv32)
    requires w.Length == 16 && j + 8 <= 64 && Rolling(w[..], data, j)
    requires Regs(a0, b0, c0, d0, e0, f0, g0, h0) == Rounds(s, data, j)
    modifies w
    ensures Rolling(w[..], data, j + 8)
    ensures Regs(a, b, c, d, e, f, g, h) == Rounds(s, data, j + 8)
  {
    hide *;
    a, b, c, d, e, f, g, h := a0, b0, c0, d0, e0, f0, g0, h0;
    d, h := UnrolledRound(w, data, s, j, a, b, c, d, e, f, g, h);
    c, g := UnrolledRound(w, data, s, j + 1, h, a, b, c, d, e, f, g);
    b, f := UnrolledRound(w, data, s, j + 2, g, h, a, b, c, d, e, f);
    a, e := UnrolledRound(w, data, s, j + 3, f, g, h, a, b, c, d, e);
    h, d := UnrolledRound(w, data, s, j + 4, e, f, g, h, a, b, c, d);
    g, c := UnrolledRound(w, data, s, j + 5, d, e, f, g, h, a, b, c);
    f, b := UnrolledRound(w, data, s, j + 6, c, d, e, f, g, h, a, b);
    e, a := UnrolledRound(w, data, s, j + 7, b, c, d, e, f, g, h, a);
  }

  /** Eight rounds per iteration. */
  method TransformUnrolled(state: array<bv32>, data: Block)
    requires state.Length == 8
    modifies state
    ensures state[..] == Compress(old(state[..]), data)
  {
    hide *;
    ghost var s: State := state[..];
    var w := new bv32[16];
    var a, b, c, d, e, f, g, h := state[0], state[1], state[2], state[3], state[4], state[5], state[6], state[7];
    StartRounds(s, data, w[..]);
    var j := 0;
    while j < 64
      invariant 0 <= j <= 64 && j % 8 == 0 && state[..] == s
      invariant Rolling(w[..], data, j)
      invariant Regs(a, b, c, d, e, f, g, h) == Rounds(s, data, j)
    {
      a, b, c, d, e, f, g, h := EightRounds(w, data, s, j, a, b, c, d, e, f, g, h);
      j := j + 8;
    }
    FinalState(s, data, a, b, c, d, e, f, g, h);
    AddToState(state, a, b, c, d, e, f, g, h);
  }
}
