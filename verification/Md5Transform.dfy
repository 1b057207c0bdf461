/**
 * The MD5 compression function: steps 1 to 64 of section 3.4 of RFC 1321 by their regular
 * pattern, and the transform that writes them out with renamed registers.
 */
module Md5Transform {
  import opened Blocks
  import opened Bytes
  import opened Words

  type State = s: seq<bv32> | |s| == 4 witness seq(4, _ => 0)

  // ---- RFC 1321 ----

  datatype Kind = F | G | H | I

  /** The four auxiliary functions. */
  function Mix(kind: Kind, x: bv32, y: bv32, z: bv32): bv32 {
    match kind
    case F => MixF(x, y, z)
    case G => MixG(x, y, z)
    case H => MixH(x, y, z)
    case I => MixI(x, y, z)
  }

  function MixF(x: bv32, y: bv32, z: bv32): bv32 {
    (x & y) | (!x & z)
  }

  function MixG(x: bv32, y: bv32, z: bv32): bv32 {
    (x & z) | (y & !z)
  }

  function MixH(x: bv32, y: bv32, z: bv32): bv32 {
    x ^ y ^ z
  }

  function MixI(x: bv32, y: bv32, z: bv32): bv32 {
    y ^ (x | !z)
  }

  function RotateLeft(x: bv32, n: bv8): bv32
    requires n <= 32
  {
    (x << n) | (x >> (32 - n))
  }

  function KindOf(t: nat): Kind {
    if t < 16 then F else if t < 32 then G else if t < 48 then H else I
  }

  /** The message word step `t` uses. */
  function WordIndex(t: nat): (k: nat)
    ensures k < 16
  {
    match KindOf(t)
    case F => t % 16
    case G => (5 * t + 1) % 16
    case H => (3 * t + 5) % 16
    case I => 7 * t % 16
  }

  /** The rotation of step `t`. */
  function Shift(t: nat): (s: bv8)
    ensures s <= 32
  {
    match KindOf(t)
    case F => OneOf(t % 4, 7, 12, 17, 22)
    case G => OneOf(t % 4, 5, 9, 14, 20)
    case H => OneOf(t % 4, 4, 11, 16, 23)
    case I => OneOf(t % 4, 6, 10, 15, 21)
  }

  function OneOf(i: nat, s0: bv8, s1: bv8, s2: bv8, s3: bv8): bv8 {
    if i == 0 then s0 else if i == 1 then s1 else if i == 2 then s2 else s3
  }

  /** Elements of the sine table, by the last four bits of the step. */
  function Sine(t: nat): bv32
    requires t < 64
  {
    match KindOf(t)
    case F => Pick(t % 16, 0xd76aa478, 0xe8c7b756, 0x242070db, 0xc1bdceee, 0xf57c0faf, 0x4787c62a, 0xa8304613, 0xfd469501,
                   0x698098d8, 0x8b44f7af, 0xffff5bb1, 0x895cd7be, 0x6b901122, 0xfd987193, 0xa679438e, 0x49b40821)
    case G => Pick(t % 16, 0xf61e2562, 0xc040b340, 0x265e5a51, 0xe9b6c7aa, 0xd62f105d, 0x02441453, 0xd8a1e681, 0xe7d3fbc8,
                   0x21e1cde6, 0xc33707d6, 0xf4d50d87, 0x455a14ed, 0xa9e3e905, 0xfcefa3f8, 0x676f02d9, 0x8d2a4c8a)
    case H => Pick(t % 16, 0xfffa3942, 0x8771f681, 0x6d9d6122, 0xfde5380c, 0xa4beea44, 0x4bdecfa9, 0xf6bb4b60, 0xbebfbc70,
                   0x289b7ec6, 0xeaa127fa, 0xd4ef3085, 0x04881d05, 0xd9d4d039, 0xe6db99e5, 0x1fa27cf8, 0xc4ac5665)
    case I => Pick(t % 16, 0xf4292244, 0x432aff97, 0xab9423a7, 0xfc93a039, 0x655b59c3, 0x8f0ccc92, 0xffeff47d, 0x85845dd1,
                   0x6fa87e4f, 0xfe2ce6e0, 0xa3014314, 0x4e0811a1, 0xf7537e82, 0xbd3af235, 0x2ad7d2bb, 0xeb86d391)
  }

  function Pick(i: nat, t0: bv32, t1: bv32, t2: bv32, t3: bv32, t4: bv32, t5: bv32, t6: bv32, t7: bv32,
                t8: bv32, t9: bv32, t10: bv32, t11: bv32, t12: bv32, t13: bv32, t14: bv32, t15: bv32): bv32
  {
    if i == 0 then t0 else if i == 1 then t1 else if i == 2 then t2 else if i == 3 then t3
    else if i == 4 then t4 else if i == 5 then t5 else if i == 6 then t6 else if i == 7 then t7
    else if i == 8 then t8 else if i == 9 then t9 else if i == 10 then t10 else if i == 11 then t11
    else if i == 12 then t12 else if i == 13 then t13 else if i == 14 then t14 else t15
  }

  /** Four bytes of a block as a word, least significant first. */
  function MessageWord(block: Block, k: nat): bv32
    requires k < 16
  {
    LittleEndianWord(block[4 * k..4 * k + 4])
  }

  function LittleEndianWord(b: seq<byte>): bv32
    requires |b| == 4
  {
    Joined(Joined(Joined(FromByte(b[3]), b[2]), b[1]), b[0])
  }

  datatype Regs = Regs(a: bv32, b: bv32, c: bv32, d: bv32)

  /** One step: the first register is replaced, and the names move on by one. */
  function Step(r: Regs, t: nat, x: bv32): Regs
    requires t < 64
  {
    var sum := Add(Add(Add(r.a, Mix(KindOf(t), r.b, r.c, r.d)), x), Sine(t));
    Regs(r.d, Add(r.b, RotateLeft(sum, Shift(t))), r.b, r.c)
  }

  function Steps(s: State, block: Block, n: nat): Regs
    requires n <= 64
  {
    if n == 0 then Regs(s[0], s[1], s[2], s[3])
    else Step(Steps(s, block, n - 1), n - 1, MessageWord(block, WordIndex(n - 1)))
  }

  function AddRegs(s: State, r: Regs): State {
    [Add(s[0], r.a), Add(s[1], r.b), Add(s[2], r.c), Add(s[3], r.d)]
  }

  function Compress(s: State, block: Block): State {
    AddRegs(s, Steps(s, block, 64))
  }

  // ---- The transform ----

  /** The common body of the four macros. */
  method Macro(kind: Kind, a: bv32, b: bv32, c: bv32, d: bv32, x: bv32, s: bv8, ac: bv32) returns (a': bv32)
    requires s <= 32
    ensures a' == Add(b, RotateLeft(Add(Add(Add(a, Mix(kind, b, c, d)), x), ac), s))
  {
    hide Mix, Add, RotateLeft;
    AddAssociates(Add(a, Mix(kind, b, c, d)), x, ac);
    AddAssociates(a, Mix(kind, b, c, d), Add(x, ac));
    AddAssociates(Mix(kind, b, c, d), x, ac);
    a' := Add(a, Add(Add(Mix(kind, b, c, d), x), ac));
    a' := RotateLeft(a', s);
    AddCommutes(a', b);
    a' := Add(a', b);
  }

  /** The arguments of a macro call are those of step `t`. */
  predicate IsStep(t: nat, kind: Kind, k: nat, s: bv8, ac: bv32) {
    t < 64 && kind == KindOf(t) && k == WordIndex(t) && s == Shift(t) && ac == Sine(t)
  }

  method Line(ghost st: State, ghost block: Block, ghost t: nat, x: seq<bv32>,
              kind: Kind, a: bv32, b: bv32, c: bv32, d: bv32, k: nat, s: bv8, ac: bv32) returns (a': bv32)
    requires IsStep(t, kind, k, s, ac) && |x| == 16 && k < 16 && s <= 32
    requires forall i :: 0 <= i < 16 ==> x[i] == MessageWord(block, i)
    requires Regs(a, b, c, d) == Steps(st, block, t)
    ensures Regs(d, a', b, c) == Steps(st, block, t + 1)
  {
    hide Mix, Add, RotateLeft, MessageWord, Sine, Shift, WordIndex, KindOf;
    a' := Macro(kind, a, b, c, d, x[k], s, ac);
  }

  method LoadWords(block: Block) returns (x: seq<bv32>)
    ensures |x| == 16 && forall i :: 0 <= i < 16 ==> x[i] == MessageWord(block, i)
  {
    x := [];
    for i := 0 to 16
      invariant |x| == i && forall k :: 0 <= k < i ==> x[k] == MessageWord(block, k)
    {
      x := x + [LittleEndianWord(block[4 * i..4 * i + 4])];
    }
  }

  lemma Arguments1()
    ensures
      && IsStep(0, F, 0, 7, 0xd76aa478)
      && IsStep(1, F, 1, 12, 0xe8c7b756)
      && IsStep(2, F, 2, 17, 0x242070db)
      && IsStep(3, F, 3, 22, 0xc1bdceee)
      && IsStep(4, F, 4, 7, 0xf57c0faf)
      && IsStep(5, F, 5, 12, 0x4787c62a)
      && IsStep(6, F, 6, 17, 0xa8304613)
      && IsStep(7, F, 7, 22, 0xfd469501)
      && IsStep(8, F, 8, 7, 0x698098d8)
      && IsStep(9, F, 9, 12, 0x8b44f7af)
      && IsStep(10, F, 10, 17, 0xffff5bb1)
      && IsStep(11, F, 11, 22, 0x895cd7be)
      && IsStep(12, F, 12, 7, 0x6b901122)
      && IsStep(13, F, 13, 12, 0xfd987193)
      && IsStep(14, F, 14, 17, 0xa679438e)
      && IsStep(15, F, 15, 22, 0x49b40821)
  {
    hide IsStep;
    Arguments1a();
    Arguments1b();
    Arguments1c();
    Arguments1d();
  }

  lemma Arguments1a()
    ensures IsStep(0, F, 0, 7, 0xd76aa478) && IsStep(1, F, 1, 12, 0xe8c7b756)
    ensures IsStep(2, F, 2, 17, 0x242070db) && IsStep(3, F, 3, 22, 0xc1bdceee)
  {
  }

  lemma Arguments1b()
    ensures IsStep(4, F, 4, 7, 0xf57c0faf) && IsStep(5, F, 5, 12, 0x4787c62a)
    ensures IsStep(6, F, 6, 17, 0xa8304613) && IsStep(7, F, 7, 22, 0xfd469501)
  {
  }

  lemma Arguments1c()
    ensures IsStep(8, F, 8, 7, 0x698098d8) && IsStep(9, F, 9, 12, 0x8b44f7af)
    ensures IsStep(10, F, 10, 17, 0xffff5bb1) && IsStep(11, F, 11, 22, 0x895cd7be)
  {
  }

  lemma Arguments1d()
    ensures IsStep(12, F, 12, 7, 0x6b901122) && IsStep(13, F, 13, 12, 0xfd987193)
    ensures IsStep(14, F, 14, 17, 0xa679438e) && IsStep(15, F, 15, 22, 0x49b40821)
  {
  }

  /** Round 1 of the transform: sixteen macro calls. */
  method Round1(ghost s: State, ghost block: Block, x: seq<bv32>, a0: bv32, b0: bv32, c0: bv32, d0: bv32)
      returns (a: bv32, b: bv32, c: bv32, d: bv32)
    requires |x| == 16 && forall i :: 0 <= i < 16 ==> x[i] == MessageWord(block, i)
    requires Regs(a0, b0, c0, d0) == Steps(s, block, 0)
    ensures Regs(a, b, c, d) == Steps(s, block, 16)
  {
    hide MessageWord, Steps, IsStep;
    Arguments1();
    a, b, c, d := a0, b0, c0, d0;
    a := Line(s, block, 0, x, F, a, b, c, d, 0, 7, 0xd76aa478);
    d := Line(s, block, 1, x, F, d, a, b, c, 1, 12, 0xe8c7b756);
    c := Line(s, block, 2, x, F, c, d, a, b, 2, 17, 0x242070db);
    b := Line(s, block, 3, x, F, b, c, d, a, 3, 22, 0xc1bdceee);
    a := Line(s, block, 4, x, F, a, b, c, d, 4, 7, 0xf57c0faf);
    d := Line(s, block, 5, x, F, d, a, b, c, 5, 12, 0x4787c62a);
    c := Line(s, block, 6, x, F, c, d, a, b, 6, 17, 0xa8304613);
    b := Line(s, block, 7, x, F, b, c, d, a, 7, 22, 0xfd469501);
    a := Line(s, block, 8, x, F, a, b, c, d, 8, 7, 0x698098d8);
    d := Line(s, block, 9, x, F, d, a, b, c, 9, 12, 0x8b44f7af);
    c := Line(s, block, 10, x, F, c, d, a, b, 10, 17, 0xffff5bb1);
    b := Line(s, block, 11, x, F, b, c, d, a, 11, 22, 0x895cd7be);
    a := Line(s, block, 12, x, F, a, b, c, d, 12, 7, 0x6b901122);
    d := Line(s, block, 13, x, F, d, a, b, c, 13, 12, 0xfd987193);
    c := Line(s, block, 14, x, F, c, d, a, b, 14, 17, 0xa679438e);
    b := Line(s, block, 15, x, F, b, c, d, a, 15, 22, 0x49b40821);
  }

  lemma Arguments2()
    ensures
      && IsStep(16, G, 1, 5, 0xf61e2562)
      && IsStep(17, G, 6, 9, 0xc040b340)
      && IsStep(18, G, 11, 14, 0x265e5a51)
      && IsStep(19, G, 0, 20, 0xe9b6c7aa)
      && IsStep(20, G, 5, 5, 0xd62f105d)
      && IsStep(21, G, 10, 9, 0x02441453)
      && IsStep(22, G, 15, 14, 0xd8a1e681)
      && IsStep(23, G, 4, 20, 0xe7d3fbc8)
      && IsStep(24, G, 9, 5, 0x21e1cde6)
      && IsStep(25, G, 14, 9, 0xc33707d6)
      && IsStep(26, G, 3, 14, 0xf4d50d87)
      && IsStep(27, G, 8, 20, 0x455a14ed)
      && IsStep(28, G, 13, 5, 0xa9e3e905)
      && IsStep(29, G, 2, 9, 0xfcefa3f8)
      && IsStep(30, G, 7, 14, 0x676f02d9)
      && IsStep(31, G, 12, 20, 0x8d2a4c8a)
  {
    hide IsStep;
    Arguments2a();
    Arguments2b();
    Arguments2c();
    Arguments2d();
  }

  lemma Arguments2a()
    ensures IsStep(16, G, 1, 5, 0xf61e2562) && IsStep(17, G, 6, 9, 0xc040b340)
    ensures IsStep(18, G, 11, 14, 0x265e5a51) && IsStep(19, G, 0, 20, 0xe9b6c7aa)
  {
  }

  lemma Arguments2b()
    ensures IsStep(20, G, 5, 5, 0xd62f105d) && IsStep(21, G, 10, 9, 0x02441453)
    ensures IsStep(22, G, 15, 14, 0xd8a1e681) && IsStep(23, G, 4, 20, 0xe7d3fbc8)
  {
  }

  lemma Arguments2c()
    ensures IsStep(24, G, 9, 5, 0x21e1cde6) && IsStep(25, G, 14, 9, 0xc33707d6)
    ensures IsStep(26, G, 3, 14, 0xf4d50d87) && IsStep(27, G, 8, 20, 0x455a14ed)
  {
  }

  lemma Arguments2d()
    ensures IsStep(28, G, 13, 5, 0xa9e3e905) && IsStep(29, G, 2, 9, 0xfcefa3f8)
    ensures IsStep(30, G, 7, 14, 0x676f02d9) && IsStep(31, G, 12, 20, 0x8d2a4c8a)
  {
  }

  /** Round 2 of the transform: sixteen macro calls. */
  method Round2(ghost s: State, ghost block: Block, x: seq<bv32>, a0: bv32, b0: bv32, c0: bv32, d0: bv32)
      returns (a: bv32, b: bv32, c: bv32, d: bv32)
    requires |x| == 16 && forall i :: 0 <= i < 16 ==> x[i] == MessageWord(block, i)
    requires Regs(a0, b0, c0, d0) == Steps(s, block, 16)
    ensures Regs(a, b, c, d) == Steps(s, block, 32)
  {
    hide MessageWord, Steps, IsStep;
    Arguments2();
    a, b, c, d := a0, b0, c0, d0;
    a := Line(s, block, 16, x, G, a, b, c, d, 1, 5, 0xf61e2562);
    d := Line(s, block, 17, x, G, d, a, b, c, 6, 9, 0xc040b340);
    c := Line(s, block, 18, x, G, c, d, a, b, 11, 14, 0x265e5a51);
    b := Line(s, block, 19, x, G, b, c, d, a, 0, 20, 0xe9b6c7aa);
    a := Line(s, block, 20, x, G, a, b, c, d, 5, 5, 0xd62f105d);
    d := Line(s, block, 21, x, G, d, a, b, c, 10, 9, 0x02441453);
    c := Line(s, block, 22, x, G, c, d, a, b, 15, 14, 0xd8a1e681);
    b := Line(s, block, 23, x, G, b, c, d, a, 4, 20, 0xe7d3fbc8);
    a := Line(s, block, 24, x, G, a, b, c, d, 9, 5, 0x21e1cde6);
    d := Line(s, block, 25, x, G, d, a, b, c, 14, 9, 0xc33707d6);
    c := Line(s, block, 26, x, G, c, d, a, b, 3, 14, 0xf4d50d87);
    b := Line(s, block, 27, x, G, b, c, d, a, 8, 20, 0x455a14ed);
    a := Line(s, block, 28, x, G, a, b, c, d, 13, 5, 0xa9e3e905);
    d := Line(s, block, 29, x, G, d, a, b, c, 2, 9, 0xfcefa3f8);
    c := Line(s, block, 30, x, G, c, d, a, b, 7, 14, 0x676f02d9);
    b := Line(s, block, 31, x, G, b, c, d, a, 12, 20, 0x8d2a4c8a);
  }

  lemma Arguments3()
    ensures
      && IsStep(32, H, 5, 4, 0xfffa3942)
      && IsStep(33, H, 8, 11, 0x8771f681)
      && IsStep(34, H, 11, 16, 0x6d9d6122)
      && IsStep(35, H, 14, 23, 0xfde5380c)
      && IsStep(36, H, 1, 4, 0xa4beea44)
      && IsStep(37, H, 4, 11, 0x4bdecfa9)
      && IsStep(38, H, 7, 16, 0xf6bb4b60)
      && IsStep(39, H, 10, 23, 0xbebfbc70)
      && IsStep(40, H, 13, 4, 0x289b7ec6)
      && IsStep(41, H, 0, 11, 0xeaa127fa)
      && IsStep(42, H, 3, 16, 0xd4ef3085)
      && IsStep(43, H, 6, 23, 0x04881d05)
      && IsStep(44, H, 9, 4, 0xd9d4d039)
      && IsStep(45, H, 12, 11, 0xe6db99e5)
      && IsStep(46, H, 15, 16, 0x1fa27cf8)
      && IsStep(47, H, 2, 23, 0xc4ac5665)
  {
    hide IsStep;
    Arguments3a();
    Arguments3b();
    Arguments3c();
    Arguments3d();
  }

  lemma Arguments3a()
    ensures IsStep(32, H, 5, 4, 0xfffa3942) && IsStep(33, H, 8, 11, 0x8771f681)
    ensures IsStep(34, H, 11, 16, 0x6d9d6122) && IsStep(35, H, 14, 23, 0xfde5380c)
  {
  }

  lemma Arguments3b()
    ensures IsStep(36, H, 1, 4, 0xa4beea44) && IsStep(37, H, 4, 11, 0x4bdecfa9)
    ensures IsStep(38, H, 7, 16, 0xf6bb4b60) && IsStep(39, H, 10, 23, 0xbebfbc70)
  {
  }

  lemma Arguments3c()
    ensures IsStep(40, H, 13, 4, 0x289b7ec6) && IsStep(41, H, 0, 11, 0xeaa127fa)
    ensures IsStep(42, H, 3, 16, 0xd4ef3085) && IsStep(43, H, 6, 23, 0x04881d05)
  {
  }

  lemma Arguments3d()
    ensures IsStep(44, H, 9, 4, 0xd9d4d039) && IsStep(45, H, 12, 11, 0xe6db99e5)
    ensures IsStep(46, H, 15, 16, 0x1fa27cf8) && IsStep(47, H, 2, 23, 0xc4ac5665)
  {
  }

  /** Round 3 of the transform: sixteen macro calls. */
  method Round3(ghost s: State, ghost block: Block, x: seq<bv32>, a0: bv32, b0: bv32, c0: bv32, d0: bv32)
      returns (a: bv32, b: bv32, c: bv32, d: bv32)
    requires |x| == 16 && forall i :: 0 <= i < 16 ==> x[i] == MessageWord(block, i)
    requires Regs(a0, b0, c0, d0) == Steps(s, block, 32)
    ensures Regs(a, b, c, d) == Steps(s, block, 48)
  {
    hide MessageWord, Steps, IsStep;
    Arguments3();
    a, b, c, d := a0, b0, c0, d0;
    a := Line(s, block, 32, x, H, a, b, c, d, 5, 4, 0xfffa3942);
    d := Line(s, block, 33, x, H, d, a, b, c, 8, 11, 0x8771f681);
    c := Line(s, block, 34, x, H, c, d, a, b, 11, 16, 0x6d9d6122);
    b := Line(s, block, 35, x, H, b, c, d, a, 14, 23, 0xfde5380c);
    a := Line(s, block, 36, x, H, a, b, c, d, 1, 4, 0xa4beea44);
    d := Line(s, block, 37, x, H, d, a, b, c, 4, 11, 0x4bdecfa9);
    c := Line(s, block, 38, x, H, c, d, a, b, 7, 16, 0xf6bb4b60);
    b := Line(s, block, 39, x, H, b, c, d, a, 10, 23, 0xbebfbc70);
    a := Line(s, block, 40, x, H, a, b, c, d, 13, 4, 0x289b7ec6);
    d := Line(s, block, 41, x, H, d, a, b, c, 0, 11, 0xeaa127fa);
    c := Line(s, block, 42, x, H, c, d, a, b, 3, 16, 0xd4ef3085);
    b := Line(s, block, 43, x, H, b, c, d, a, 6, 23, 0x04881d05);
    a := Line(s, block, 44, x, H, a, b, c, d, 9, 4, 0xd9d4d039);
    d := Line(s, block, 45, x, H, d, a, b, c, 12, 11, 0xe6db99e5);
    c := Line(s, block, 46, x, H, c, d, a, b, 15, 16, 0x1fa27cf8);
    b := Line(s, block, 47, x, H, b, c, d, a, 2, 23, 0xc4ac5665);
  }

  lemma Arguments4()
    ensures
      && IsStep(48, I, 0, 6, 0xf4292244)
      && IsStep(49, I, 7, 10, 0x432aff97)
      && IsStep(50, I, 14, 15, 0xab9423a7)
      && IsStep(51, I, 5, 21, 0xfc93a039)
      && IsStep(52, I, 12, 6, 0x655b59c3)
      && IsStep(53, I, 3, 10, 0x8f0ccc92)
      && IsStep(54, I, 10, 15, 0xffeff47d)
      && IsStep(55, I, 1, 21, 0x85845dd1)
      && IsStep(56, I, 8, 6, 0x6fa87e4f)
      && IsStep(57, I, 15, 10, 0xfe2ce6e0)
      && IsStep(58, I, 6, 15, 0xa3014314)
      && IsStep(59, I, 13, 21, 0x4e0811a1)
      && IsStep(60, I, 4, 6, 0xf7537e82)
      && IsStep(61, I, 11, 10, 0xbd3af235)
      && IsStep(62, I, 2, 15, 0x2ad7d2bb)
      && IsStep(63, I, 9, 21, 0xeb86d391)
  {
    hide IsStep;
    Arguments4a();
    Arguments4b();
    Arguments4c();
    Arguments4d();
  }

  lemma Arguments4a()
    ensures IsStep(48, I, 0, 6, 0xf4292244) && IsStep(49, I, 7, 10, 0x432aff97)
    ensures IsStep(50, I, 14, 15, 0xab9423a7) && IsStep(51, I, 5, 21, 0xfc93a039)
  {
  }

  lemma Arguments4b()
    ensures IsStep(52, I, 12, 6, 0x655b59c3) && IsStep(53, I, 3, 10, 0x8f0ccc92)
    ensures IsStep(54, I, 10, 15, 0xffeff47d) && IsStep(55, I, 1, 21, 0x85845dd1)
  {
  }

  lemma Arguments4c()
    ensures IsStep(56, I, 8, 6, 0x6fa87e4f) && IsStep(57, I, 15, 10, 0xfe2ce6e0)
    ensures IsStep(58, I, 6, 15, 0xa3014314) && IsStep(59, I, 13, 21, 0x4e0811a1)
  {
  }

  lemma Arguments4d()
    ensures IsStep(60, I, 4, 6, 0xf7537e82) && IsStep(61, I, 11, 10, 0xbd3af235)
    ensures IsStep(62, I, 2, 15, 0x2ad7d2bb) && IsStep(63, I, 9, 21, 0xeb86d391)
  {
  }

  /** Round 4 of the transform: sixteen macro calls. */
  method Round4(ghost s: State, ghost block: Block, x: seq<bv32>, a0: bv32, b0: bv32, c0: bv32, d0: bv32)
      returns (a: bv32, b: bv32, c: bv32, d: bv32)
    requires |x| == 16 && forall i :: 0 <= i < 16 ==> x[i] == MessageWord(block, i)
    requires Regs(a0, b0, c0, d0) == Steps(s, block, 48)
    ensures Regs(a, b, c, d) == Steps(s, block, 64)
  {
    hide MessageWord, Steps, IsStep;
    Arguments4();
    a, b, c, d := a0, b0, c0, d0;
    a := Line(s, block, 48, x, I, a, b, c, d, 0, 6, 0xf4292244);
    d := Line(s, block, 49, x, I, d, a, b, c, 7, 10, 0x432aff97);
    c := Line(s, block, 50, x, I, c, d, a, b, 14, 15, 0xab9423a7);
    b := Line(s, block, 51, x, I, b, c, d, a, 5, 21, 0xfc93a039);
    a := Line(s, block, 52, x, I, a, b, c, d, 12, 6, 0x655b59c3);
    d := Line(s, block, 53, x, I, d, a, b, c, 3, 10, 0x8f0ccc92);
    c := Line(s, block, 54, x, I, c, d, a, b, 10, 15, 0xffeff47d);
    b := Line(s, block, 55, x, I, b, c, d, a, 1, 21, 0x85845dd1);
    a := Line(s, block, 56, x, I, a, b, c, d, 8, 6, 0x6fa87e4f);
    d := Line(s, block, 57, x, I, d, a, b, c, 15, 10, 0xfe2ce6e0);
    c := Line(s, block, 58, x, I, c, d, a, b, 6, 15, 0xa3014314);
    b := Line(s, block, 59, x, I, b, c, d, a, 13, 21, 0x4e0811a1);
    a := Line(s, block, 60, x, I, a, b, c, d, 4, 6, 0xf7537e82);
    d := Line(s, block, 61, x, I, d, a, b, c, 11, 10, 0xbd3af235);
    c := Line(s, block, 62, x, I, c, d, a, b, 2, 15, 0x2ad7d2bb);
    b := Line(s, block, 63, x, I, b, c, d, a, 9, 21, 0xeb86d391);
  }

  /** The transform of one block. */
  method Transform(state: State, block: Block) returns (after: State)
    ensures after == Compress(state, block)
  {
    hide MessageWord, Steps, Add;
    var x := LoadWords(block);
    StepsStart(state, block);
    var a, b, c, d := Round1(state, block, x, state[0], state[1], state[2], state[3]);
    a, b, c, d := Round2(state, block, x, a, b, c, d);
    a, b, c, d := Round3(state, block, x, a, b, c, d);
    a, b, c, d := Round4(state, block, x, a, b, c, d);
    after := [Add(state[0], a), Add(state[1], b), Add(state[2], c), Add(state[3], d)];
  }

  lemma StepsStart(s: State, block: Block)
    ensures Steps(s, block, 0) == Regs(s[0], s[1], s[2], s[3])
  {
  }
}
