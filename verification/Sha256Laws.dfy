/** What the functions of section 4.1.2 of FIPS 180-4 do to each bit, and what the byte orders make of words and numbers. */
module Sha256Laws {
  import opened Bytes
  import opened Words
  import opened Sha256
  import opened Sha256Stream

  // ---- Bits ----

  /** The sum of three bits modulo 2. */
  function Parity(a: nat, b: nat, c: nat): nat {
    (a + b + c) % 2
  }

  /** The place `n` further on, around the end of a word. */
  function Around(i: nat, n: nat): (j: nat)
    ensures j < 32
  {
    (i + n) % 32
  }

  lemma XorHalf(a: bv32, b: bv32, c: bv32)
    ensures Half(Xor3(a, b, c)) == Xor3(Half(a), Half(b), Half(c))
    ensures LowBit(Xor3(a, b, c)) == Parity(LowBit(a), LowBit(b), LowBit(c))
  {
  }

  lemma {:induction false} XorBits(a: bv32, b: bv32, c: bv32, n: nat, i: nat)
    requires i < n
    ensures Bit(ValueOf(Xor3(a, b, c), n), i) == Parity(Bit(ValueOf(a, n), i), Bit(ValueOf(b, n), i), Bit(ValueOf(c, n), i))
    decreases n
  {
    hide Xor3, Half, LowBit, ValueOf, Bit, Parity;
    XorHalf(a, b, c);
    BitStep(Xor3(a, b, c), n, i);
    BitStep(a, n, i);
    BitStep(b, n, i);
    BitStep(c, n, i);
    if i > 0 {
      XorBits(Half(a), Half(b), Half(c), n - 1, i - 1);
    }
  }

  lemma NumberIs(w: bv32)
    ensures Number(w) == ValueOf(w, 32)
  {
  }

  lemma XorNumber(a: bv32, b: bv32, c: bv32, i: nat)
    requires i < 32
    ensures Bit(Number(Xor3(a, b, c)), i) == Parity(Bit(Number(a), i), Bit(Number(b), i), Bit(Number(c), i))
  {
    hide Xor3, ValueOf, Bit, Number, Parity;
    NumberIs(a);
    NumberIs(b);
    NumberIs(c);
    NumberIs(Xor3(a, b, c));
    XorBits(a, b, c, 32, i);
  }

  lemma Turn2At(x: bv32, k: bv8)
    requires k < 32
    ensures At(S32(2, x), k) == At(x, (k + 2) & 31)
  {
  }

  lemma Turn2Bits(x: bv32, i: nat)
    requires i < 32
    ensures Bit(Number(S32(2, x)), i) == Bit(Number(x), Around(i, 2))
  {
    hide At, Index, Number, Bit, S32, Around;
    Distances();
    NumberBit(S32(2, x), i);
    TurnedBit(x, i, 2);
    Turn2At(x, Index(i));
  }

  lemma Turn13At(x: bv32, k: bv8)
    requires k < 32
    ensures At(S32(13, x), k) == At(x, (k + 13) & 31)
  {
  }

  lemma Turn13Bits(x: bv32, i: nat)
    requires i < 32
    ensures Bit(Number(S32(13, x)), i) == Bit(Number(x), Around(i, 13))
  {
    hide At, Index, Number, Bit, S32, Around;
    Distances();
    NumberBit(S32(13, x), i);
    TurnedBit(x, i, 13);
    Turn13At(x, Index(i));
  }

  lemma Turn22At(x: bv32, k: bv8)
    requires k < 32
    ensures At(S32(22, x), k) == At(x, (k + 22) & 31)
  {
  }

  lemma Turn22Bits(x: bv32, i: nat)
    requires i < 32
    ensures Bit(Number(S32(22, x)), i) == Bit(Number(x), Around(i, 22))
  {
    hide At, Index, Number, Bit, S32, Around;
    Distances();
    NumberBit(S32(22, x), i);
    TurnedBit(x, i, 22);
    Turn22At(x, Index(i));
  }

  lemma Turn6At(x: bv32, k: bv8)
    requires k < 32
    ensures At(S32(6, x), k) == At(x, (k + 6) & 31)
  {
  }

  lemma Turn6Bits(x: bv32, i: nat)
    requires i < 32
    ensures Bit(Number(S32(6, x)), i) == Bit(Number(x), Around(i, 6))
  {
    hide At, Index, Number, Bit, S32, Around;
    Distances();
    NumberBit(S32(6, x), i);
    TurnedBit(x, i, 6);
    Turn6At(x, Index(i));
  }

  lemma Turn11At(x: bv32, k: bv8)
    requires k < 32
    ensures At(S32(11, x), k) == At(x, (k + 11) & 31)
  {
  }

  lemma Turn11Bits(x: bv32, i: nat)
    requires i < 32
    ensures Bit(Number(S32(11, x)), i) == Bit(Number(x), Around(i, 11))
  {
    hide At, Index, Number, Bit, S32, Around;
    Distances();
    NumberBit(S32(11, x), i);
    TurnedBit(x, i, 11);
    Turn11At(x, Index(i));
  }

  lemma Turn25At(x: bv32, k: bv8)
    requires k < 32
    ensures At(S32(25, x), k) == At(x, (k + 25) & 31)
  {
  }

  lemma Turn25Bits(x: bv32, i: nat)
    requires i < 32
    ensures Bit(Number(S32(25, x)), i) == Bit(Number(x), Around(i, 25))
  {
    hide At, Index, Number, Bit, S32, Around;
    Distances();
    NumberBit(S32(25, x), i);
    TurnedBit(x, i, 25);
    Turn25At(x, Index(i));
  }

  lemma Turn7At(x: bv32, k: bv8)
    requires k < 32
    ensures At(S32(7, x), k) == At(x, (k + 7) & 31)
  {
  }

  lemma Turn7Bits(x: bv32, i: nat)
    requires i < 32
    ensures Bit(Number(S32(7, x)), i) == Bit(Number(x), Around(i, 7))
  {
    hide At, Index, Number, Bit, S32, Around;
    Distances();
    NumberBit(S32(7, x), i);
    TurnedBit(x, i, 7);
    Turn7At(x, Index(i));
  }

  lemma Turn18At(x: bv32, k: bv8)
    requires k < 32
    ensures At(S32(18, x), k) == At(x, (k + 18) & 31)
  {
  }

  lemma Turn18Bits(x: bv32, i: nat)
    requires i < 32
    ensures Bit(Number(S32(18, x)), i) == Bit(Number(x), Around(i, 18))
  {
    hide At, Index, Number, Bit, S32, Around;
    Distances();
    NumberBit(S32(18, x), i);
    TurnedBit(x, i, 18);
    Turn18At(x, Index(i));
  }

  lemma Turn17At(x: bv32, k: bv8)
    requires k < 32
    ensures At(S32(17, x), k) == At(x, (k + 17) & 31)
  {
  }

  lemma Turn17Bits(x: bv32, i: nat)
    requires i < 32
    ensures Bit(Number(S32(17, x)), i) == Bit(Number(x), Around(i, 17))
  {
    hide At, Index, Number, Bit, S32, Around;
    Distances();
    NumberBit(S32(17, x), i);
    TurnedBit(x, i, 17);
    Turn17At(x, Index(i));
  }

  lemma Turn19At(x: bv32, k: bv8)
    requires k < 32
    ensures At(S32(19, x), k) == At(x, (k + 19) & 31)
  {
  }

  lemma Turn19Bits(x: bv32, i: nat)
    requires i < 32
    ensures Bit(Number(S32(19, x)), i) == Bit(Number(x), Around(i, 19))
  {
    hide At, Index, Number, Bit, S32, Around;
    Distances();
    NumberBit(S32(19, x), i);
    TurnedBit(x, i, 19);
    Turn19At(x, Index(i));
  }

  lemma Shift3At(x: bv32, k: bv8)
    requires k < 32
    ensures At(R(3, x), k) == if k < 29 then At(x, k + 3) else 0
  {
  }

  lemma Shift3Bits(x: bv32, i: nat)
    requires i < 32
    ensures Bit(Number(R(3, x)), i) == if i < 29 then Bit(Number(x), i + 3) else 0
  {
    hide At, Index, Number, Bit, R;
    Distances();
    IndexBelow(i);
    NumberBit(R(3, x), i);
    TurnedBit(x, i, 3);
    Shift3At(x, Index(i));
  }

  lemma Shift10At(x: bv32, k: bv8)
    requires k < 32
    ensures At(R(10, x), k) == if k < 22 then At(x, k + 10) else 0
  {
  }

  lemma Shift10Bits(x: bv32, i: nat)
    requires i < 32
    ensures Bit(Number(R(10, x)), i) == if i < 22 then Bit(Number(x), i + 10) else 0
  {
    hide At, Index, Number, Bit, R;
    Distances();
    IndexBelow(i);
    NumberBit(R(10, x), i);
    TurnedBit(x, i, 10);
    Shift10At(x, Index(i));
  }

  lemma Distances()
    ensures Index(2) == 2 && Index(3) == 3 && Index(6) == 6 && Index(7) == 7 && Index(10) == 10 && Index(11) == 11
    ensures Index(13) == 13 && Index(17) == 17 && Index(18) == 18 && Index(19) == 19 && Index(22) == 22 && Index(25) == 25
  {
  }

  lemma IndexBelow(i: nat)
    requires i < 32
    ensures Index(i) < 29 <==> i < 29
    ensures Index(i) < 22 <==> i < 22
    ensures Index(i) < 29 ==> (Index(i) + 3) & 31 == Index(i) + 3
    ensures Index(i) < 22 ==> (Index(i) + 10) & 31 == Index(i) + 10
  {
  }

  /** A bit further up, around the end of the word. */
  lemma TurnedBit(x: bv32, i: nat, n: nat)
    requires i < 32 && n < 32
    ensures Index(i) < 32 && Bit(Number(x), Around(i, n)) == At(x, (Index(i) + Index(n)) & 31)
  {
    hide At, Index, Number, Bit;
    IndexSmall(i);
    NumberBit(x, Around(i, n));
    IndexSum(i, n);
  }

  lemma Sigma0Bits(x: bv32, i: nat)
    requires i < 32
    ensures Bit(Number(Sigma0(x)), i) ==
      Parity(Bit(Number(x), Around(i, 2)), Bit(Number(x), Around(i, 13)), Bit(Number(x), Around(i, 22)))
  {
    hide Number, Bit, Xor3, S32, R, Parity, Around;
    XorNumber(S32(2, x), S32(13, x), S32(22, x), i);
    Turn2Bits(x, i);
    Turn13Bits(x, i);
    Turn22Bits(x, i);
  }

  lemma Sigma1Bits(x: bv32, i: nat)
    requires i < 32
    ensures Bit(Number(Sigma1(x)), i) ==
      Parity(Bit(Number(x), Around(i, 6)), Bit(Number(x), Around(i, 11)), Bit(Number(x), Around(i, 25)))
  {
    hide Number, Bit, Xor3, S32, R, Parity, Around;
    XorNumber(S32(6, x), S32(11, x), S32(25, x), i);
    Turn6Bits(x, i);
    Turn11Bits(x, i);
    Turn25Bits(x, i);
  }

  lemma LittleSigma0Bits(x: bv32, i: nat)
    requires i < 32
    ensures Bit(Number(LittleSigma0(x)), i) ==
      Parity(Bit(Number(x), Around(i, 7)), Bit(Number(x), Around(i, 18)), if i < 29 then Bit(Number(x), i + 3) else 0)
  {
    hide Number, Bit, Xor3, S32, R, Parity, Around;
    XorNumber(S32(7, x), S32(18, x), R(3, x), i);
    Turn7Bits(x, i);
    Turn18Bits(x, i);
    Shift3Bits(x, i);
  }

  lemma LittleSigma1Bits(x: bv32, i: nat)
    requires i < 32
    ensures Bit(Number(LittleSigma1(x)), i) ==
      Parity(Bit(Number(x), Around(i, 17)), Bit(Number(x), Around(i, 19)), if i < 22 then Bit(Number(x), i + 10) else 0)
  {
    hide Number, Bit, Xor3, S32, R, Parity, Around;
    XorNumber(S32(17, x), S32(19, x), R(10, x), i);
    Turn17Bits(x, i);
    Turn19Bits(x, i);
    Shift10Bits(x, i);
  }

  lemma ChHalf(x: bv32, y: bv32, z: bv32)
    ensures Half(Ch(x, y, z)) == Ch(Half(x), Half(y), Half(z))
    ensures LowBit(Ch(x, y, z)) == if LowBit(x) == 1 then LowBit(y) else LowBit(z)
  {
  }

  lemma {:induction false} ChValueBits(x: bv32, y: bv32, z: bv32, n: nat, i: nat)
    requires i < n
    ensures Bit(ValueOf(Ch(x, y, z), n), i) ==
      if Bit(ValueOf(x, n), i) == 1 then Bit(ValueOf(y, n), i) else Bit(ValueOf(z, n), i)
    decreases n
  {
    hide Ch, Half, LowBit, ValueOf, Bit;
    ChHalf(x, y, z);
    BitStep(Ch(x, y, z), n, i);
    BitStep(x, n, i);
    BitStep(y, n, i);
    BitStep(z, n, i);
    if i > 0 {
      ChValueBits(Half(x), Half(y), Half(z), n - 1, i - 1);
    }
  }

  /** The first operand chooses between the other two. */
  lemma ChBits(x: bv32, y: bv32, z: bv32, i: nat)
    requires i < 32
    ensures Bit(Number(Ch(x, y, z)), i) == if Bit(Number(x), i) == 1 then Bit(Number(y), i) else Bit(Number(z), i)
  {
    hide Ch, ValueOf, Bit, Number;
    NumberIs(x);
    NumberIs(y);
    NumberIs(z);
    NumberIs(Ch(x, y, z));
    ChValueBits(x, y, z, 32, i);
  }

  lemma MajHalf(x: bv32, y: bv32, z: bv32)
    ensures Half(Maj(x, y, z)) == Maj(Half(x), Half(y), Half(z))
    ensures LowBit(Maj(x, y, z)) == if LowBit(x) + LowBit(y) + LowBit(z) >= 2 then 1 else 0
  {
  }

  lemma {:induction false} MajValueBits(x: bv32, y: bv32, z: bv32, n: nat, i: nat)
    requires i < n
    ensures Bit(ValueOf(Maj(x, y, z), n), i) ==
      if Bit(ValueOf(x, n), i) + Bit(ValueOf(y, n), i) + Bit(ValueOf(z, n), i) >= 2 then 1 else 0
    decreases n
  {
    hide Maj, Half, LowBit, ValueOf, Bit;
    MajHalf(x, y, z);
    BitStep(Maj(x, y, z), n, i);
    BitStep(x, n, i);
    BitStep(y, n, i);
    BitStep(z, n, i);
    if i > 0 {
      MajValueBits(Half(x), Half(y), Half(z), n - 1, i - 1);
    }
  }

  /** The majority of the operands decides. */
  lemma MajBits(x: bv32, y: bv32, z: bv32, i: nat)
    requires i < 32
    ensures Bit(Number(Maj(x, y, z)), i) == if Bit(Number(x), i) + Bit(Number(y), i) + Bit(Number(z), i) >= 2 then 1 else 0
  {
    hide Maj, ValueOf, Bit, Number;
    NumberIs(x);
    NumberIs(y);
    NumberIs(z);
    NumberIs(Maj(x, y, z));
    MajValueBits(x, y, z, 32, i);
  }

  // ---- Byte order ----

  /** The bytes of a word are those it was read from, most significant first. */
  lemma WordRoundTrip(b: seq<byte>)
    requires |b| == 4
    ensures WordBytes(BigEndianWord(b)) == b
  {
    hide FromByte, LowByte, Joined, Down, Room;
    var w0 := FromByte(b[0]);
    ByteRoom(b[0]);
    JoinedBack(w0, b[1], 3);
    JoinedBack(Joined(w0, b[1]), b[2], 2);
    JoinedBack(Joined(Joined(w0, b[1]), b[2]), b[3], 1);
  }

  /** The number of some bytes, most significant first. */
  function BeValue(s: seq<byte>): nat {
    if s == [] then 0 else 256 * BeValue(s[..|s| - 1]) + s[|s| - 1]
  }

  lemma FourBytes(a: byte, b: byte, c: byte, d: byte)
    ensures BeValue([a, b, c, d]) == 0x100_0000 * (a as int) + 0x1_0000 * (b as int) + 0x100 * (c as int) + d
  {
    assert [a, b, c, d][..3] == [a, b, c];
    assert [a, b, c][..2] == [a, b];
    assert [a, b][..1] == [a];
    assert [a][..0] == [];
    assert BeValue([a]) == a as int;
    assert BeValue([a, b]) == 256 * BeValue([a]) + b;
    assert BeValue([a, b, c]) == 256 * BeValue([a, b]) + c;
  }

  lemma WordBytesValue(w: bv32)
    ensures |WordBytes(w)| == 4 && BeValue(WordBytes(w)) == Number(w)
  {
    hide LowByte, Number, BeValue, Down;
    NumberOfBytes(w);
    FourBytes(LowByte(Down(Down(Down(w)))), LowByte(Down(Down(w))), LowByte(Down(w)), LowByte(w));
  }

  lemma BigEndianValue(b: seq<byte>)
    requires |b| == 4
    ensures Number(BigEndianWord(b)) == BeValue(b)
  {
    hide Number, WordBytes, BigEndianWord, BeValue;
    WordRoundTrip(b);
    WordBytesValue(BigEndianWord(b));
  }

  function BeBytes(n: nat, width: nat): (s: seq<byte>)
    ensures |s| == width
  {
    if width == 0 then [] else BeBytes(n / 256, width - 1) + [n % 256]
  }

  lemma {:induction false} BeBack(n: nat, width: nat)
    requires n < Pow256(width)
    ensures BeValue(BeBytes(n, width)) == n
  {
    if width > 0 {
      BeBack(n / 256, width - 1);
      assert BeBytes(n, width)[..width - 1] == BeBytes(n / 256, width - 1);
    }
  }

  lemma Divisions(n: nat)
    ensures n / 0x100 / 256 == n / 0x1_0000 && n / 0x1_0000 / 256 == n / 0x100_0000 && n / 0x100_0000 / 256 == n / 0x1_0000_0000
    ensures n / 0x1_0000_0000 / 256 == n / 0x100_0000_0000 && n / 0x100_0000_0000 / 256 == n / 0x1_0000_0000_0000
    ensures n / 0x1_0000_0000_0000 / 256 == n / 0x100_0000_0000_0000
  {
  }

  /** A number of 64 bits as eight bytes, most significant first. */
  lemma Be64Value(n: nat)
    requires n < 0x1_0000_0000_0000_0000
    ensures |Be64(n)| == 8 && BeValue(Be64(n)) == n
  {
    Pow256Small();
    BeBack(n, 8);
    hide BeValue, Pow256;
    Divisions(n);
    var d := BeBytes(n / 0x100_0000_0000_0000, 1);
    assert d == [n / 0x100_0000_0000_0000 % 256] by {
      assert BeBytes(n / 0x100_0000_0000_0000 / 256, 0) == [];
    }
    assert BeBytes(n / 0x1_0000_0000, 4) == [n / 0x100_0000_0000_0000 % 256, n / 0x1_0000_0000_0000 % 256, n / 0x100_0000_0000 % 256, n / 0x1_0000_0000 % 256] by {
      assert BeBytes(n / 0x1_0000_0000, 4) == BeBytes(n / 0x100_0000_0000, 3) + [n / 0x1_0000_0000 % 256];
      assert BeBytes(n / 0x100_0000_0000, 3) == BeBytes(n / 0x1_0000_0000_0000, 2) + [n / 0x100_0000_0000 % 256];
      assert BeBytes(n / 0x1_0000_0000_0000, 2) == d + [n / 0x1_0000_0000_0000 % 256];
    }
    assert BeBytes(n, 8) == BeBytes(n / 0x100, 7) + [n % 256];
    assert BeBytes(n / 0x100, 7) == BeBytes(n / 0x1_0000, 6) + [n / 0x100 % 256];
    assert BeBytes(n / 0x1_0000, 6) == BeBytes(n / 0x100_0000, 5) + [n / 0x1_0000 % 256];
    assert BeBytes(n / 0x100_0000, 5) == BeBytes(n / 0x1_0000_0000, 4) + [n / 0x100_0000 % 256];
    assert Be64(n) == BeBytes(n, 8);
  }
}
