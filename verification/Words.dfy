/** 32-bit words as bit vectors, and the numbers they stand for. */
module Words {
  import opened Bytes

  function Pow2(n: nat): nat {
    if n == 0 then 1 else 2 * Pow2(n - 1)
  }

  /** The lowest `n` bits of a number. */
  function BitsOf(v: nat, n: nat): bv32 {
    if n == 0 then 0 else (BitsOf(v / 2, n - 1) << 1) | (if v % 2 == 1 then 1 else 0)
  }

  /** The number that the lowest `n` bits of a word make up. */
  function ValueOf(w: bv32, n: nat): (v: nat)
    ensures v < Pow2(n)
  {
    if n == 0 then 0 else LowBit(w) + 2 * ValueOf(Half(w), n - 1)
  }

  function Half(w: bv32): bv32 {
    w >> 1
  }

  function LowBit(w: bv32): (b: nat)
    ensures b <= 1
  {
    if w & 1 == 1 then 1 else 0
  }

  function Number(w: bv32): (v: nat)
    ensures v < 0x1_0000_0000
  {
    Powers();
    ValueOf(w, 32)
  }

  lemma Powers()
    ensures Pow2(8) == 0x100 && Pow2(32) == 0x1_0000_0000
  {
    assert Pow2(4) == 16;
    assert Pow2(12) == 16 * Pow2(8);
    assert Pow2(16) == 16 * Pow2(12);
    assert Pow2(20) == 16 * Pow2(16);
    assert Pow2(24) == 16 * Pow2(20);
    assert Pow2(28) == 16 * Pow2(24);
    assert Pow2(32) == 16 * Pow2(28);
  }

  function FromByte(b: byte): bv32 {
    BitsOf(b, 8)
  }

  /** The lowest byte of a word. */
  function LowByte(w: bv32): byte {
    Powers();
    ValueOf(w, 8)
  }

  /** Bit `i` of a number, by division. */
  function Bit(v: nat, i: nat): (b: nat)
    ensures b <= 1
  {
    if i == 0 then v % 2 else Bit(v / 2, i - 1)
  }

  // ---- Sums ----

  /** Addition modulo 2^32. */
  function Add(a: bv32, b: bv32): bv32 { a + b }

  lemma AddCommutes(a: bv32, b: bv32)
    ensures Add(a, b) == Add(b, a)
  {
  }

  lemma AddAssociates(a: bv32, b: bv32, c: bv32)
    ensures Add(Add(a, b), c) == Add(a, Add(b, c))
  {
    hide Add;
    AddIs(a, b);
    AddIs(b, c);
    AddToSum(a, b, c);
    AddOfSum(a, b, c);
  }

  lemma AddIs(a: bv32, b: bv32)
    ensures Add(a, b) == a + b
  {
  }

  lemma AddToSum(a: bv32, b: bv32, c: bv32)
    ensures Add(a + b, c) == a + b + c
  {
  }

  lemma AddOfSum(a: bv32, b: bv32, c: bv32)
    ensures Add(a, b + c) == a + b + c
  {
  }

  // ---- Bits of a word are bits of its number ----

  /** A small number as a distance to shift by. */
  function Index(i: nat): bv8 {
    if i == 0 then 0 else if i == 1 then 1 else if i == 2 then 2 else if i == 3 then 3
    else if i == 4 then 4 else if i == 5 then 5 else if i == 6 then 6 else if i == 7 then 7
    else if i == 8 then 8 else if i == 9 then 9 else if i == 10 then 10 else if i == 11 then 11
    else if i == 12 then 12 else if i == 13 then 13 else if i == 14 then 14 else if i == 15 then 15
    else if i == 16 then 16 else if i == 17 then 17 else if i == 18 then 18 else if i == 19 then 19
    else if i == 20 then 20 else if i == 21 then 21 else if i == 22 then 22 else if i == 23 then 23
    else if i == 24 then 24 else if i == 25 then 25 else if i == 26 then 26 else if i == 27 then 27
    else if i == 28 then 28 else if i == 29 then 29 else if i == 30 then 30 else 31
  }

  lemma IndexStep(i: nat)
    requires 1 <= i < 32
    ensures Index(i) == Index(i - 1) + 1 && 1 <= Index(i) < 32
  {
  }

  lemma IndexSmall(i: nat)
    ensures Index(i) < 32
  {
  }

  lemma IndexTurn(i: nat)
    requires i < 32
    ensures Index((i + 1) % 32) == (Index(i) + 1) & 31
  {
    hide Index;
    IndexEnds();
    IndexSmall(i);
    if i < 31 {
      IndexStep(i + 1);
      Unturned(Index(i));
    }
  }

  lemma IndexEnds()
    ensures Index(0) == 0 && Index(31) == 31
  {
  }

  lemma Unturned(k: bv8)
    requires k + 1 < 32
    ensures (k + 1) & 31 == k + 1
  {
  }

  /** Distances add up modulo 32. */
  lemma {:induction false} IndexSum(i: nat, n: nat)
    requires i < 32 && n < 32
    ensures Index((i + n) % 32) == (Index(i) + Index(n)) & 31
  {
    hide Index;
    IndexSmall(i);
    if n == 0 {
      IndexEnds();
      Whole(Index(i));
    } else {
      IndexSum(i, n - 1);
      IndexStep(n);
      IndexTurn((i + n - 1) % 32);
      OneFurther(i + n - 1);
      NextTurn(Index(i), Index(n - 1));
    }
  }

  lemma OneFurther(i: nat)
    ensures (i % 32 + 1) % 32 == (i + 1) % 32
  {
  }

  lemma Whole(k: bv8)
    requires k < 32
    ensures (k + 0) & 31 == k
  {
  }

  lemma NextTurn(a: bv8, b: bv8)
    ensures (((a + b) & 31) + 1) & 31 == (a + (b + 1)) & 31
  {
  }

  /** Bit `k` of a word. */
  function At(w: bv32, k: bv8): (b: nat)
    requires k < 32
    ensures b <= 1
  {
    if (w >> k) & 1 == 1 then 1 else 0
  }

  lemma AtShifted(w: bv32, k: bv8)
    requires 1 <= k < 32
    ensures At(Half(w), k - 1) == At(w, k)
  {
  }

  lemma AtStart(w: bv32)
    ensures At(w, 0) == LowBit(w)
  {
  }

  lemma {:induction false} ValueBit(w: bv32, n: nat, i: nat)
    requires i < n <= 32
    ensures Index(i) < 32 && Bit(ValueOf(w, n), i) == At(w, Index(i))
    decreases n
  {
    hide At, Index, Half, LowBit;
    IndexSmall(i);
    if i == 0 {
      IndexEnds();
      AtStart(w);
    } else {
      ValueBit(Half(w), n - 1, i - 1);
      IndexStep(i);
      AtShifted(w, Index(i));
    }
  }

  lemma NumberBit(w: bv32, i: nat)
    requires i < 32
    ensures Index(i) < 32 && Bit(Number(w), i) == At(w, Index(i))
  {
    ValueBit(w, 32, i);
  }

  lemma BitStep(w: bv32, n: nat, i: nat)
    requires i < n
    ensures Bit(ValueOf(w, n), i) == if i == 0 then LowBit(w) else Bit(ValueOf(Half(w), n - 1), i - 1)
  {
    hide Half, LowBit;
  }

  // ---- Bytes of a word ----

  /** The `n` lowest bits, for up to eight of them. */
  function LowMask(n: nat): bv32 {
    if n == 0 then 0 else if n == 1 then 1 else if n == 2 then 3 else if n == 3 then 7
    else if n == 4 then 15 else if n == 5 then 31 else if n == 6 then 63 else if n == 7 then 127 else 255
  }

  lemma MaskStep(n: nat)
    requires 1 <= n <= 8
    ensures LowMask(n) == (LowMask(n - 1) << 1) | 1 && LowMask(n - 1) <= 127
  {
  }

  lemma {:induction false} BitsBound(v: nat, n: nat)
    requires n <= 8
    ensures BitsOf(v, n) <= LowMask(n)
  {
    hide LowMask;
    if n > 0 {
      BitsBound(v / 2, n - 1);
      MaskStep(n);
      Doubled(BitsOf(v / 2, n - 1), LowMask(n - 1));
    } else {
      NoMask();
    }
  }

  lemma NoMask()
    ensures LowMask(0) == 0 && LowMask(8) == 255
  {
  }

  lemma Doubled(a: bv32, m: bv32)
    requires a <= m <= 127
    ensures (a << 1) | 0 <= (m << 1) | 1 && (a << 1) | 1 <= (m << 1) | 1
    ensures Half((a << 1) | 0) == a && LowBit((a << 1) | 0) == 0
    ensures Half((a << 1) | 1) == a && LowBit((a << 1) | 1) == 1
  {
  }

  lemma {:induction false} ValueBack(v: nat, n: nat)
    requires n <= 8 && v < Pow2(n)
    ensures ValueOf(BitsOf(v, n), n) == v
  {
    hide LowMask;
    if n > 0 {
      ValueBack(v / 2, n - 1);
      BitsBound(v / 2, n - 1);
      MaskStep(n);
      Doubled(BitsOf(v / 2, n - 1), LowMask(n - 1));
    }
  }

  lemma ByteBack(b: byte)
    ensures LowByte(FromByte(b)) == b && FromByte(b) <= 255
  {
    hide BitsOf, ValueOf, LowMask;
    Powers();
    NoMask();
    ValueBack(b, 8);
    BitsBound(b, 8);
  }

  /** A value is made of its own bits only. */
  lemma {:induction false} SameLow(a: bv32, b: bv32, n: nat)
    requires n <= 8 && a & LowMask(n) == b & LowMask(n)
    ensures ValueOf(a, n) == ValueOf(b, n)
    decreases n
  {
    hide LowMask, ValueOf, LowBit, Half;
    ValueStep(a, n);
    ValueStep(b, n);
    if n > 0 {
      MaskedHalf(a, b, n);
      SameLow(Half(a), Half(b), n - 1);
    }
  }

  lemma ValueStep(w: bv32, n: nat)
    ensures ValueOf(w, n) == if n == 0 then 0 else LowBit(w) + 2 * ValueOf(Half(w), n - 1)
  {
    hide LowBit;
  }

  lemma MaskedHalf(a: bv32, b: bv32, n: nat)
    requires 1 <= n <= 8 && a & LowMask(n) == b & LowMask(n)
    ensures LowBit(a) == LowBit(b) && Half(a) & LowMask(n - 1) == Half(b) & LowMask(n - 1)
  {
  }

  // ---- Words of bytes ----

  /** One more byte behind a word. */
  function Joined(w: bv32, b: byte): bv32 {
    Join(w, FromByte(b))
  }

  function Join(w: bv32, x: bv32): bv32 {
    (w << 8) | x
  }

  function Down(w: bv32): bv32 {
    w >> 8
  }

  function Masked(w: bv32): bv32 {
    w & 255
  }

  /** There is room for `n` more bytes. */
  predicate Room(w: bv32, n: nat) {
    if n == 3 then w <= 0xFF else if n == 2 then w <= 0xFFFF else if n == 1 then w <= 0xFF_FFFF else true
  }

  lemma JoinedLow(w: bv32, x: bv32)
    requires Room(x, 3)
    ensures Masked(Join(w, x)) == x
  {
  }

  lemma JoinedHigh(w: bv32, x: bv32)
    requires Room(x, 3) && Room(w, 1)
    ensures Down(Join(w, x)) == w
  {
  }

  lemma JoinedSize(w: bv32, x: bv32, n: nat)
    requires Room(x, 3) && 2 <= n <= 3 && Room(w, n)
    ensures Room(w, 1) && Room(Join(w, x), n - 1)
  {
  }

  lemma MaskedLow(w: bv32, b: byte)
    requires Masked(w) == FromByte(b)
    ensures LowByte(w) == b
  {
    hide BitsOf, ValueOf, LowMask, FromByte;
    ByteBack(b);
    NoMask();
    MaskedByte(FromByte(b));
    SameLow(w, FromByte(b), 8);
  }

  lemma MaskedByte(x: bv32)
    ensures x <= 255 ==> x & 255 == x
  {
  }

  /** A joined byte is the lowest, and the word is above it as long as it has room. */
  lemma JoinedBack(w: bv32, b: byte, n: nat)
    requires 1 <= n <= 3 && Room(w, n)
    ensures LowByte(Joined(w, b)) == b && Down(Joined(w, b)) == w && (n > 1 ==> Room(Joined(w, b), n - 1))
  {
    hide FromByte, LowByte, Down, Masked, Join, Room;
    ByteRoom(b);
    JoinedLow(w, FromByte(b));
    if n > 1 {
      JoinedSize(w, FromByte(b), n);
    }
    JoinedHigh(w, FromByte(b));
    MaskedLow(Joined(w, b), b);
  }

  lemma ByteRoom(b: byte)
    ensures Room(FromByte(b), 3) && LowByte(FromByte(b)) == b
  {
    hide FromByte, LowByte;
    ByteBack(b);
  }

  function Moved(w: bv32, m: nat): bv32 {
    if m == 0 then w else Moved(Half(w), m - 1)
  }

  lemma {:induction false} ValueSplit(w: bv32, m: nat, n: nat)
    ensures ValueOf(w, m + n) == ValueOf(w, m) + Pow2(m) * ValueOf(Moved(w, m), n)
    decreases m
  {
    hide Half, LowBit;
    if m > 0 {
      ValueSplit(Half(w), m - 1, n);
      TwiceTimes(Pow2(m - 1), ValueOf(Moved(w, m), n));
    }
  }

  lemma TwiceTimes(p: nat, x: nat)
    ensures 2 * p * x == 2 * (p * x)
  {
  }

  lemma MovedStep(w: bv32, m: nat)
    requires m > 0
    ensures Moved(w, m) == Moved(Half(w), m - 1)
  {
  }

  lemma MovedFour(w: bv32, m: nat)
    ensures Moved(w, m + 4) == Moved(Half(Half(Half(Half(w)))), m)
  {
    hide Moved, Half;
    MovedStep(w, m + 4);
    MovedStep(Half(w), m + 3);
    MovedStep(Half(Half(w)), m + 2);
    MovedStep(Half(Half(Half(w))), m + 1);
  }

  lemma EightHalves(w: bv32)
    ensures Half(Half(Half(Half(Half(Half(Half(Half(w)))))))) == w >> 8
  {
  }

  lemma MovedEight(w: bv32)
    ensures Moved(w, 8) == w >> 8
  {
    hide Moved, Half;
    MovedFour(w, 4);
    MovedFour(Half(Half(Half(Half(w)))), 0);
    NotMoved(Half(Half(Half(Half(Half(Half(Half(Half(w)))))))));
    EightHalves(w);
  }

  lemma NotMoved(w: bv32)
    ensures Moved(w, 0) == w
  {
  }

  lemma ByteSplit(w: bv32, n: nat)
    ensures ValueOf(w, 8 + n) == LowByte(w) + 0x100 * ValueOf(Down(w), n)
  {
    hide ValueOf, Moved, Pow2;
    Powers();
    ValueSplit(w, 8, n);
    MovedEight(w);
  }

  /** The number of a word is made of its four bytes. */
  lemma NumberOfBytes(w: bv32)
    ensures Number(w) ==
      LowByte(w) + 0x100 * LowByte(Down(w)) + 0x1_0000 * LowByte(Down(Down(w))) + 0x100_0000 * LowByte(Down(Down(Down(w))))
  {
    hide ValueOf, LowByte, Down;
    ByteSplit(w, 24);
    ByteSplit(Down(w), 16);
    ByteSplit(Down(Down(w)), 8);
    LowByteIs(Down(Down(Down(w))));
  }

  lemma LowByteIs(w: bv32)
    ensures LowByte(w) == ValueOf(w, 8)
  {
  }
}
