/** Seven-bit text packed into octets, section 6.1.2.1 of 3GPP TS 23.038, with a rolling carry. */
module Septets {
  type Octet = bv8

  const MASK: Octet := 0x7F

  function Shr(x: Octet, k: nat): Octet {
    if k == 0 then x
    else if k == 1 then x >> 1
    else if k == 2 then x >> 2
    else if k == 3 then x >> 3
    else if k == 4 then x >> 4
    else if k == 5 then x >> 5
    else if k == 6 then x >> 6
    else if k == 7 then x >> 7
    else 0
  }

  function Shl(x: Octet, k: nat): Octet {
    if k == 0 then x
    else if k == 1 then x << 1
    else if k == 2 then x << 2
    else if k == 3 then x << 3
    else if k == 4 then x << 4
    else if k == 5 then x << 5
    else if k == 6 then x << 6
    else if k == 7 then x << 7
    else 0
  }

  // ---- Specification: octets as a string of bits ----

  function Bit(x: Octet, i: nat): Octet {
    Shr(x, i) & 1
  }

  /** How many octets are emitted for `n` septets. */
  function OctetCount(n: nat): nat {
    7 * n / 8 + 1
  }

  /** The octet made of the end of one septet and the beginning of the next. */
  function Join(x: Octet, y: Octet, carry: nat): Octet
    requires 1 <= carry <= 7
  {
    Shr(x & MASK, carry - 1) | Shl(y & MASK, 8 - carry)
  }

  /** The octet that ends a text. */
  function Tail(x: Octet, carry: nat): Octet
    requires 1 <= carry <= 7
  {
    Shr(x & MASK, carry - 1)
  }

  /** The septet made of the end of one octet and the beginning of the next. */
  function Cross(before: Octet, next: Octet, carry: nat): Octet
    requires 1 <= carry <= 7
  {
    MASK & (Shl(next, carry) | Shr(before, 8 - carry))
  }

  function Low(x: Octet): Octet {
    MASK & x
  }

  /** The septet at the end of the last octet. */
  function Rest(before: Octet, carry: nat): Octet
    requires 1 <= carry <= 7
  {
    Shr(before, 8 - carry)
  }

  /** The septet in which octet `k` begins, and the bit it begins at. */
  function First(k: nat): nat {
    k + k / 7
  }

  function Offset(k: nat): (r: nat)
    ensures r < 7
  {
    k % 7
  }

  /** Octet `k` of the packed text; the text is followed by one more element. */
  function OctetAt(text: seq<Octet>, n: nat, k: nat): Octet
    requires n < |text| && k < OctetCount(n)
  {
    IndexBound(n, k);
    if First(k) + 1 < n then Join(text[First(k)], text[First(k) + 1], Offset(k) + 1)
    else Tail(text[First(k)], Offset(k) + 1)
  }

  lemma IndexBound(n: nat, k: nat)
    requires k < OctetCount(n)
    ensures First(k) <= n
    ensures First(k) + 1 < n <==> k + 1 < OctetCount(n)
    ensures First(k) == n ==> n % 8 == 0
  {
  }

  function Packed(text: seq<Octet>, n: nat, m: nat): (s: seq<Octet>)
    requires n < |text| && m <= OctetCount(n)
    ensures |s| == m
  {
    if m == 0 then [] else Packed(text, n, m - 1) + [OctetAt(text, n, m - 1)]
  }

  lemma {:induction false} PackedAt(text: seq<Octet>, n: nat, m: nat, k: nat)
    requires n < |text| && k < m <= OctetCount(n)
    ensures Packed(text, n, m)[k] == OctetAt(text, n, k)
  {
    hide OctetAt;
    if k < m - 1 {
      PackedAt(text, n, m - 1, k);
    }
  }

  /** The check of the buffer's size. */
  predicate Fits(n: nat, size: nat) {
    (n * 7 + 7) / 8 <= size
  }

  /** The check is one octet short for lengths divisible by eight, and exact for the others. */
  lemma FitsExactly(n: nat, size: nat)
    ensures n % 8 != 0 ==> (Fits(n, size) <==> OctetCount(n) <= size)
    ensures n % 8 == 0 ==> (Fits(n, size) <==> OctetCount(n) <= size + 1)
  {
    var b, s := n / 8, n % 8;
    assert n * 7 + 7 == 8 * (7 * b) + (7 * s + 7) && 7 * n == 8 * (7 * b) + 7 * s;
    Octets(7 * b, 7 * s + 7);
    Octets(7 * b, 7 * s);
  }

  lemma Octets(a: nat, b: nat)
    ensures (8 * a + b) / 8 == a + b / 8
  {
  }

  /** Packs the first `n` elements; the element behind them is read when `n` is a multiple of eight. */
  method Encode(text: seq<Octet>, n: nat, size: nat) returns (r: int, out: seq<Octet>)
    requires n < |text|
    ensures !Fits(n, size) ==> r == -1
    ensures Fits(n, size) ==> r == |out| == OctetCount(n) && out == Packed(text, n, OctetCount(n))
  {
    hide OctetAt, Join, Tail, First, Offset, OctetCount, Packed;
    out := [];
    if (n * 7 + 7) / 8 > size {
      return -1, [];
    }
    var carry, i := 1, 0;
    Start(text, n);
    while i + 1 < n
      invariant |out| < OctetCount(n) && i == First(|out|) && carry == Offset(|out|) + 1
      invariant out == Packed(text, n, |out|)
    {
      OctetInside(text, n, |out|);
      Advance(|out|);
      PackedNext(text, n, |out|);
      out := out + [Join(text[i], text[i + 1], carry)];
      carry := carry + 1;
      if carry == 8 {
        carry := 1;
        i := i + 1;
      }
      i := i + 1;
    }
    OctetLast(text, n, |out|);
    PackedNext(text, n, |out|);
    if i <= n {
      out := out + [Tail(text[i], carry)];
    }
    r := |out|;
  }

  lemma Start(text: seq<Octet>, n: nat)
    requires n < |text|
    ensures 0 < OctetCount(n) && First(0) == 0 && Offset(0) == 0 && Packed(text, n, 0) == []
  {
  }

  /** The index skips a septet whenever the carry returns to its start. */
  lemma Advance(k: nat)
    ensures Offset(k + 1) == if Offset(k) == 6 then 0 else Offset(k) + 1
    ensures First(k + 1) == if Offset(k) == 6 then First(k) + 2 else First(k) + 1
  {
  }

  lemma PackedNext(text: seq<Octet>, n: nat, k: nat)
    requires n < |text| && k < OctetCount(n)
    ensures Packed(text, n, k + 1) == Packed(text, n, k) + [OctetAt(text, n, k)]
  {
  }

  lemma OctetInside(text: seq<Octet>, n: nat, k: nat)
    requires n < |text| && k < OctetCount(n) && First(k) + 1 < n
    ensures k + 1 < OctetCount(n)
    ensures OctetAt(text, n, k) == Join(text[First(k)], text[First(k) + 1], Offset(k) + 1)
  {
    hide Join, Tail;
    IndexBound(n, k);
  }

  lemma OctetLast(text: seq<Octet>, n: nat, k: nat)
    requires n < |text| && k < OctetCount(n) && First(k) + 1 >= n
    ensures k + 1 == OctetCount(n) && First(k) <= n
    ensures OctetAt(text, n, k) == Tail(text[First(k)], Offset(k) + 1)
  {
    hide Join, Tail;
    IndexBound(n, k);
  }

  // ---- Unpacking ----

  /** The octet in which septet `j` ends. */
  function Ending(j: nat): nat {
    j / 8 * 7 + j % 8
  }

  /** The septet that ends with octet `i` and begins before it. */
  function Crossing(i: nat): nat
    requires i > 0
  {
    i + (i - 1) / 7
  }

  function Shift(i: nat): (c: nat)
    requires i > 0
    ensures 1 <= c <= 7
  {
    (i - 1) % 7 + 1
  }

  /** Septet `j` of the octets, taken from one or two of them. */
  function SeptetAt(buf: seq<Octet>, j: nat): Octet
    requires Ending(j) <= |buf| && (j % 8 == 0 ==> Ending(j) < |buf|)
  {
    var r := j % 8;
    var q := Ending(j);
    if r == 0 then Low(buf[q])
    else if q < |buf| then Cross(buf[q - 1], buf[q], r)
    else Rest(buf[q - 1], r)
  }

  /** How many septets `m` octets can yield. */
  function SeptetCount(m: nat): nat
    requires m > 0
  {
    m + (m - 1) / 7 + 1
  }

  lemma SeptetBound(m: nat, j: nat)
    requires m > 0 && j < SeptetCount(m)
    ensures Ending(j) <= m && (j % 8 == 0 ==> Ending(j) < m)
  {
  }

  function Unpacked(buf: seq<Octet>, n: nat): (s: seq<Octet>)
    requires |buf| > 0 && n <= SeptetCount(|buf|)
    ensures |s| == n
  {
    if n == 0 then [] else
      SeptetBound(|buf|, n - 1);
      Unpacked(buf, n - 1) + [SeptetAt(buf, n - 1)]
  }

  lemma {:induction false} UnpackedAt(buf: seq<Octet>, n: nat, j: nat)
    requires |buf| > 0 && j < n <= SeptetCount(|buf|)
    ensures Ending(j) <= |buf| && (j % 8 == 0 ==> Ending(j) < |buf|)
    ensures Unpacked(buf, n)[j] == SeptetAt(buf, j)
  {
    hide SeptetAt;
    SeptetBound(|buf|, j);
    if j < n - 1 {
      UnpackedAt(buf, n - 1, j);
    }
  }

  /** How many septets come out when `n` are wanted: one even when none is. */
  function Delivered(n: nat, m: nat): nat
    requires m > 0
  {
    if n == 0 then 1 else if n <= SeptetCount(m) then n else SeptetCount(m)
  }

  /** What unpacking yields; without octets the top bit of the element behind them passes for a septet. */
  function Decoded(buf: seq<Octet>, behind: Octet, n: nat): seq<Octet> {
    if buf != [] then Unpacked(buf, Delivered(n, |buf|))
    else if n > 1 then [Rest(behind, 1)]
    else []
  }

  /** Unpacks `n` septets, or as many as the octets yield. */
  method Decode(buf: seq<Octet>, behind: Octet, n: nat) returns (out: seq<Octet>)
    ensures out == Decoded(buf, behind, n)
  {
    hide SeptetAt, Low, Cross, Rest, SeptetCount, Unpacked, Crossing, Shift, Ending;
    var carry, i := 1, 1;
    out := [];
    if |buf| > 0 {
      out := [Low(buf[0])];
      FirstSeptet(buf);
    }
    if n > 1 {
      while i < |buf|
        invariant 1 <= i && (buf == [] ==> i == 1 && carry == 1 && out == [])
        invariant buf != [] ==> i <= |buf| && carry == Shift(i) && |out| == Crossing(i) < n && |out| < SeptetCount(|buf|)
        invariant buf != [] ==> out == Unpacked(buf, |out|)
      {
        TwoOctets(buf, i);
        UnpackedNext(buf, |out|);
        out := out + [Cross(buf[i - 1], buf[i], carry)];
        if |out| == n {
          break;
        }
        Yield(|buf|, i);
        carry := carry + 1;
        if carry == 8 {
          carry := 1;
          WholeOctet(buf, i);
          UnpackedNext(buf, |out|);
          out := out + [Low(buf[i])];
          if |out| == n {
            break;
          }
        }
        i := i + 1;
      }
      if |out| < n {
        if buf != [] {
          OctetEnd(buf);
          UnpackedNext(buf, |out|);
        }
        out := out + [Rest(if i <= |buf| then buf[i - 1] else behind, carry)];
      }
    }
  }

  lemma UnpackedNext(buf: seq<Octet>, n: nat)
    requires |buf| > 0 && n < SeptetCount(|buf|)
    ensures Ending(n) <= |buf| && (n % 8 == 0 ==> Ending(n) < |buf|)
    ensures Unpacked(buf, n + 1) == Unpacked(buf, n) + [SeptetAt(buf, n)]
  {
    SeptetBound(|buf|, n);
  }

  lemma Yield(m: nat, i: nat)
    requires 1 <= i < m
    ensures Shift(i + 1) == if Shift(i) == 7 then 1 else Shift(i) + 1
    ensures Crossing(i + 1) == if Shift(i) == 7 then Crossing(i) + 2 else Crossing(i) + 1
    ensures Crossing(i + 1) < SeptetCount(m)
  {
  }

  lemma FirstSeptet(buf: seq<Octet>)
    requires |buf| > 0
    ensures Unpacked(buf, 1) == [Low(buf[0])] && 1 < SeptetCount(|buf|) && Crossing(1) == 1 && Shift(1) == 1
  {
    hide Low;
    assert Unpacked(buf, 0) == [];
    assert SeptetAt(buf, 0) == Low(buf[0]);
  }

  lemma CrossingEnds(i: nat)
    requires i > 0
    ensures Ending(Crossing(i)) == i && Crossing(i) % 8 == Shift(i)
    ensures Shift(i) == 7 ==> Ending(Crossing(i) + 1) == i && (Crossing(i) + 1) % 8 == 0
  {
    var a, b := (i - 1) / 7, (i - 1) % 7;
    assert i == 7 * a + b + 1 && Crossing(i) == 8 * a + b + 1;
    Eighths(a, b + 1);
    if b == 6 {
      Eighths(a + 1, 0);
    }
  }

  lemma Eighths(a: nat, b: nat)
    requires b < 8
    ensures (8 * a + b) / 8 == a && (8 * a + b) % 8 == b
  {
  }

  lemma TwoOctets(buf: seq<Octet>, i: nat)
    requires 1 <= i < |buf|
    ensures var j := Crossing(i);
      Ending(j) == i && (j % 8 == 0 ==> i < |buf|) && SeptetAt(buf, j) == Cross(buf[i - 1], buf[i], Shift(i))
  {
    hide Cross, Crossing, Ending, Shift;
    CrossingEnds(i);
  }

  lemma WholeOctet(buf: seq<Octet>, i: nat)
    requires 1 <= i < |buf| && Shift(i) == 7
    ensures var j := Crossing(i) + 1;
      Ending(j) == i && j < SeptetCount(|buf|) && SeptetAt(buf, j) == Low(buf[i])
  {
    hide Low, Ending;
    CrossingEnds(i);
  }

  lemma OctetEnd(buf: seq<Octet>)
    requires |buf| > 0
    ensures var m := |buf|;
      var j := Crossing(m);
      && Ending(j) == m && j % 8 != 0 && j + 1 == SeptetCount(m) && SeptetAt(buf, j) == Rest(buf[m - 1], Shift(m))
  {
    hide Rest, Ending;
    CrossingEnds(|buf|);
  }

  // ---- The packing is the standard's bit string ----

  lemma JoinBitsLow(x: Octet, y: Octet, carry: nat, i: nat)
    requires 1 <= carry <= 2 && i < 8
    ensures Bit(Join(x, y, carry), i) == if carry - 1 + i < 7 then Bit(x, carry - 1 + i) else Bit(y, carry - 1 + i - 7)
  {
    if carry == 1 {
    } else {
    }
  }

  lemma JoinBitsMiddle(x: Octet, y: Octet, carry: nat, i: nat)
    requires 3 <= carry <= 4 && i < 8
    ensures Bit(Join(x, y, carry), i) == if carry - 1 + i < 7 then Bit(x, carry - 1 + i) else Bit(y, carry - 1 + i - 7)
  {
    if carry == 3 {
    } else {
    }
  }

  lemma JoinBitsHigh(x: Octet, y: Octet, carry: nat, i: nat)
    requires 5 <= carry <= 7 && i < 8
    ensures Bit(Join(x, y, carry), i) == if carry - 1 + i < 7 then Bit(x, carry - 1 + i) else Bit(y, carry - 1 + i - 7)
  {
    if carry == 5 {
    } else if carry == 6 {
    } else {
    }
  }

  lemma JoinBits(x: Octet, y: Octet, carry: nat, i: nat)
    requires 1 <= carry <= 7 && i < 8
    ensures Bit(Join(x, y, carry), i) == if carry - 1 + i < 7 then Bit(x, carry - 1 + i) else Bit(y, carry - 1 + i - 7)
  {
    hide Bit, Join;
    if carry <= 2 {
      JoinBitsLow(x, y, carry, i);
    } else if carry <= 4 {
      JoinBitsMiddle(x, y, carry, i);
    } else {
      JoinBitsHigh(x, y, carry, i);
    }
  }

  lemma TailBits(x: Octet, carry: nat, i: nat)
    requires 1 <= carry <= 7 && i < 8
    ensures Bit(Tail(x, carry), i) == if carry - 1 + i < 7 then Bit(x, carry - 1 + i) else 0
  {
  }

  lemma BitPlace(k: nat, i: nat)
    requires i < 8
    ensures (8 * k + i) / 7 == First(k) + (if Offset(k) + i < 7 then 0 else 1 + (Offset(k) + i - 7) / 7)
    ensures Offset(k) + i < 7 ==> (8 * k + i) % 7 == Offset(k) + i
    ensures 7 <= Offset(k) + i < 14 ==> (8 * k + i) % 7 == Offset(k) + i - 7
  {
    assert 8 * k + i == 7 * First(k) + (Offset(k) + i);
  }

  /** Bit `p` of the packed octets is bit `p % 7` of septet `p / 7`; unless `n % 8 == 0`, what follows is zero. */
  lemma PackedBits(text: seq<Octet>, n: nat, p: nat)
    requires n < |text| && p < 8 * OctetCount(n)
    ensures p < 7 * n ==> Bit(OctetAt(text, n, p / 8), p % 8) == Bit(text[p / 7], p % 7)
    ensures p >= 7 * n && n % 8 != 0 ==> Bit(OctetAt(text, n, p / 8), p % 8) == 0
  {
    hide Bit, Join, Tail;
    var k, i := p / 8, p % 8;
    IndexBound(n, k);
    BitPlace(k, i);
    if First(k) + 1 < n {
      JoinBits(text[First(k)], text[First(k) + 1], Offset(k) + 1, i);
    } else {
      TailBits(text[First(k)], Offset(k) + 1, i);
    }
  }

  // ---- Round trip ----

  lemma LowOf(x: Octet, y: Octet)
    ensures Low(Join(x, y, 1)) == x & MASK && Low(Tail(x, 1)) == x & MASK
  {
  }

  lemma CrossLow(x: Octet, y: Octet, z: Octet, c: nat)
    requires 1 <= c <= 3
    ensures Cross(Join(x, y, c), Join(y, z, c + 1), c) == y & MASK
  {
    if c == 1 {
    } else if c == 2 {
    } else {
    }
  }

  lemma CrossHigh(x: Octet, y: Octet, z: Octet, c: nat)
    requires 4 <= c <= 6
    ensures Cross(Join(x, y, c), Join(y, z, c + 1), c) == y & MASK
  {
    if c == 4 {
    } else if c == 5 {
    } else {
    }
  }

  /** Either kind of octet that begins with septet `y`. */
  lemma CrossEither(x: Octet, y: Octet, z: Octet, c: nat)
    requires 1 <= c <= 6
    ensures Cross(Join(x, y, c), Join(y, z, c + 1), c) == y & MASK
    ensures Cross(Join(x, y, c), Tail(y, c + 1), c) == y & MASK
  {
    hide Cross, Join, Tail;
    TailIsJoin(y, c + 1);
    if c <= 3 {
      CrossLow(x, y, z, c);
      CrossLow(x, y, 0, c);
    } else {
      CrossHigh(x, y, z, c);
      CrossHigh(x, y, 0, c);
    }
  }

  lemma TailIsJoin(x: Octet, carry: nat)
    requires 1 <= carry <= 7
    ensures Tail(x, carry) == Join(x, 0, carry)
  {
  }

  /** A septet that fills the top of an octet owes nothing to the next one. */
  lemma CrossIgnores(x: Octet, y: Octet, next: Octet)
    ensures Cross(Join(x, y, 7), next, 7) == y & MASK
  {
  }

  lemma Places(n: nat, j: nat)
    requires j < n
    ensures Ending(j) < OctetCount(n) && n <= SeptetCount(OctetCount(n))
    ensures j % 8 == 0 ==> First(Ending(j)) == j && Offset(Ending(j)) == 0
    ensures 0 < j % 8 < 7 ==> First(Ending(j)) == j && Offset(Ending(j)) == j % 8
    ensures 0 < j % 8 ==> Ending(j) > 0 && First(Ending(j) - 1) == j - 1 && Offset(Ending(j) - 1) == j % 8 - 1
  {
  }

  lemma SeptetBack(text: seq<Octet>, n: nat, j: nat)
    requires j < n < |text|
    ensures Ending(j) < OctetCount(n)
    ensures SeptetAt(Packed(text, n, OctetCount(n)), j) == text[j] & MASK
  {
    hide Join, Tail, Cross, Low, Rest, First, Offset, Ending, OctetCount, Packed;
    Places(n, j);
    var q, m := Ending(j), OctetCount(n);
    var octets := Packed(text, n, m);
    PackedAt(text, n, m, q);
    IndexBound(n, q);
    if j % 8 == 0 {
      LowOf(text[j], text[j + 1]);
    } else {
      PackedAt(text, n, m, q - 1);
      if j % 8 == 7 {
        CrossIgnores(text[j - 1], text[j], octets[q]);
      } else {
        CrossEither(text[j - 1], text[j], text[j + 1], j % 8);
      }
    }
  }

  function Masked(text: seq<Octet>): (s: seq<Octet>)
    ensures |s| == |text|
  {
    if text == [] then [] else Masked(text[..|text| - 1]) + [text[|text| - 1] & MASK]
  }

  lemma {:induction false} MaskedAt(text: seq<Octet>, j: nat)
    requires j < |text|
    ensures Masked(text)[j] == text[j] & MASK
  {
    if j < |text| - 1 {
      MaskedAt(text[..|text| - 1], j);
    }
  }

  /** Packed text is unpacked again; the element behind the text, which may leave an octet, does not matter. */
  lemma PackedBack(text: seq<Octet>, n: nat, behind: Octet)
    requires 0 < n < |text|
    ensures Decoded(Packed(text, n, OctetCount(n)), behind, n) == Masked(text[..n])
  {
    hide SeptetAt, Packed, Unpacked, OctetCount, SeptetCount, Masked;
    var octets := Packed(text, n, OctetCount(n));
    CountPositive(n);
    Places(n, 0);
    var out := Unpacked(octets, n);
    forall j | 0 <= j < n
      ensures out[j] == Masked(text[..n])[j]
    {
      UnpackedAt(octets, n, j);
      SeptetBack(text, n, j);
      MaskedAt(text[..n], j);
    }
  }

  method RoundTrip(text: seq<Octet>, n: nat, size: nat, behind: Octet) returns (out: seq<Octet>)
    requires 0 < n < |text| && Fits(n, size)
    ensures out == Masked(text[..n])
  {
    hide Packed, Decoded, OctetCount, Masked, Fits;
    var r, octets := Encode(text, n, size);
    PackedBack(text, n, behind);
    out := Decode(octets, behind, n);
  }

  lemma CountPositive(n: nat)
    ensures OctetCount(n) > 0
  {
  }
}
