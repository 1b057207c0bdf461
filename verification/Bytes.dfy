/** Bytes and little-endian words, shared by the models that work on unsigned arithmetic. */
module Bytes {
  type byte = b: int | 0 <= b < 256

  type word = w: int | 0 <= w < 0x1_0000_0000

  /** The range of the source's sizes and offsets. */
  const SIZE_T := 0x1_0000_0000_0000_0000

  function Min(a: int, b: int): int {
    if a < b then a else b
  }

  datatype Option<+T> = None | Some(value: T)

  /** The unsigned number stored least significant byte first. */
  function LeValue(s: seq<byte>): nat {
    if s == [] then 0 else s[0] + 256 * LeValue(s[1..])
  }

  /** `width` bytes of `value`, least significant first; higher bytes are dropped. */
  function LeBytes(value: nat, width: nat): (s: seq<byte>)
    ensures |s| == width
  {
    if width == 0 then [] else [value % 256] + LeBytes(value / 256, width - 1)
  }

  function Pow256(width: nat): nat {
    if width == 0 then 1 else 256 * Pow256(width - 1)
  }

  lemma {:induction false} LeRoundTrip(value: nat, width: nat)
    requires value < Pow256(width)
    ensures LeValue(LeBytes(value, width)) == value
  {
    if width > 0 {
      LeRoundTrip(value / 256, width - 1);
      assert LeBytes(value, width)[1..] == LeBytes(value / 256, width - 1);
    }
  }

  lemma Pow256Small()
    ensures Pow256(2) == 0x1_0000
    ensures Pow256(4) == 0x1_0000_0000
    ensures Pow256(8) == 0x1_0000_0000_0000_0000
  {
    assert Pow256(3) == 256 * Pow256(2);
    assert Pow256(5) == 256 * Pow256(4);
    assert Pow256(6) == 256 * Pow256(5);
    assert Pow256(7) == 256 * Pow256(6);
  }

  lemma {:induction false} LeValueBound(s: seq<byte>)
    ensures LeValue(s) < Pow256(|s|)
  {
    if s != [] {
      LeValueBound(s[1..]);
    }
  }

  /** Four bytes as a number, least significant first. */
  function LeWord(s: seq<byte>): word
    requires |s| == 4
  {
    LeValueBound(s);
    Pow256Small();
    LeValue(s)
  }

  lemma LeWordRoundTrip(v: word)
    ensures LeWord(LeBytes(v, 4)) == v
  {
    hide LeValue, LeBytes;
    Pow256Small();
    LeRoundTrip(v, 4);
  }

  function Zeros(n: nat): (s: seq<byte>)
    ensures |s| == n
  {
    seq(n, _ => 0)
  }

  /** File contents after `data` is written at an offset; a gap reads as zeros. */
  function Overlay(s: seq<byte>, offset: nat, data: seq<byte>): (t: seq<byte>)
    ensures |t| == if |s| > offset + |data| then |s| else offset + |data|
  {
    (if offset <= |s| then s[..offset] else s + Zeros(offset - |s|)) + data
    + (if offset + |data| < |s| then s[offset + |data|..] else [])
  }

  /** Writing on where a write ended is one longer write. */
  lemma OverlayMore(s: seq<byte>, offset: nat, data: seq<byte>, more: seq<byte>)
    requires offset <= |s|
    ensures Overlay(Overlay(s, offset, data), offset + |data|, more) == Overlay(s, offset, data + more)
  {
  }

  lemma OverlayNothing(s: seq<byte>, offset: nat)
    requires offset <= |s|
    ensures Overlay(s, offset, []) == s
  {
  }
}

/** Slicing facts that the verifier only finds element by element. */
module Seqs {
  lemma SliceOfSlice<T>(s: seq<T>, from: nat, to: nat, a: nat, b: nat)
    requires from <= to <= |s| && a <= b <= to - from
    ensures s[from..to][a..b] == s[from + a..from + b]
  {
    var l, r := s[from..to][a..b], s[from + a..from + b];
    assert |l| == |r|;
    assert forall k :: 0 <= k < |l| ==> l[k] == r[k];
  }

  lemma SliceOfLeft<T>(s: seq<T>, t: seq<T>, a: nat, b: nat)
    requires a <= b <= |s|
    ensures (s + t)[a..b] == s[a..b]
  {
    var l, r := (s + t)[a..b], s[a..b];
    assert |l| == |r|;
    assert forall k :: 0 <= k < |l| ==> l[k] == r[k];
  }

  lemma SliceOfRight<T>(s: seq<T>, t: seq<T>, a: nat, b: nat)
    requires |s| <= a <= b <= |s| + |t|
    ensures (s + t)[a..b] == t[a - |s|..b - |s|]
  {
    var l, r := (s + t)[a..b], t[a - |s|..b - |s|];
    assert |l| == |r|;
    assert forall k :: 0 <= k < |l| ==> l[k] == r[k];
  }
}
