/**
 * The GSM default alphabet with its escape table, sections 6.2.1 and 6.2.1.1 of 3GPP TS 23.038,
 * and telephone numbers as binary-coded decimals.
 */
module GsmText {
  import opened Bytes
  import Seqs

  const ESCAPE: byte := 0x1B
  /** What a character without a code becomes: a question mark. */
  const NPC := 0x3F

  type septet = g: int | 0 <= g < 128

  // ---- The tables ----

  /** The code of a Latin-1 character; a negative number is a code of the escape table. */
  function GsmCode(c: byte): (v: int)
    ensures -128 < v < 128 && v != ESCAPE
  {
    if 0x61 <= c <= 0x7A || 0x41 <= c <= 0x5A || 0x25 <= c <= 0x3F || 0x20 <= c <= 0x23 || c == 0x0A || c == 0x0D then c
    else if c < 0x80 then AsciiCode(c)
    else LatinCode(c)
  }

  function AsciiCode(c: byte): (v: int)
    ensures -128 < v < 128 && v != ESCAPE
  {
    match c
    case 0x0C => -0x0A
    case 0x24 => 0x02
    case 0x40 => 0x00
    case 0x5B => -0x3C
    case 0x5C => -0x2F
    case 0x5D => -0x3E
    case 0x5E => -0x14
    case 0x5F => 0x11
    case 0x7B => -0x28
    case 0x7C => -0x40
    case 0x7D => -0x29
    case 0x7E => -0x3D
    case _ => NPC
  }

  function LatinCode(c: byte): (v: int)
    ensures 0 <= v < 128 && v != ESCAPE
  {
    match c
    case 0xA1 => 0x40
    case 0xA3 => 0x01
    case 0xA4 => 0x24
    case 0xA5 => 0x03
    case 0xA7 => 0x5F
    case 0xBF => 0x60
    case 0xC4 => 0x5B
    case 0xC5 => 0x0E
    case 0xC6 => 0x1C
    case 0xC7 => 0x09
    case 0xC9 => 0x1F
    case 0xD1 => 0x5D
    case 0xD6 => 0x5C
    case 0xD8 => 0x0B
    case 0xDC => 0x5E
    case 0xDF => 0x1E
    case 0xE0 => 0x7F
    case 0xE4 => 0x7B
    case 0xE5 => 0x0F
    case 0xE6 => 0x1D
    case 0xE8 => 0x04
    case 0xE9 => 0x05
    case 0xEC => 0x07
    case 0xF1 => 0x7D
    case 0xF2 => 0x08
    case 0xF6 => 0x7C
    case 0xF8 => 0x0C
    case 0xF9 => 0x06
    case 0xFC => 0x7E
    case _ => NPC
  }

  /** The Latin-1 character of a code; unused codes give NUL. */
  function Latin(g: septet): byte {
    if 0x61 <= g <= 0x7A || 0x41 <= g <= 0x5A || 0x25 <= g <= 0x3F || 0x20 <= g <= 0x23 || g == 0x0A || g == 0x0D then g
    else if g < 0x20 then LowLatin(g)
    else match g
      case 0x24 => 0xA4
      case 0x40 => 0xA1
      case 0x5B => 0xC4
      case 0x5C => 0xD6
      case 0x5D => 0xD1
      case 0x5E => 0xDC
      case 0x5F => 0xA7
      case 0x60 => 0xBF
      case 0x7B => 0xE4
      case 0x7C => 0xF6
      case 0x7D => 0xF1
      case 0x7E => 0xFC
      case _ => 0xE0
  }

  function LowLatin(g: septet): byte {
    match g
    case 0x00 => 0x40
    case 0x01 => 0xA3
    case 0x02 => 0x24
    case 0x03 => 0xA5
    case 0x04 => 0xE8
    case 0x05 => 0xE9
    case 0x06 => 0xF9
    case 0x07 => 0xEC
    case 0x08 => 0xF2
    case 0x09 => 0xC7
    case 0x0B => 0xD8
    case 0x0C => 0xF8
    case 0x0E => 0xC5
    case 0x0F => 0xE5
    case 0x11 => 0x5F
    case 0x1C => 0xC6
    case 0x1D => 0xE6
    case 0x1E => 0xDF
    case 0x1F => 0xC9
    case _ => 0
  }

  /** The character of an escaped code; the table ends at 127. */
  function Extended(g: byte): byte {
    match g
    case 0x0A => 0x0C
    case 0x14 => 0x5E
    case 0x28 => 0x7B
    case 0x29 => 0x7D
    case 0x2F => 0x5C
    case 0x3C => 0x5B
    case 0x3D => 0x7E
    case 0x3E => 0x5D
    case 0x40 => 0x7C
    case _ => 0
  }

  /** Has a code of its own. */
  predicate Coded(c: byte) {
    GsmCode(c) != NPC || c == NPC
  }

  /** The tables are inverse to each other on every character that has a code. */
  lemma TablesInvert(c: byte)
    ensures GsmCode(c) >= 0 ==> (Latin(GsmCode(c)) == c <==> Coded(c))
    ensures GsmCode(c) < 0 ==> Extended(-GsmCode(c)) == c
  {
  }

  // ---- Texts ----

  /** How many bytes of a UTF-8 sequence are given up for a question mark; 1 for any other character. */
  function Taken(c: byte): (n: nat)
    ensures n > 0
  {
    if GsmCode(c) < 0 then 1
    else if 0xC0 <= c < 0xE0 then 2
    else if 0xE0 <= c < 0xF0 then 3
    else 1
  }

  function CodesOf(c: byte): seq<septet> {
    if GsmCode(c) < 0 then [ESCAPE, -GsmCode(c)]
    else if 0xC0 <= c < 0xF0 then [NPC]
    else [GsmCode(c)]
  }

  function DropUpTo(s: seq<byte>, n: nat): (t: seq<byte>)
    ensures n > 0 && s != [] ==> |t| < |s|
  {
    if n <= |s| then s[n..] else []
  }

  function ToGsm(s: seq<byte>): seq<septet>
    decreases |s|
  {
    if s == [] then [] else CodesOf(s[0]) + ToGsm(DropUpTo(s, Taken(s[0])))
  }

  /** Reads codes; an escape at the very end is dropped, and bytes that are no codes stay. */
  function FromGsm(g: seq<byte>): seq<byte> {
    if g == [] then []
    else if g[0] >= 128 then [g[0]] + FromGsm(g[1..])
    else if g[0] != ESCAPE then [Latin(g[0])] + FromGsm(g[1..])
    else if |g| == 1 then []
    else [Extended(g[1])] + FromGsm(g[2..])
  }

  /** Whatever lies inside the buffer holds the code that belongs there. */
  ghost predicate Holds(out: array<byte>, codes: seq<septet>)
    reads out
  {
    forall k :: 0 <= k < |codes| && k < out.Length ==> out[k] == codes[k]
  }

  /** Stores at an index, which lies inside the buffer or not. */
  method Put(out: array<byte>, j: nat, val: septet, ghost codes: seq<septet>) returns (inside: bool)
    requires |codes| == j && Holds(out, codes)
    modifies out
    ensures Holds(out, codes + [val]) && (inside <==> j < out.Length)
    ensures forall k :: j < k < out.Length ==> out[k] == old(out[k])
  {
    inside := j < out.Length;
    if inside {
      out[j] := val;
    }
  }

  /** Writes the codes of a text; those that do not fit are written behind the buffer. */
  method AsciiToGsm(buf: seq<byte>, out: array<byte>) returns (j: nat, inside: bool)
    modifies out
    ensures j == |ToGsm(buf)| && Holds(out, ToGsm(buf))
    ensures inside <==> |ToGsm(buf)| <= out.Length
    ensures forall k :: j <= k < out.Length ==> out[k] == old(out[k])
  {
    hide GsmCode, ToGsm, DropUpTo, Holds;
    j, inside := 0, true;
    ghost var codes: seq<septet> := [];
    var i := 0;
    ToGsmStart(buf);
    HoldsNothing(out);
    while i < |buf|
      invariant ToGsm(buf) == codes + ToGsm(DropUpTo(buf, i))
      invariant j == |codes| && (inside <==> j <= out.Length) && Holds(out, codes)
      invariant forall k :: j <= k < out.Length ==> out[k] == old(out[k])
    {
      ToGsmStep(buf, i);
      NoEscape(buf[i]);
      ghost var before, at := codes, i;
      var val: int := GsmCode(buf[i]);
      if val < 0 {
        inside := Put(out, j, ESCAPE, codes);
        j, codes := j + 1, codes + [ESCAPE];
        inside := Put(out, j, -val, codes);
        j, codes := j + 1, codes + [-val];
      } else {
        if 0xC0 <= buf[i] < 0xE0 {
          val := NPC;
          i := i + 1;
        } else if 0xE0 <= buf[i] < 0xF0 {
          val := NPC;
          i := i + 2;
        }
        inside := Put(out, j, val, codes);
        j, codes := j + 1, codes + [val];
      }
      i := i + 1;
      assert codes == before + CodesOf(buf[at]) && i == at + Taken(buf[at]);
    }
    ToGsmEnd(buf, i);
    assert codes + [] == codes;
  }

  lemma HoldsNothing(out: array<byte>)
    ensures Holds(out, [])
  {
  }

  lemma ToGsmStart(s: seq<byte>)
    ensures ToGsm(s) == [] + ToGsm(DropUpTo(s, 0))
  {
    assert s[0..] == s;
  }

  lemma ToGsmStep(s: seq<byte>, i: nat)
    requires i < |s|
    ensures ToGsm(DropUpTo(s, i)) == CodesOf(s[i]) + ToGsm(DropUpTo(s, i + Taken(s[i])))
  {
    hide CodesOf, Taken;
    DropTwice(s, i, Taken(s[i]));
  }

  lemma ToGsmEnd(s: seq<byte>, i: nat)
    requires i >= |s|
    ensures ToGsm(DropUpTo(s, i)) == []
  {
    assert s[|s|..] == [];
  }

  lemma NoEscape(c: byte)
    ensures -128 < GsmCode(c) < 128 && GsmCode(c) != ESCAPE
  {
    hide GsmCode;
  }

  lemma DropTwice(s: seq<byte>, i: nat, n: nat)
    requires i < |s|
    ensures DropUpTo(s, i) == s[i..] && DropUpTo(s, i) != [] && DropUpTo(s, i)[0] == s[i]
    ensures DropUpTo(DropUpTo(s, i), n) == DropUpTo(s, i + n)
  {
  }

  /** The characters that survive: those with a code that do not look like the start of a UTF-8 sequence. */
  predicate Representable(c: byte) {
    Coded(c) && !(0xC0 <= c < 0xF0)
  }

  ghost predicate AllRepresentable(s: seq<byte>) {
    forall i :: 0 <= i < |s| ==> Representable(s[i])
  }

  lemma OneCharacter(c: byte, rest: seq<septet>)
    ensures Representable(c) ==> Taken(c) == 1 && FromGsm(CodesOf(c) + rest) == [c] + FromGsm(rest)
    ensures !Representable(c) ==> c != NPC && FromGsm(CodesOf(c) + rest) == [NPC] + FromGsm(rest)
  {
    TablesInvert(c);
    NoEscape(c);
    QuestionMark(c);
    hide GsmCode, Latin, Extended;
    var codes := CodesOf(c) + rest;
    if GsmCode(c) < 0 {
      assert codes[2..] == rest;
    } else {
      assert codes[1..] == rest;
    }
  }

  lemma QuestionMark(c: byte)
    ensures Latin(NPC) == NPC && GsmCode(NPC) == NPC && (0xC0 <= c < 0xF0 ==> GsmCode(c) >= 0)
    ensures GsmCode(c) < 0 ==> c < 0x80
  {
  }

  /** Text comes back unchanged exactly when all its characters are representable. */
  lemma {:induction false} TextRoundTrip(s: seq<byte>)
    ensures FromGsm(ToGsm(s)) == s <==> AllRepresentable(s)
  {
    hide Representable, CodesOf, Taken;
    if s != [] {
      var rest := ToGsm(DropUpTo(s, Taken(s[0])));
      OneCharacter(s[0], rest);
      if Representable(s[0]) {
        TextRoundTrip(s[1..]);
        assert s == [s[0]] + s[1..];
        assert ([s[0]] + FromGsm(rest))[1..] == FromGsm(rest);
        RepresentableTail(s);
      } else {
        assert FromGsm(ToGsm(s))[0] == NPC;
      }
    }
  }

  lemma RepresentableTail(s: seq<byte>)
    requires s != [] && Representable(s[0])
    ensures AllRepresentable(s) <==> AllRepresentable(s[1..])
  {
    hide Representable;
    if AllRepresentable(s[1..]) {
      forall i | 0 <= i < |s|
        ensures Representable(s[i])
      {
        if i > 0 {
          assert s[1..][i - 1] == s[i];
        }
      }
    }
  }

  // ---- The tables as the standard prints them ----

  /** The first two columns of section 6.2.1, as far as their characters are in Latin-1. */
  lemma FirstColumns()
    ensures GsmCode(0x40) == 0x00 && GsmCode(0xA3) == 0x01 && GsmCode(0x24) == 0x02 && GsmCode(0xA5) == 0x03 && GsmCode(0xE8) == 0x04
    ensures GsmCode(0xE9) == 0x05 && GsmCode(0xF9) == 0x06 && GsmCode(0xEC) == 0x07 && GsmCode(0xF2) == 0x08 && GsmCode(0xC7) == 0x09
    ensures GsmCode(0xD8) == 0x0B && GsmCode(0xF8) == 0x0C && GsmCode(0xC5) == 0x0E && GsmCode(0xE5) == 0x0F && GsmCode(0x5F) == 0x11
    ensures GsmCode(0xC6) == 0x1C && GsmCode(0xE6) == 0x1D && GsmCode(0xDF) == 0x1E && GsmCode(0xC9) == 0x1F
  {
  }

  /** The characters of the other columns that have another code in Latin-1. */
  lemma OtherColumns()
    ensures GsmCode(0xA4) == 0x24 && GsmCode(0xA1) == 0x40 && GsmCode(0xC4) == 0x5B && GsmCode(0xD6) == 0x5C && GsmCode(0xD1) == 0x5D
    ensures GsmCode(0xDC) == 0x5E && GsmCode(0xA7) == 0x5F && GsmCode(0xBF) == 0x60 && GsmCode(0xE4) == 0x7B && GsmCode(0xF6) == 0x7C
    ensures GsmCode(0xF1) == 0x7D && GsmCode(0xFC) == 0x7E && GsmCode(0xE0) == 0x7F
  {
  }

  /** The escape table of section 6.2.1.1. */
  lemma EscapeTable()
    ensures GsmCode(0x0C) == -0x0A && GsmCode(0x5E) == -0x14 && GsmCode(0x7B) == -0x28 && GsmCode(0x7D) == -0x29
    ensures GsmCode(0x5C) == -0x2F && GsmCode(0x5B) == -0x3C && GsmCode(0x7E) == -0x3D && GsmCode(0x5D) == -0x3E
    ensures GsmCode(0x7C) == -0x40
  {
  }

  /** All characters that are themselves a code, and all that have none. */
  lemma RestOfTable(c: byte)
    ensures c == 0x0A || c == 0x0D || 0x20 <= c <= 0x23 || 0x25 <= c <= 0x3F || 0x41 <= c <= 0x5A || 0x61 <= c <= 0x7A ==> GsmCode(c) == c
    ensures c < 0x20 && c != 0x0A && c != 0x0C && c != 0x0D ==> GsmCode(c) == 0x3F
    ensures c == 0x60 || 0x7F <= c <= 0xA0 || 0xA8 <= c <= 0xBE ==> GsmCode(c) == 0x3F
    ensures c in {0xA2, 0xA6, 0xC0, 0xC1, 0xC2, 0xC3, 0xC8, 0xCA, 0xCB, 0xCC, 0xCD, 0xCE, 0xCF, 0xD0, 0xD2, 0xD3, 0xD4, 0xD5, 0xD7, 0xD9, 0xDA, 0xDB, 0xDD, 0xDE, 0xE1, 0xE2, 0xE3, 0xE7, 0xEA, 0xEB, 0xED, 0xEE, 0xEF, 0xF0, 0xF3, 0xF4, 0xF5, 0xF7, 0xFA, 0xFB, 0xFD, 0xFE, 0xFF} ==> GsmCode(c) == 0x3F
  {
  }

  /** The front of a text: a UTF-8 sequence of two or three bytes is one question mark, also when it is cut off. */
  lemma FrontOfText(s: seq<byte>)
    requires s != []
    ensures 0xC0 <= s[0] <= 0xDF ==> ToGsm(s) == [0x3F] + ToGsm(if |s| >= 2 then s[2..] else [])
    ensures 0xE0 <= s[0] <= 0xEF ==> ToGsm(s) == [0x3F] + ToGsm(if |s| >= 3 then s[3..] else [])
    ensures !(0xC0 <= s[0] <= 0xEF) && GsmCode(s[0]) >= 0 ==> ToGsm(s) == [GsmCode(s[0])] + ToGsm(s[1..])
    ensures GsmCode(s[0]) < 0 ==> ToGsm(s) == [0x1B, -GsmCode(s[0])] + ToGsm(s[1..])
  {
    hide GsmCode;
    QuestionMark(s[0]);
  }

  // ---- Unescaping in place ----

  /** Every code that is looked up in the escape table lies inside it; `behind` follows the codes. */
  predicate Readable(g: seq<byte>, behind: byte) {
    if g == [] then true
    else if g[0] != ESCAPE then Readable(g[1..], behind)
    else if |g| == 1 then behind < 128
    else g[1] < 128 && Readable(g[2..], behind)
  }

  lemma {:induction false} SeptetsReadable(g: seq<byte>, behind: byte)
    requires behind < 128 && forall i :: 0 <= i < |g| ==> g[i] < 128
    ensures Readable(g, behind)
  {
    if g != [] && (g[0] != ESCAPE || |g| > 1) {
      SeptetsReadable(if g[0] != ESCAPE then g[1..] else g[2..], behind);
    }
  }

  /** The first `i` bytes, or all `len` when `i` has run past them, are characters; codes follow. */
  ghost predicate Halfway(codes: seq<byte>, bytes: seq<byte>, i: nat, len: nat) {
    var m := if i <= len then i else len;
    && len < |bytes|
    && FromGsm(codes) == bytes[..m] + FromGsm(bytes[m..len])
    && Readable(bytes[m..len], bytes[len])
  }

  /** A buffer after the escape at `i` was replaced and the tail moved up. */
  function Unescaped(s: seq<byte>, i: nat, len: nat): (t: seq<byte>)
    requires i < len < |s|
    ensures |t| == |s|
  {
    s[..i] + [Extended(s[i + 1])] + s[i + 2..len + 1] + s[len..]
  }

  lemma HalfwayStart(s: seq<byte>, len: nat)
    requires len < |s| && Readable(s[..len], s[len])
    ensures Halfway(s[..len], s, 0, len)
  {
    assert s[0..len] == s[..len];
  }

  /** What is read of a code that is no escape. */
  function Plain(g: byte): byte {
    if g >= 128 then g else Latin(g)
  }

  lemma PlainHalfway(codes: seq<byte>, s: seq<byte>, i: nat, len: nat)
    requires i < len && Halfway(codes, s, i, len) && s[i] != ESCAPE
    ensures Halfway(codes, s[i := Plain(s[i])], i + 1, len)
  {
    hide Latin;
    var t := s[i := Plain(s[i])];
    assert s[i..len][1..] == s[i + 1..len];
    assert t[i + 1..len] == s[i + 1..len];
    assert t[..i + 1] == s[..i] + [Plain(s[i])];
    assert s[..i] + ([Plain(s[i])] + FromGsm(s[i + 1..len])) == t[..i + 1] + FromGsm(s[i + 1..len]);
  }

  lemma EscapeHalfway(codes: seq<byte>, s: seq<byte>, i: nat, len: nat)
    requires i < len && Halfway(codes, s, i, len) && s[i] == ESCAPE
    ensures s[i + 1] < 128 && Halfway(codes, Unescaped(s, i, len), i + 1, len - 1)
  {
    hide Extended;
    var t := Unescaped(s, i, len);
    var g := s[i..len];
    if i + 1 == len {
      assert g == [ESCAPE];
      assert t[len - 1..len - 1] == [] && t[..len - 1] == s[..i];
    } else {
      assert g[2..] == s[i + 2..len];
      UnescapedParts(s, i, len);
      var rest := FromGsm(s[i + 2..len]);
      assert s[..i] + ([Extended(s[i + 1])] + rest) == t[..i + 1] + rest;
    }
  }

  lemma UnescapedParts(s: seq<byte>, i: nat, len: nat)
    requires i + 1 < len < |s|
    ensures var t := Unescaped(s, i, len);
      t[i + 1..len - 1] == s[i + 2..len] && t[..i + 1] == s[..i] + [Extended(s[i + 1])] && t[len - 1] == s[len]
  {
    hide Extended;
    var head, moved := s[..i] + [Extended(s[i + 1])], s[i + 2..len + 1];
    var t := Unescaped(s, i, len);
    assert t == head + (moved + s[len..]);
    Seqs.SliceOfRight(head, moved + s[len..], i + 1, len - 1);
    Seqs.SliceOfLeft(moved, s[len..], 0, len - i - 2);
    Seqs.SliceOfSlice(s, i + 2, len + 1, 0, len - i - 2);
  }

  lemma HalfwayEnd(codes: seq<byte>, s: seq<byte>, i: nat, len: nat)
    requires i >= len && Halfway(codes, s, i, len)
    ensures FromGsm(codes) == s[..len]
  {
    assert s[len..len] == [];
  }

  /** Replaces the escape at `i` and moves the tail up. */
  method Unescape(buf: array<byte>, i: nat, len: nat)
    requires i < len < buf.Length
    modifies buf
    ensures buf[..] == Unescaped(old(buf[..]), i, len)
  {
    hide Extended;
    ghost var s := buf[..];
    buf[i] := Extended(buf[i + 1]);
    forall k | i + 1 <= k < len {
      buf[k] := buf[k + 1];
    }
    hide Unescaped;
    forall k | 0 <= k < buf.Length
      ensures buf[k] == Unescaped(s, i, len)[k]
    {
      UnescapedAt(s, i, len, k);
    }
  }

  lemma UnescapedAt(s: seq<byte>, i: nat, len: nat, k: nat)
    requires i < len < |s| && k < |s|
    ensures Unescaped(s, i, len)[k] == if k == i then Extended(s[i + 1]) else if i < k < len then s[k + 1] else s[k]
  {
    hide Extended;
  }

  /**
   * Turns the first `len` codes of a buffer into characters where they stand; the tail moves up
   * over every escape. One more element than the codes may be read.
   */
  method GsmToAscii(buf: array<byte>, length: nat) returns (len: nat)
    requires length < buf.Length && Readable(buf[..length], buf[length])
    modifies buf
    ensures len <= length && buf[..len] == FromGsm(old(buf[..length]))
  {
    hide Halfway, FromGsm, Latin, Extended, Readable, Unescaped;
    len := length;
    ghost var codes := buf[..length];
    HalfwayStart(buf[..], length);
    var i := 0;
    while i < len
      invariant i <= len + 1 && len <= length
      invariant Halfway(codes, buf[..], i, len)
      decreases len + 1 - i
    {
      ghost var before := buf[..];
      if buf[i] == ESCAPE {
        EscapeHalfway(codes, before, i, len);
        Unescape(buf, i, len);
        len := len - 1;
      } else {
        PlainHalfway(codes, before, i, len);
        if buf[i] < 128 {
          buf[i] := Latin(buf[i]);
        }
        assert buf[..] == before[i := Plain(before[i])];
      }
      i := i + 1;
    }
    HalfwayEnd(codes, buf[..], i, len);
  }

  // ---- Telephone numbers ----

  function Nibble(c: byte): (n: nat)
    ensures n < 16
  {
    (c as int - 48) % 16
  }

  /** Two digits an octet, the first in the low half; an odd last digit leaves the high half filled with ones. */
  function PhoneOctets(phone: seq<byte>): (s: seq<byte>)
    ensures |s| == (|phone| + 1) / 2
  {
    if phone == [] then []
    else if |phone| == 1 then [0xF0 + Nibble(phone[0])]
    else [Nibble(phone[0]) + 16 * Nibble(phone[1])] + PhoneOctets(phone[2..])
  }

  function PhoneDigits(buf: seq<byte>, n: nat): (s: seq<byte>)
    requires (n + 1) / 2 <= |buf|
    ensures |s| == n
  {
    if n == 0 then []
    else if n == 1 then [buf[0] % 16 + 48]
    else [buf[0] % 16 + 48, buf[0] / 16 + 48] + PhoneDigits(buf[1..], n - 2)
  }

  /** Packs digit by digit; the range test of the digits can never fail, so only the size is refused. */
  method EncodePhone(phone: seq<byte>, size: nat) returns (r: int, out: seq<byte>)
    ensures (|phone| + 1) / 2 > size ==> r == -1
    ensures (|phone| + 1) / 2 <= size ==> r == |out| && out == PhoneOctets(phone)
  {
    hide Nibble;
    out := [];
    if (|phone| + 1) / 2 > size {
      return -1, [];
    }
    assert phone[..0] == [];
    for i := 0 to |phone|
      invariant out == PhoneOctets(phone[..i])
    {
      if phone[i] < 48 && phone[i] > 57 {
        return -1, [];
      }
      PhoneSnoc(phone[..i], phone[i]);
      assert phone[..i + 1] == phone[..i] + [phone[i]];
      if i % 2 == 0 {
        out := out + [0xF0 + Nibble(phone[i])];
      } else {
        out := out[..|out| - 1] + [out[|out| - 1] % 16 + 16 * Nibble(phone[i])];
      }
    }
    assert phone[..|phone|] == phone;
    r := |out|;
  }

  lemma {:induction false} PhoneDigitAt(buf: seq<byte>, n: nat, i: nat)
    requires (n + 1) / 2 <= |buf| && i < n
    ensures PhoneDigits(buf, n)[i] == (if i % 2 == 0 then buf[i / 2] % 16 else buf[i / 2] / 16) + 48
  {
    if i >= 2 {
      PhoneDigitAt(buf[1..], n - 2, i - 2);
    }
  }

  /** Takes the low and the high half of each octet in turn. */
  method DecodePhone(buf: seq<byte>, n: nat) returns (out: seq<byte>)
    requires (n + 1) / 2 <= |buf|
    ensures out == PhoneDigits(buf, n)
  {
    hide PhoneDigits;
    out := [];
    for i := 0 to n
      invariant |out| == i && out == PhoneDigits(buf, n)[..i]
    {
      PhoneDigitAt(buf, n, i);
      out := out + [if i % 2 == 0 then buf[i / 2] % 16 + 48 else buf[i / 2] / 16 + 48];
    }
  }

  lemma PhoneStep(s: seq<byte>)
    requires |s| >= 2
    ensures PhoneOctets(s) == [Nibble(s[0]) + 16 * Nibble(s[1])] + PhoneOctets(s[2..])
  {
    hide Nibble;
  }

  lemma {:induction false} PhoneSnoc(s: seq<byte>, c: byte)
    ensures var p, q := PhoneOctets(s), PhoneOctets(s + [c]);
      if |s| % 2 == 0 then q == p + [0xF0 + Nibble(c)]
      else q == p[..|p| - 1] + [p[|p| - 1] % 16 + 16 * Nibble(c)]
  {
    hide Nibble, PhoneOctets;
    if |s| > 1 {
      PhoneSnoc(s[2..], c);
      PhoneStep(s);
      PhoneStep(s + [c]);
      assert (s + [c])[2..] == s[2..] + [c];
      OctetInFront(Nibble(s[0]) + 16 * Nibble(s[1]), PhoneOctets(s[2..]), PhoneOctets(s[2..] + [c]), |s| % 2 == 0, Nibble(c));
    } else if |s| == 1 {
      PhoneShort(s[0], c);
      assert s == [s[0]];
      assert s + [c] == [s[0], c];
    } else {
      PhoneShort(c, c);
      assert s == [];
      assert s + [c] == [c];
    }
  }

  lemma PhoneShort(a: byte, c: byte)
    ensures PhoneOctets([]) == [] && PhoneOctets([a]) == [0xF0 + Nibble(a)]
    ensures PhoneOctets([a, c]) == [Nibble(a) + 16 * Nibble(c)]
  {
    hide Nibble;
    assert [a, c][2..] == [];
  }

  lemma OctetInFront(octet: byte, p: seq<byte>, q: seq<byte>, even: bool, n: nat)
    requires n < 16
    requires if even then q == p + [0xF0 + n] else p != [] && q == p[..|p| - 1] + [p[|p| - 1] % 16 + 16 * n]
    ensures var p', q' := [octet] + p, [octet] + q;
      if even then q' == p' + [0xF0 + n] else q' == p'[..|p'| - 1] + [p'[|p'| - 1] % 16 + 16 * n]
  {
    if !even {
      assert ([octet] + p)[..|p|] == [octet] + p[..|p| - 1];
    }
  }

  /** The digits 1, 2, 3 go low half first, with a filler at the end. */
  lemma KnownNumber()
    ensures PhoneOctets([0x31, 0x32, 0x33]) == [0x21, 0xF3] && PhoneDigits([0x21, 0xF3], 3) == [0x31, 0x32, 0x33]
  {
    assert [0x31, 0x32, 0x33][2..] == [0x33];
    assert PhoneDigits([0xF3], 1) == [0x33];
    assert [0x21, 0xF3][1..] == [0xF3];
  }

  ghost predicate Dialable(phone: seq<byte>) {
    forall i :: 0 <= i < |phone| ==> 48 <= phone[i] < 64
  }

  function PhoneBack(phone: seq<byte>): (s: seq<byte>)
    ensures |s| == |phone|
  {
    PhoneDigits(PhoneOctets(phone), |phone|)
  }

  lemma PhoneBackStep(phone: seq<byte>)
    requires |phone| >= 2
    ensures var octet := Nibble(phone[0]) + 16 * Nibble(phone[1]);
      PhoneBack(phone) == [octet % 16 + 48, octet / 16 + 48] + PhoneBack(phone[2..])
  {
    hide Nibble;
    assert PhoneOctets(phone)[1..] == PhoneOctets(phone[2..]);
  }

  /** A number comes back unchanged exactly when its characters lie between '0' and '?'. */
  lemma {:induction false} PhoneRoundTrip(phone: seq<byte>)
    ensures PhoneBack(phone) == phone <==> Dialable(phone)
  {
    if |phone| >= 2 {
      var rest := phone[2..];
      PhoneRoundTrip(rest);
      PhoneBackStep(phone);
      NibbleBack(phone[0], phone[1]);
      DialableTail(phone);
      hide Nibble, PhoneBack, Dialable;
      assert PhoneBack(phone)[2..] == PhoneBack(rest);
      assert phone == [phone[0], phone[1]] + rest;
    } else if |phone| == 1 {
      NibbleBack(phone[0], phone[0]);
    }
  }

  lemma DialableTail(phone: seq<byte>)
    requires |phone| >= 2
    ensures Dialable(phone) <==> 48 <= phone[0] < 64 && 48 <= phone[1] < 64 && Dialable(phone[2..])
  {
    if Dialable(phone[2..]) {
      assert forall i :: 2 <= i < |phone| ==> phone[i] == phone[2..][i - 2];
    }
  }

  lemma NibbleBack(c: byte, d: byte)
    ensures (Nibble(c) + 16 * Nibble(d)) % 16 + 48 == c <==> 48 <= c < 64
    ensures (Nibble(c) + 16 * Nibble(d)) / 16 + 48 == d <==> 48 <= d < 64
    ensures (0xF0 + Nibble(c)) % 16 + 48 == c <==> 48 <= c < 64
  {
  }
}
