/** Byte streams as text: two upper-case hexadecimal digits a byte, blanks in between. */
module Hex {
  import opened Bytes

  const BLANK: byte := 32

  function Digit(n: nat): byte
    requires n < 16
  {
    if n < 10 then 48 + n else 55 + n
  }

  function Pair(b: byte): (s: seq<byte>)
    ensures |s| == 2
  {
    [Digit(b / 16), Digit(b % 16)]
  }

  function Text(data: seq<byte>): seq<byte> {
    if data == [] then []
    else if |data| == 1 then Pair(data[0])
    else Pair(data[0]) + [BLANK] + Text(data[1..])
  }

  /** Writes a stream, a blank before every byte but the first. */
  method Write(data: seq<byte>) returns (text: seq<byte>)
    ensures text == Text(data)
  {
    hide Pair, Text;
    text := [];
    TextEmpty();
    assert data[..0] == [];
    for i := 0 to |data|
      invariant text == Text(data[..i])
    {
      if i > 0 {
        text := text + [BLANK];
      }
      TextSnoc(data[..i], data[i]);
      assert data[..i + 1] == data[..i] + [data[i]];
      text := text + Pair(data[i]);
    }
    assert data[..|data|] == data;
  }

  lemma TextEmpty()
    ensures Text([]) == []
  {
  }

  lemma {:induction false} TextSnoc(data: seq<byte>, b: byte)
    ensures Text(data + [b]) == (if data == [] then Pair(b) else Text(data) + [BLANK] + Pair(b))
  {
    if data != [] {
      TextSnoc(data[1..], b);
      assert (data + [b])[1..] == data[1..] + [b];
    }
  }

  /** Two streams written with a blank between them are one stream. */
  lemma {:induction false} TextJoin(a: seq<byte>, b: seq<byte>)
    requires a != [] && b != []
    ensures Text(a) + [BLANK] + Text(b) == Text(a + b)
  {
    hide Pair;
    assert (a + b)[1..] == a[1..] + b;
    if |a| > 1 {
      TextJoin(a[1..], b);
      TextMore(a);
      TextMore(a + b);
      calc {
        Text(a) + [BLANK] + Text(b);
        Pair(a[0]) + [BLANK] + Text(a[1..]) + [BLANK] + Text(b);
        Pair(a[0]) + [BLANK] + (Text(a[1..]) + [BLANK] + Text(b));
        Text(a + b);
      }
    } else {
      TextMore(a + b);
      assert a[1..] + b == b;
    }
  }

  /** Three bytes as a text: "01 AF 9E". */
  lemma KnownText()
    ensures Text([0x01, 0xAF, 0x9E]) == [48, 49, 32, 65, 70, 32, 57, 69]
  {
    assert Text([0x9E]) == [57, 69];
    assert [0xAF, 0x9E][1..] == [0x9E];
    assert Text([0xAF, 0x9E]) == [65, 70, 32, 57, 69];
    assert [0x01, 0xAF, 0x9E][1..] == [0xAF, 0x9E];
  }

  lemma TextMore(data: seq<byte>)
    requires |data| > 1
    ensures Text(data) == Pair(data[0]) + [BLANK] + Text(data[1..])
  {
  }

  /** The value of a hexadecimal digit in either case. */
  function DigitValue(c: byte): Option<byte> {
    if 48 <= c < 58 then Some(c - 48)
    else if 65 <= c < 71 then Some(c - 55)
    else if 97 <= c < 103 then Some(c - 87)
    else None
  }

  /** A two-character text scanned as an unsigned hexadecimal number and cut to a byte. */
  function Scan(c: byte, d: byte): Option<byte> {
    match DigitValue(c)
    case Some(high) =>
      if c == 48 && (d == 88 || d == 120) then None
      else if DigitValue(d).Some? then Some(high * 16 + DigitValue(d).value) else Some(high)
    case None =>
      if DigitValue(d) == None then None
      else if c == 43 || c == 32 || 9 <= c < 14 then DigitValue(d)
      else if c == 45 then Some((256 - DigitValue(d).value) % 256)
      else None
  }

  /** The bytes read from a text, up to the first two characters that are no number. */
  function Values(s: seq<byte>): seq<byte> {
    if s != [] && s[0] == BLANK then Values(s[1..])
    else if |s| < 2 || Scan(s[0], s[1]) == None then []
    else [Scan(s[0], s[1]).value] + Values(s[2..])
  }

  /** A stream's bytes; an empty text gives no stream at all. */
  function Parsed(s: seq<byte>): Option<seq<byte>> {
    if s == [] then None else Some(Values(s))
  }

  method Parse(s: seq<byte>) returns (data: Option<seq<byte>>)
    ensures data == Parsed(s)
  {
    hide Scan, Values;
    if s == [] {
      return None;
    }
    var buf: seq<byte> := [];
    var i := 0;
    assert s[0..] == s;
    while i < |s|
      invariant i <= |s| && Values(s) == buf + Values(s[i..])
    {
      while i < |s| && s[i] == BLANK
        invariant i <= |s| && Values(s) == buf + Values(s[i..])
      {
        ValuesStep(s, i);
        i := i + 1;
      }
      if i + 1 >= |s| {
        ValuesEnd(s, i);
        break;
      }
      ValuesStep(s, i);
      var byte := Scan(s[i], s[i + 1]);
      if byte == None {
        break;
      }
      buf := buf + [byte.value];
      i := i + 2;
    }
    if i == |s| {
      ValuesEnd(s, i);
    }
    assert Values(s[i..]) == [];
    assert buf + [] == buf;
    data := Some(buf);
  }

  lemma ValuesStep(s: seq<byte>, i: nat)
    requires i < |s|
    ensures s[i] == BLANK ==> Values(s[i..]) == Values(s[i + 1..])
    ensures s[i] != BLANK && i + 1 < |s| ==>
      Values(s[i..]) == match Scan(s[i], s[i + 1]) case None => [] case Some(b) => [b] + Values(s[i + 2..])
  {
    assert s[i..][1..] == s[i + 1..];
    if i + 1 < |s| {
      assert s[i..][2..] == s[i + 2..];
    }
  }

  lemma ValuesEnd(s: seq<byte>, i: nat)
    requires i <= |s| <= i + 1 && (i < |s| ==> s[i] != BLANK)
    ensures Values(s[i..]) == []
  {
  }

  lemma PairScans(b: byte)
    ensures Scan(Pair(b)[0], Pair(b)[1]) == Some(b) && Pair(b)[0] != BLANK
  {
  }

  /** Reading a written stream gives it back. */
  lemma {:induction false} RoundTrip(data: seq<byte>)
    ensures Values(Text(data)) == data
  {
    if data != [] {
      PairScans(data[0]);
      hide Scan, Pair;
      var text := Text(data);
      assert text[..2] == Pair(data[0]);
      if |data| > 1 {
        RoundTrip(data[1..]);
        assert text[2..][0] == BLANK;
        assert text[2..][1..] == Text(data[1..]);
        assert Values(text[2..]) == Values(Text(data[1..]));
      } else {
        assert text[2..] == [];
      }
    }
  }
}
