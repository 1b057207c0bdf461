/** The body of a short message: from text to its length and packed octets, and back. */
module Sms {
  import opened Bytes
  import Septets
  import GsmText

  const SMS_MAX_7BIT_TEXT_LEN := 160
  const TEXT_BUFFER := 2 * SMS_MAX_7BIT_TEXT_LEN

  // ---- Bytes as numbers and as bit vectors ----

  function Code(x: Septets.Octet): byte {
    x as int
  }

  function Octet(b: byte): Septets.Octet {
    if b == 0 then 0 else Octet(b - 1) + 1
  }

  lemma {:induction false} OctetCode(b: byte)
    ensures Code(Octet(b)) == b
  {
    if b > 0 {
      OctetCode(b - 1);
      NextCode(Octet(b - 1));
    }
  }

  lemma NextCode(x: Septets.Octet)
    requires Code(x) < 255
    ensures Code(x + 1) == Code(x) + 1
  {
  }

  function Octets(s: seq<byte>): (t: seq<Septets.Octet>)
    ensures |t| == |s|
  {
    if s == [] then [] else Octets(s[..|s| - 1]) + [Octet(s[|s| - 1])]
  }

  lemma {:induction false} OctetsAt(s: seq<byte>, i: nat)
    requires i < |s|
    ensures Octets(s)[i] == Octet(s[i])
  {
    if i < |s| - 1 {
      OctetsAt(s[..|s| - 1], i);
    }
  }

  function Codes(s: seq<Septets.Octet>): (t: seq<byte>)
    ensures |t| == |s|
  {
    if s == [] then [] else Codes(s[..|s| - 1]) + [Code(s[|s| - 1])]
  }

  lemma {:induction false} CodesAt(s: seq<Septets.Octet>, i: nat)
    requires i < |s|
    ensures Codes(s)[i] == Code(s[i])
  {
    if i < |s| - 1 {
      CodesAt(s[..|s| - 1], i);
    }
  }

  // ---- Encoding ----

  /** When a body is accepted with `room` octets left, one of them for its length. */
  predicate Accepted(text: seq<byte>, room: nat)
    requires room > 0
  {
    |GsmText.ToGsm(text)| <= SMS_MAX_7BIT_TEXT_LEN && Septets.Fits(|GsmText.ToGsm(text)|, room - 1)
  }

  /** The number of codes and the packed codes; what lay behind them in the buffer may show in the last octet. */
  ghost predicate IsBody(body: seq<Septets.Octet>, text: seq<byte>) {
    var codes := GsmText.ToGsm(text);
    exists buffer :: Stores(buffer, codes) && body == BodyOf(buffer, |codes|)
  }

  ghost predicate Stores(buffer: seq<byte>, codes: seq<byte>) {
    |codes| < |buffer| && |codes| < 256 && buffer[..|codes|] == codes
  }

  ghost function BodyOf(buffer: seq<byte>, n: nat): seq<Septets.Octet>
    requires n < |buffer| && n < 256
  {
    [Octet(n)] + Septets.Packed(Octets(buffer), n, Septets.OctetCount(n))
  }

  /**
   * The codes are stored before they are counted: texts of more than 160 codes are refused, but those
   * of more than 320 have been stored beyond the buffer by then.
   */
  method EncodeBody(text: seq<byte>, room: nat) returns (r: int, body: seq<Septets.Octet>, inside: bool)
    requires room > 0
    ensures inside <==> |GsmText.ToGsm(text)| <= TEXT_BUFFER
    ensures if Accepted(text, room) then r == |body| && IsBody(body, text) else r == -1
  {
    hide GsmText.ToGsm, Octet, Octets, Septets.Packed, Septets.OctetCount, Septets.Fits;
    var buffer := new byte[TEXT_BUFFER];
    var n;
    n, inside := GsmText.AsciiToGsm(text, buffer);
    if n > SMS_MAX_7BIT_TEXT_LEN {
      return -1, [], inside;
    }
    var len, octets := Septets.Encode(Octets(buffer[..]), n, room - 1);
    if len < 0 {
      return -1, [], inside;
    }
    body := [Octet(n)] + octets;
    r := |body|;
    assert Stores(buffer[..], GsmText.ToGsm(text)) && body == BodyOf(buffer[..], n);
  }

  // ---- Decoding ----

  /** The septets are as many as the length says: none behind a missing body, else at least one. */
  predicate Complete(body: seq<Septets.Octet>)
    requires |body| > 0
  {
    var n, m := Code(body[0]), |body| - 1;
    if m == 0 then n == 0 else 0 < n <= Septets.SeptetCount(m)
  }

  /** Refuses a body for a text buffer that is too small, and one whose octets do not yield its septets. */
  method DecodeBody(body: seq<Septets.Octet>, behind: Septets.Octet, size: nat) returns (r: int, text: seq<byte>)
    requires |body| > 0
    ensures if Code(body[0]) <= size && Complete(body) then
        r == |text| && text == GsmText.FromGsm(Codes(Septets.Decoded(body[1..], behind, Code(body[0]))))
      else r == -1
  {
    hide Code, Codes, GsmText.FromGsm, GsmText.Readable, Septets.Unpacked, Septets.Rest, Septets.SeptetCount;
    var n := Code(body[0]);
    if size < n {
      return -1, [];
    }
    var septets := Septets.Decode(body[1..], behind, n);
    DecodedLength(body[1..], behind, n);
    if |septets| != n {
      return -1, [];
    }
    var buf := new byte[n + 1](_ => 0);
    for i := 0 to n
      invariant forall k :: 0 <= k < i ==> buf[k] == Code(septets[k])
      invariant forall k :: i <= k <= n ==> buf[k] == 0
    {
      buf[i] := Code(septets[i]);
    }
    SameCodes(buf[..n], septets);
    DecodedCodes(body[1..], behind, n);
    GsmText.SeptetsReadable(buf[..n], 0);
    r := GsmText.GsmToAscii(buf, n);
    text := buf[..r];
  }

  lemma SameCodes(s: seq<byte>, septets: seq<Septets.Octet>)
    requires |s| == |septets| && forall k :: 0 <= k < |s| ==> s[k] == Code(septets[k])
    ensures s == Codes(septets)
  {
    hide Code, Codes;
    forall k | 0 <= k < |s|
      ensures s[k] == Codes(septets)[k]
    {
      CodesAt(septets, k);
    }
  }

  lemma DecodedLength(buf: seq<Septets.Octet>, behind: Septets.Octet, n: nat)
    ensures |Septets.Decoded(buf, behind, n)| == n <==> if buf == [] then n == 0 else 0 < n <= Septets.SeptetCount(|buf|)
  {
    hide Septets.Unpacked, Septets.Rest;
  }

  lemma SmallLow(x: Septets.Octet)
    ensures Code(Septets.Low(x)) < 128
  {
  }

  lemma SmallCross(x: Septets.Octet, y: Septets.Octet, carry: nat)
    requires 1 <= carry <= 7
    ensures Code(Septets.Cross(x, y, carry)) < 128
  {
    hide Septets.Shl, Septets.Shr;
    SmallLow(Septets.Shl(y, carry) | Septets.Shr(x, 8 - carry));
  }

  lemma SmallRest(x: Septets.Octet, carry: nat)
    requires 1 <= carry <= 7
    ensures Code(Septets.Rest(x, carry)) < 128
  {
  }

  lemma SmallSeptet(buf: seq<Septets.Octet>, j: nat)
    requires Septets.Ending(j) <= |buf| && (j % 8 == 0 ==> Septets.Ending(j) < |buf|)
    ensures Code(Septets.SeptetAt(buf, j)) < 128
  {
    hide Code, Septets.Low, Septets.Cross, Septets.Rest;
    var q := Septets.Ending(j);
    if j % 8 == 0 {
      SmallLow(buf[q]);
    } else if q < |buf| {
      SmallCross(buf[q - 1], buf[q], j % 8);
    } else {
      SmallRest(buf[q - 1], j % 8);
    }
  }

  /** Whatever the octets are, unpacking yields codes below 128. */
  lemma DecodedCodes(buf: seq<Septets.Octet>, behind: Septets.Octet, n: nat)
    ensures var codes := Codes(Septets.Decoded(buf, behind, n)); forall i :: 0 <= i < |codes| ==> codes[i] < 128
  {
    hide Code, Codes, Septets.Unpacked, Septets.Rest, Septets.SeptetAt, Septets.Ending;
    var septets := Septets.Decoded(buf, behind, n);
    forall i | 0 <= i < |septets|
      ensures Codes(septets)[i] < 128
    {
      CodesAt(septets, i);
      if buf == [] {
        SmallRest(behind, 1);
      } else {
        Septets.UnpackedAt(buf, |septets|, i);
        SmallSeptet(buf, i);
      }
    }
  }

  // ---- Round trip ----

  lemma MaskedCode(x: Septets.Octet)
    ensures Code(x) < 128 ==> x & Septets.MASK == x
  {
  }

  lemma BodyDecodes(buffer: seq<byte>, codes: seq<GsmText.septet>, behind: Septets.Octet)
    requires Stores(buffer, codes) && codes != []
    ensures Codes(Septets.Decoded(BodyOf(buffer, |codes|)[1..], behind, |codes|)) == codes
  {
    hide Code, Codes, Octet, Septets.Decoded, Septets.Packed, Septets.Masked, Septets.OctetCount;
    var n, octets := |codes|, Octets(buffer);
    assert BodyOf(buffer, n)[1..] == Septets.Packed(octets, n, Septets.OctetCount(n));
    Septets.PackedBack(octets, n, behind);
    forall i | 0 <= i < n
      ensures Codes(Septets.Masked(octets[..n]))[i] == codes[i]
    {
      CodesAt(Septets.Masked(octets[..n]), i);
      Septets.MaskedAt(octets[..n], i);
      OctetsAt(buffer, i);
      OctetCode(buffer[i]);
      MaskedCode(octets[i]);
      assert buffer[i] == buffer[..n][i];
    }
  }

  lemma SomeCodes(text: seq<byte>)
    ensures GsmText.ToGsm(text) == [] <==> text == []
  {
    hide GsmText.GsmCode;
  }

  lemma BodyComplete(buffer: seq<byte>, n: nat)
    requires n < |buffer| && n < 256
    ensures var body := BodyOf(buffer, n);
      Code(body[0]) == n && (Complete(body) <==> n > 0) && |body| > 1
  {
    hide Code, Octet, Octets, Septets.Packed;
    OctetCode(n);
    Septets.CountPositive(n);
    if n > 0 {
      Septets.Places(n, 0);
    }
  }

  /**
   * Encodes a text and decodes what was made of it. An accepted text that is not empty and whose codes
   * the receiver has room for is read again, unchanged exactly when its characters are representable.
   */
  method BodyRoundTrip(text: seq<byte>, room: nat, behind: Septets.Octet, size: nat) returns (r: int, back: seq<byte>)
    requires room > 0
    ensures r >= 0 <==> Accepted(text, room) && text != [] && |GsmText.ToGsm(text)| <= size
    ensures r >= 0 ==> back == GsmText.FromGsm(GsmText.ToGsm(text)) && (back == text <==> GsmText.AllRepresentable(text))
  {
    hide GsmText.ToGsm, GsmText.FromGsm, GsmText.AllRepresentable, Accepted, Stores, BodyOf, Code, Codes, Complete, Septets.Decoded;
    var body, inside;
    r, body, inside := EncodeBody(text, room);
    if r < 0 {
      return -1, [];
    }
    ghost var codes := GsmText.ToGsm(text);
    ghost var buffer := BufferOf(body, text);
    SomeCodes(text);
    BodyComplete(buffer, |codes|);
    r, back := DecodeBody(body, behind, size);
    if text != [] {
      BodyDecodes(buffer, codes, behind);
      GsmText.TextRoundTrip(text);
    }
  }

  lemma BufferOf(body: seq<Septets.Octet>, text: seq<byte>) returns (buffer: seq<byte>)
    requires IsBody(body, text)
    ensures var codes := GsmText.ToGsm(text);
      Stores(buffer, codes) && |codes| < |buffer| && |codes| < 256 && body == BodyOf(buffer, |codes|)
  {
    hide GsmText.ToGsm, BodyOf;
    buffer :| Stores(buffer, GsmText.ToGsm(text)) && body == BodyOf(buffer, |GsmText.ToGsm(text)|);
  }
}
