/** What goes over the line in a Sahara session, byte by byte. */
module SaharaReplies {
  import opened Bytes
  import opened Sahara

  type Field = s: seq<byte> | |s| == 4 witness [0, 0, 0, 0]

  /** The head of a packet: a small command and a small length, each in four bytes. */
  function Head(command: byte, length: byte): (s: seq<byte>)
    ensures |s| == 8
  {
    [command, 0, 0, 0, length, 0, 0, 0]
  }

  lemma FieldValue(s: Field)
    ensures var a: int, b: int, c: int, d: int := s[0], s[1], s[2], s[3];
      LeWord(s) == a + 0x100 * b + 0x1_0000 * c + 0x100_0000 * d
  {
    assert s == [s[0]] + ([s[1]] + ([s[2]] + ([s[3]] + [])));
    assert LeValue(s[3..]) == s[3];
    assert s[2..][1..] == s[3..] && LeValue(s[2..]) == s[2] + 256 * LeValue(s[3..]);
    assert s[1..][1..] == s[2..] && LeValue(s[1..]) == s[1] + 256 * LeValue(s[2..]);
  }

  lemma HeadWords(command: byte, length: byte, body: seq<byte>)
    ensures var p := Head(command, length) + body;
      Word(p, 0) == command && Word(p, 4) == length && Declared(p) == length
  {
    hide LeWord;
    var p := Head(command, length) + body;
    var c: Field, l: Field := [command, 0, 0, 0], [length, 0, 0, 0];
    assert p[0..4] == c && p[4..8] == l;
    FieldValue(c);
    FieldValue(l);
  }

  /** The packets that the assertions on lengths let through. */
  lemma Sized(command: byte, length: byte, body: seq<byte>)
    ensures WellSized(Head(command, length) + body) <==>
      && (command == 1 ==> |body| == 40)
      && (command == 3 ==> |body| == 12)
      && (command == 4 ==> |body| == 8)
      && (command == 6 ==> |body| == 4)
      && (command == 8 ==> |body| == 0)
      && (command == 16 ==> |body| == 16)
      && (command == 18 ==> |body| == 24)
  {
    hide Word, Head;
    HeadWords(command, length, body);
  }

  /** A hello is answered with version 2, compatible down to 1, success, and the mode that was asked for. */
  lemma HelloReplied(versions: seq<byte>, mode: Field, reserved: seq<byte>, session: Session)
    requires IsSession(session) && |versions| == 12 && |reserved| == 24
    ensures var p := Head(1, 48) + (versions + mode + reserved);
      && Answerable(p, session) && !EndsSession(p, session)
      && Reply(p, session) == [2, 0, 0, 0, 48, 0, 0, 0, 2, 0, 0, 0, 1, 0, 0, 0, 0, 0, 0, 0] + mode + Zeros(24)
  {
    hide Word, LeBytes;
    var body := versions + mode + reserved;
    var p := Head(1, 48) + body;
    HeadWords(1, 48, body);
    assert p[20..24] == mode;
    SmallBytes(2);
    SmallBytes(48);
    SmallBytes(1);
    SmallBytes(0);
  }

  lemma SmallBytes(b: byte)
    ensures LeBytes(b, 4) == [b, 0, 0, 0]
  {
    assert LeBytes(0, 1) == [0];
    assert LeBytes(0, 2) == [0, 0];
    assert LeBytes(0, 3) == [0, 0, 0];
  }

  /** The end of an image is answered with a DONE packet exactly when the image came through. */
  lemma EndOfImageReplied(image: Field, status: Field, session: Session)
    requires IsSession(session)
    ensures var p := Head(4, 16) + (image + status);
      && Answerable(p, session) && !EndsSession(p, session)
      && Reply(p, session) == if status == [0, 0, 0, 0] then [5, 0, 0, 0, 8, 0, 0, 0] else []
  {
    hide LeBytes, LeWord;
    var p := Head(4, 16) + (image + status);
    HeadWords(4, 16, image + status);
    assert p[12..16] == status;
    FieldValue(status);
    SmallBytes(5);
    SmallBytes(8);
  }

  /** The image that a number in four bytes stands for is provided. */
  predicate IsProvided(image: Field, session: Session)
    requires IsSession(session)
  {
    image[0] < 64 && image[1..] == [0, 0, 0] && session.images[image[0]].Some?
  }

  /** A request for an image that is not provided is answered with a reset, one outside its image with nothing. */
  lemma ReadRefused(image: Field, offset: Field, len: Field, session: Session)
    requires IsSession(session)
    ensures var p := Head(3, 20) + (image + offset + len);
      && Answerable(p, session) && !EndsSession(p, session)
      && (!IsProvided(image, session) ==> Reply(p, session) == [7, 0, 0, 0, 8, 0, 0, 0])
      && (IsProvided(image, session) ==>
            var bytes := session.images[image[0]].value;
            var from, to := LeWord(offset), LeWord(offset) + LeWord(len);
            Reply(p, session) == if to <= |bytes| then bytes[from..to] else [])
  {
    hide LeBytes, LeWord;
    var p := Head(3, 20) + (image + offset + len);
    HeadWords(3, 20, image + offset + len);
    assert p[8..12] == image && p[12..16] == offset && p[16..20] == len;
    assert (LeWord(offset) + LeWord(len)) % SIZE_T == LeWord(offset) + LeWord(len);
    FieldValue(image);
    assert image[1..] == [0, 0, 0] <==> image[1] == 0 && image[2] == 0 && image[3] == 0;
    SmallBytes(7);
    SmallBytes(8);
  }

  /** So is a 64-bit request, whose image is told by the lower half of its number. */
  lemma Read64Refused(image: Field, upper: Field, range: seq<byte>, session: Session)
    requires IsSession(session) && |range| == 16 && !IsProvided(image, session)
    ensures var p := Head(18, 32) + (image + upper + range);
      Answerable(p, session) && !EndsSession(p, session) && Reply(p, session) == [7, 0, 0, 0, 8, 0, 0, 0]
  {
    hide LeBytes, LeWord;
    var p := Head(18, 32) + (image + upper + range);
    HeadWords(18, 32, image + upper + range);
    assert p[8..12] == image && p[12..16] == upper;
    LowerHalf(LeWord(image), LeWord(upper));
    FieldValue(image);
    assert image[1..] == [0, 0, 0] <==> image[1] == 0 && image[2] == 0 && image[3] == 0;
    SmallBytes(7);
    SmallBytes(8);
  }

  lemma LowerHalf(low: word, high: word)
    ensures (low + 0x1_0000_0000 * high) % 0x1_0000_0000 == low
  {
  }

  /** No other packet is answered; what a memory-debug packet (16) starts is not part of this. */
  lemma OthersUnanswered(p: Packet, session: Session)
    requires IsSession(session) && |p| >= 8 && WellSized(p)
    requires forall c: byte :: c in {1, 3, 4, 16, 18} ==> p[..4] != [c, 0, 0, 0]
    ensures Answerable(p, session) && Reply(p, session) == []
  {
    hide LeWord;
    var first: Field := p[0..4];
    FieldValue(first);
    assert p[..4] == first;
    assert first == [first[0], first[1], first[2], first[3]];
    assert Word(p, 0) == LeWord(first);
    var c: byte := first[0];
    assert c in {1, 3, 4, 16, 18} ==> p[..4] != [c, 0, 0, 0];
  }

  /** A result ends the session when it is complete, or when the programmer is the only image there is. */
  lemma DoneEnds(status: Field, session: Session)
    requires IsSession(session)
    ensures var p := Head(6, 12) + status;
      && WellSized(p)
      && (EndsSession(p, session) <==>
            status != [0, 0, 0, 0] || forall i :: 0 <= i < 64 ==> (session.images[i].Some? <==> i == 13))
  {
    hide LeWord, Provided;
    var p := Head(6, 12) + status;
    HeadWords(6, 12, status);
    assert p[8..12] == status;
    FieldValue(status);
    OnlyOne(session.images, 13);
  }

  /** A session also ends with the acknowledgement of a reset that closes a memory dump, and with no other packet. */
  lemma ResetEnds(p: Packet, session: Session)
    requires IsSession(session) && |p| >= 8 && WellSized(p)
    ensures p[..4] == [8, 0, 0, 0] ==> (EndsSession(p, session) <==> session.ramdump)
    ensures p[..4] != [8, 0, 0, 0] && p[..4] != [6, 0, 0, 0] ==> !EndsSession(p, session)
  {
    hide LeWord;
    var first: Field := p[0..4];
    FieldValue(first);
    assert p[..4] == first;
    assert first == [first[0], first[1], first[2], first[3]];
    assert Word(p, 0) == LeWord(first);
  }

  lemma {:induction false} NoneProvided(images: seq<Option<seq<byte>>>)
    ensures Provided(images) == 0 <==> forall i :: 0 <= i < |images| ==> images[i].None?
  {
    if images != [] {
      var n := |images| - 1;
      NoneProvided(images[..n]);
      assert forall i :: 0 <= i < n ==> images[..n][i] == images[i];
    }
  }

  lemma {:induction false} OnlyOne(images: seq<Option<seq<byte>>>, k: nat)
    requires k < |images|
    ensures Provided(images) == 1 && images[k].Some? <==> forall i :: 0 <= i < |images| ==> (images[i].Some? <==> i == k)
  {
    var n := |images| - 1;
    assert forall i :: 0 <= i < n ==> images[..n][i] == images[i];
    if k == n {
      NoneProvided(images[..n]);
    } else {
      OnlyOne(images[..n], k);
      if Provided(images[..n]) == 0 {
        NoneProvided(images[..n]);
      }
    }
  }
}
