/**
 * The Sahara protocol: packets reassembled from a byte stream that arrives in pieces of any size,
 * and the images a device rounds through them.
 */
module Sahara {
  import opened Bytes
  import opened Pieces
  import Seqs

  const BUFFER := 4096
  const READS := 15
  const IMAGES := 64
  const EHOSTDL := 13

  const HELLO := 1
  const HELLO_RESP := 2
  const READ_DATA := 3
  const END_OF_IMAGE := 4
  const DONE := 5
  const DONE_RESP := 6
  const RESET := 7
  const RESET_RESP := 8
  const MEM_DEBUG64 := 16
  const READ_DATA64 := 18

  type Packet = seq<byte>

  // ---- Framing ----

  function Word(s: seq<byte>, at: nat): (w: word)
    requires at + 4 <= |s|
  {
    LeWord(s[at..at + 4])
  }

  function Quad(s: seq<byte>, at: nat): (q: nat)
    requires at + 8 <= |s|
    ensures q < 0x1_0000_0000_0000_0000
  {
    Word(s, at) + 0x1_0000_0000 * Word(s, at + 4)
  }

  /** The length a packet declares for itself. */
  function Declared(s: seq<byte>): word
    requires |s| >= 8
  {
    Word(s, 4)
  }

  /** Why a session stops. */
  datatype End = Finished | Asserted | BadLength | Wrapped | NoMoreData

  datatype Session = Session(images: seq<Option<seq<byte>>>, ramdump: bool)

  ghost predicate IsSession(session: Session) {
    |session.images| == IMAGES
  }

  /** Only the device programmer is provided: a pending result is then taken as complete. */
  function Provided(images: seq<Option<seq<byte>>>): nat {
    if images == [] then 0 else Provided(images[..|images| - 1]) + (if images[|images| - 1].Some? then 1 else 0)
  }

  predicate DonePendingQuirk(session: Session)
    requires |session.images| == IMAGES
  {
    Provided(session.images) == 1 && session.images[EHOSTDL].Some?
  }

  /** The length a command must have, where one is checked. */
  function RequiredLength(cmd: word): Option<nat> {
    if cmd == HELLO then Some(48)
    else if cmd == READ_DATA then Some(20)
    else if cmd == END_OF_IMAGE then Some(16)
    else if cmd == DONE_RESP then Some(12)
    else if cmd == READ_DATA64 then Some(32)
    else if cmd == RESET_RESP then Some(8)
    else if cmd == MEM_DEBUG64 then Some(24)
    else None
  }

  predicate WellSized(p: Packet)
    requires |p| >= 8
  {
    RequiredLength(Word(p, 0)) == None || RequiredLength(Word(p, 0)) == Some(|p|)
  }

  predicate EndsSession(p: Packet, session: Session)
    requires |p| >= 8 && |session.images| == IMAGES && WellSized(p)
  {
    if Word(p, 0) == DONE_RESP then Word(p, 8) != 0 || DonePendingQuirk(session)
    else Word(p, 0) == RESET_RESP && session.ramdump
  }

  // ---- Image requests ----

  /** The check made on a request: the end is computed in 64 bits. */
  predicate RangeChecked(offset: nat, len: nat, size: nat) {
    offset <= size && (offset + len) % SIZE_T <= size
  }

  predicate InRange(offset: nat, len: nat, size: nat) {
    offset + len <= size
  }

  /** The check is exact unless the end wraps, and then it may pass a range that is outside. */
  lemma RangeCheckExact(offset: nat, len: nat, size: nat)
    requires offset < SIZE_T && len < SIZE_T && size < SIZE_T
    ensures offset + len < SIZE_T ==> (RangeChecked(offset, len, size) <==> InRange(offset, len, size))
    ensures offset + len >= SIZE_T ==>
      !InRange(offset, len, size) && (RangeChecked(offset, len, size) <==> offset <= size && offset + len - SIZE_T <= size)
  {
    if offset + len >= SIZE_T {
      assert (offset + len) % SIZE_T == offset + len - SIZE_T;
    }
  }

  datatype Request = Request(image: nat, offset: nat, len: nat)

  predicate IsRequest(p: Packet)
    requires |p| >= 8
  {
    Word(p, 0) == READ_DATA || Word(p, 0) == READ_DATA64
  }

  /** The request in a packet; the 64-bit form's image number is cut to 32 bits. */
  function RequestOf(p: Packet): Request
    requires |p| >= 8 && IsRequest(p) && WellSized(p)
  {
    if Word(p, 0) == READ_DATA then Request(Word(p, 8), Word(p, 12), Word(p, 16))
    else Request(Quad(p, 8) % 0x1_0000_0000, Quad(p, 16), Quad(p, 24))
  }

  predicate Known(r: Request, session: Session)
    requires |session.images| == IMAGES
  {
    r.image < IMAGES && session.images[r.image].Some?
  }

  /** A request whose range passes the check without lying inside the image. */
  predicate Wraps(p: Packet, session: Session)
    requires |p| >= 8 && |session.images| == IMAGES && WellSized(p)
  {
    IsRequest(p) &&
    var r := RequestOf(p);
    Known(r, session) &&
    var size := |session.images[r.image].value|;
    RangeChecked(r.offset, r.len, size) && !InRange(r.offset, r.len, size)
  }

  /** The bytes sent back for a packet. */
  function Reply(p: Packet, session: Session): seq<byte>
    requires |p| >= 8 && |session.images| == IMAGES && WellSized(p) && !Wraps(p, session)
  {
    if IsRequest(p) then
      var r := RequestOf(p);
      if !Known(r, session) then LeBytes(RESET, 4) + LeBytes(8, 4)
      else
        var image := session.images[r.image].value;
        if RangeChecked(r.offset, r.len, |image|) then image[r.offset..r.offset + r.len] else []
    else if Word(p, 0) == HELLO then
      LeBytes(HELLO_RESP, 4) + LeBytes(48, 4) + LeBytes(2, 4) + LeBytes(1, 4) + LeBytes(0, 4) + p[20..24] + Zeros(24)
    else if Word(p, 0) == END_OF_IMAGE && Word(p, 12) == 0 then LeBytes(DONE, 4) + LeBytes(8, 4)
    else []
  }

  // ---- Whole sessions ----

  /** The packets a session handles out of a whole stream, and why it stops. */
  function Handled(stream: seq<byte>, session: Session): (r: (seq<Packet>, End))
    requires IsSession(session)
  {
    if |stream| < 8 then ([], NoMoreData)
    else
      var n := Declared(stream);
      if n < 8 || n > BUFFER then ([], BadLength)
      else if |stream| < n then ([], NoMoreData)
      else if !WellSized(stream[..n]) then ([], Asserted)
      else if Wraps(stream[..n], session) then ([], Wrapped)
      else if EndsSession(stream[..n], session) then ([stream[..n]], Finished)
      else
        var rest := Handled(stream[n..], session);
        ([stream[..n]] + rest.0, rest.1)
  }

  /** The device end of the link: what successive reads find, an empty piece standing for a timeout. */
  class Transport {
    var pieces: seq<seq<byte>>

    constructor (pieces: seq<seq<byte>>)
      ensures this.pieces == pieces
    {
      this.pieces := pieces;
    }

    method Read(limit: nat) returns (data: seq<byte>)
      modifies this
      ensures data == FirstRead(old(pieces), limit) && pieces == AfterRead(old(pieces), limit)
    {
      data := FirstRead(pieces, limit);
      pieces := AfterRead(pieces, limit);
    }
  }

  ghost predicate AreAnswerable(packets: seq<Packet>, session: Session)
    requires IsSession(session)
  {
    forall i :: 0 <= i < |packets| ==> Answerable(packets[i], session)
  }

  ghost predicate Answerable(p: Packet, session: Session)
    requires IsSession(session)
  {
    |p| >= 8 && WellSized(p) && !Wraps(p, session)
  }

  function Replies(packets: seq<Packet>, session: Session): seq<byte>
    requires IsSession(session) && AreAnswerable(packets, session)
  {
    if packets == [] then []
    else Replies(packets[..|packets| - 1], session) + Reply(packets[|packets| - 1], session)
  }

  /** The front of the buffer holds no whole packet yet, or one whose length is not acceptable. */
  predicate Waiting(held: seq<byte>) {
    |held| < 8 || |held| < Declared(held)
  }

  datatype Fetched = Fetched(held: seq<byte>, pieces: seq<seq<byte>>)

  /** The buffer, and the pieces still to come, once up to `turns` reads were made to complete the front packet. */
  function Fetch(held: seq<byte>, pieces: seq<seq<byte>>, turns: nat): (f: Fetched)
    requires |held| <= BUFFER
    ensures held <= f.held && |f.held| <= BUFFER && f.held + Join(f.pieces) == held + Join(pieces)
    decreases turns
  {
    if turns == 0 || !Waiting(held) then Fetched(held, pieces)
    else
      var data := FirstRead(pieces, BUFFER - |held|);
      var f := Fetch(held + data, AfterRead(pieces, BUFFER - |held|), turns - 1);
      assert held + (data + Join(AfterRead(pieces, BUFFER - |held|))) == f.held + Join(f.pieces);
      f
  }

  /** The front packet is incomplete, although its length is acceptable. */
  predicate Stalled(held: seq<byte>) {
    |held| < 8 || (Declared(held) <= BUFFER && |held| < Declared(held))
  }

  lemma FetchedRest(held: seq<byte>, pieces: seq<seq<byte>>, f: Fetched, n: nat)
    requires f.held + Join(f.pieces) == held + Join(pieces) && 0 < n <= |f.held|
    ensures |f.held[n..] + Join(f.pieces)| < |held + Join(pieces)|
    ensures f.held[n..] + Join(f.pieces) == (held + Join(pieces))[n..]
  {
    hide Join;
  }

  /** The packets a session handles when reads deliver the given pieces, and why it stops; None stands for giving up on a packet. */
  function Served(held: seq<byte>, pieces: seq<seq<byte>>, session: Session): (r: (seq<Packet>, Option<End>))
    requires IsSession(session) && |held| <= BUFFER
    decreases |held + Join(pieces)|
  {
    var f := Fetch(held, pieces, READS);
    if Stalled(f.held) then ([], None)
    else
      var n := Declared(f.held);
      if n < 8 || n > BUFFER then ([], Some(BadLength))
      else if !WellSized(f.held[..n]) then ([], Some(Asserted))
      else if Wraps(f.held[..n], session) then ([], Some(Wrapped))
      else if EndsSession(f.held[..n], session) then ([f.held[..n]], Some(Finished))
      else
        FetchedRest(held, pieces, f, n);
        var rest := Served(f.held[n..], f.pieces, session);
        ([f.held[..n]] + rest.0, rest.1)
  }

  /**
   * Every packet is complete within its fifteen reads: when they leave the front packet incomplete,
   * the stream holds no further packet that could be handled.
   */
  ghost predicate InBudget(held: seq<byte>, pieces: seq<seq<byte>>, session: Session)
    requires IsSession(session) && |held| <= BUFFER
    decreases |held + Join(pieces)|
  {
    var f := Fetch(held, pieces, READS);
    if Stalled(f.held) then Handled(f.held + Join(f.pieces), session).0 == []
    else
      var n := Declared(f.held);
      if 8 <= n <= BUFFER && WellSized(f.held[..n]) && !Wraps(f.held[..n], session) && !EndsSession(f.held[..n], session) then
        FetchedRest(held, pieces, f, n);
        InBudget(f.held[n..], f.pieces, session)
      else true
  }

  class Receiver {
    const buf: array<byte>
    var len: nat

    ghost predicate Valid()
      reads this
    {
      buf.Length == BUFFER && len <= BUFFER
    }

    ghost function Held(): seq<byte>
      reads this, buf
      requires Valid()
    {
      buf[..len]
    }

    constructor ()
      ensures Valid() && Held() == [] && fresh(buf)
    {
      buf := new byte[BUFFER](_ => 0);
      len := 0;
    }

    /** Appends what one read delivered. */
    method Append(data: seq<byte>)
      requires Valid() && len + |data| <= BUFFER
      modifies this, buf
      ensures Valid() && Held() == old(Held()) + data
    {
      for i := 0 to |data|
        invariant len == old(len) && buf[..len + i] == old(Held()) + data[..i]
      {
        buf[len + i] := data[i];
      }
      len := len + |data|;
      assert data[..|data|] == data;
    }

    /** Reads until a packet is complete, at most 15 times. */
    method Fill(link: Transport)
      requires Valid()
      modifies this, buf, link
      ensures Valid() && Fetched(Held(), link.pieces) == Fetch(old(Held()), old(link.pieces), READS)
    {
      hide FirstRead, AfterRead, Declared, Fetch;
      var retries := READS;
      while retries > 0
        invariant Valid() && 0 <= retries <= READS
        invariant Fetch(Held(), link.pieces, retries) == Fetch(old(Held()), old(link.pieces), READS)
      {
        ghost var held, pieces := Held(), link.pieces;
        if len >= 8 && len >= Declared(buf[..len]) {
          break;
        }
        var data := link.Read(BUFFER - len);
        Append(data);
        FetchNext(held, pieces, retries);
        retries := retries - 1;
      }
      FetchDone(Held(), link.pieces, retries);
    }

    /** Removes the first `n` bytes, moving the rest to the front. */
    method Consume(n: nat)
      requires Valid() && n <= len
      modifies this, buf
      ensures Valid() && Held() == old(Held()[n..])
    {
      ghost var s := Held();
      var rest := len - n;
      for i := 0 to rest
        invariant len == |s|
        invariant forall k :: 0 <= k < i ==> buf[k] == s[n + k]
        invariant forall k :: i <= k < len ==> buf[k] == s[k]
      {
        buf[i] := buf[n + i];
      }
      len := rest;
      assert buf[..len] == s[n..];
    }
  }

  lemma FetchNext(held: seq<byte>, pieces: seq<seq<byte>>, turns: nat)
    requires |held| <= BUFFER && turns > 0 && Waiting(held)
    ensures var data := FirstRead(pieces, BUFFER - |held|);
      Fetch(held, pieces, turns) == Fetch(held + data, AfterRead(pieces, BUFFER - |held|), turns - 1)
  {
    hide FirstRead, AfterRead, Waiting;
  }

  lemma FetchWhole(held: seq<byte>, pieces: seq<seq<byte>>, turns: nat)
    requires |held| <= BUFFER && turns > 0 && Waiting(held) && pieces != [] && |pieces[0]| <= BUFFER - |held|
    ensures Fetch(held, pieces, turns) == Fetch(held + pieces[0], pieces[1..], turns - 1)
  {
    hide Waiting, Fetch;
    FetchNext(held, pieces, turns);
  }

  lemma FetchDone(held: seq<byte>, pieces: seq<seq<byte>>, turns: nat)
    requires |held| <= BUFFER && (turns == 0 || !Waiting(held))
    ensures Fetch(held, pieces, turns) == Fetched(held, pieces)
  {
  }

  /** The front packet is the same whatever follows it. */
  lemma FrontPacket(held: seq<byte>, pending: seq<byte>)
    requires |held| >= 8
    ensures Declared(held + pending) == Declared(held)
    ensures Declared(held) <= |held| ==> (held + pending)[..Declared(held)] == held[..Declared(held)]
    ensures Declared(held) <= |held| ==> (held + pending)[Declared(held)..] == held[Declared(held)..] + pending
  {
    hide LeWord;
    assert (held + pending)[4..8] == held[4..8];
  }

  /** What the packet at the front makes of a session. */
  lemma FrontDecides(stream: seq<byte>, session: Session)
    requires IsSession(session) && |stream| >= 8
    ensures var n := Declared(stream);
      && (n < 8 || n > 4096 ==> Handled(stream, session) == ([], BadLength))
      && (8 <= n <= 4096 && n <= |stream| ==>
        var p := stream[..n];
        && (!WellSized(p) ==> Handled(stream, session) == ([], Asserted))
        && (WellSized(p) && Wraps(p, session) ==> Handled(stream, session) == ([], Wrapped))
        && (Answerable(p, session) && EndsSession(p, session) ==> Handled(stream, session) == ([p], Finished))
        && (Answerable(p, session) && !EndsSession(p, session) ==>
          var rest := Handled(stream[n..], session); Handled(stream, session) == ([p] + rest.0, rest.1)))
  {
    hide WellSized, Wraps, EndsSession, Declared;
  }

  /** A stream that ends within its front packet has no packet to handle. */
  lemma NothingSkipped(held: seq<byte>, session: Session)
    requires IsSession(session) && Stalled(held)
    ensures Handled(held, session) == ([], NoMoreData)
  {
  }

  /**
   * However a stream is cut into reads, a session handles its packets from the front on: all of them
   * if and only if each is complete within its fifteen reads. Whenever it does not give up, it also
   * stops for the reason the stream gives.
   */
  lemma {:induction false} ServedIsHandled(held: seq<byte>, pieces: seq<seq<byte>>, session: Session)
    requires IsSession(session) && |held| <= BUFFER
    ensures var served, handled := Served(held, pieces, session), Handled(held + Join(pieces), session);
      && served.0 <= handled.0
      && (served.1.Some? ==> handled == (served.0, served.1.value))
      && (served.0 == handled.0 <==> InBudget(held, pieces, session))
    decreases |held + Join(pieces)|
  {
    hide WellSized, Wraps, EndsSession, Declared, Fetch, Handled;
    var f := Fetch(held, pieces, READS);
    if !Stalled(f.held) {
      var n, stream := Declared(f.held), f.held + Join(f.pieces);
      FrontPacket(f.held, Join(f.pieces));
      FrontDecides(stream, session);
      if 8 <= n <= BUFFER {
        var p := f.held[..n];
        if WellSized(p) && !Wraps(p, session) {
          AnswerableIs(p, session);
          if !EndsSession(p, session) {
            ServedIsHandled(f.held[n..], f.pieces, session);
            SameTail([p], Served(f.held[n..], f.pieces, session).0, Handled(stream[n..], session).0);
          }
        }
      }
    }
  }

  lemma SameTail(a: seq<Packet>, b: seq<Packet>, c: seq<Packet>)
    ensures a + b == a + c <==> b == c
    ensures b <= c ==> a + b <= a + c
  {
    assert (a + b)[|a|..] == b && (a + c)[|a|..] == c;
  }

  lemma RepliesNext(handled: seq<Packet>, p: Packet, session: Session)
    requires IsSession(session) && AreAnswerable(handled, session) && Answerable(p, session)
    ensures AreAnswerable(handled + [p], session)
    ensures Replies(handled + [p], session) == Replies(handled, session) + Reply(p, session)
  {
    hide Reply, WellSized, Wraps;
    assert (handled + [p])[..|handled|] == handled;
  }

  /** `handled` packets into a run, `held` and `pieces` are what remains of it. */
  ghost predicate Underway(all: (seq<Packet>, Option<End>), handled: seq<Packet>, held: seq<byte>, pieces: seq<seq<byte>>, session: Session)
    requires IsSession(session) && |held| <= BUFFER
  {
    all.0 == handled + Served(held, pieces, session).0 && all.1 == Served(held, pieces, session).1
  }

  lemma UnderwayStart(pieces: seq<seq<byte>>, session: Session)
    requires IsSession(session)
    ensures Underway(Served([], pieces, session), [], [], pieces, session)
  {
    hide Served;
    assert [] + Served([], pieces, session).0 == Served([], pieces, session).0;
  }

  /** The next packet of a run, by what its reads fetch. */
  lemma UnderwayNext(all: (seq<Packet>, Option<End>), handled: seq<Packet>, held: seq<byte>, pieces: seq<seq<byte>>, session: Session)
    requires IsSession(session) && |held| <= BUFFER && Underway(all, handled, held, pieces, session)
    ensures var f := Fetch(held, pieces, READS);
      if Stalled(f.held) then all == (handled, None)
      else
        var n := Declared(f.held);
        if n < 8 || n > BUFFER then all == (handled, Some(BadLength))
        else if !WellSized(f.held[..n]) then all == (handled, Some(Asserted))
        else if Wraps(f.held[..n], session) then all == (handled, Some(Wrapped))
        else if EndsSession(f.held[..n], session) then all == (handled + [f.held[..n]], Some(Finished))
        else Underway(all, handled + [f.held[..n]], f.held[n..], f.pieces, session)
  {
    hide WellSized, Wraps, EndsSession, Declared, Fetch;
    assert handled + [] == handled;
  }

  /**
   * Runs a session. The packets handled and the reason to stop are those of the whole stream if and
   * only if each packet is complete within its fifteen reads; otherwise the session gives up behind
   * those in front of the first that is not.
   */
  method Run(link: Transport, session: Session)
      returns (handled: seq<Packet>, end: Option<End>, sent: seq<byte>)
    requires IsSession(session)
    modifies link
    ensures AreAnswerable(handled, session) && sent == Replies(handled, session)
    ensures (handled, end) == Served([], old(link.pieces), session)
    ensures var all := Handled(Join(old(link.pieces)), session);
      && handled <= all.0
      && (end.Some? ==> all == (handled, end.value))
      && (handled == all.0 <==> InBudget([], old(link.pieces), session))
  {
    hide Underway, Served, Handled, InBudget, WellSized, Wraps, EndsSession, Declared, Reply, Replies, Answerable, AreAnswerable, Fetch, Join;
    var receiver := new Receiver();
    ghost var pieces, all := link.pieces, Served([], link.pieces, session);
    handled, end, sent := [], None, [];
    UnderwayStart(pieces, session);
    ServedIsHandled([], pieces, session);
    assert [] + Join(pieces) == Join(pieces);
    NoReplies(session);
    while true
      invariant receiver.Valid() && fresh(receiver) && fresh(receiver.buf)
      invariant AreAnswerable(handled, session) && sent == Replies(handled, session)
      invariant Underway(all, handled, receiver.Held(), link.pieces, session)
      decreases |receiver.Held() + Join(link.pieces)|
    {
      ghost var before := receiver.Held() + Join(link.pieces);
      UnderwayNext(all, handled, receiver.Held(), link.pieces, session);
      receiver.Fill(link);
      ghost var held := receiver.Held();
      if receiver.len < 8 {
        break;
      }
      var n := Declared(receiver.buf[..receiver.len]);
      if n < 8 || n > BUFFER {
        end := Some(BadLength);
        break;
      }
      if receiver.len < n {
        break;
      }
      var packet := receiver.buf[..n];
      assert packet == held[..n];
      if !WellSized(packet) {
        end := Some(Asserted);
        break;
      }
      if Wraps(packet, session) {
        end := Some(Wrapped);
        break;
      }
      AnswerableIs(packet, session);
      RepliesNext(handled, packet, session);
      sent := sent + Reply(packet, session);
      handled := handled + [packet];
      if EndsSession(packet, session) {
        end := Some(Finished);
        break;
      }
      receiver.Consume(n);
      assert receiver.Held() + Join(link.pieces) == before[n..];
    }
  }

  lemma NoReplies(session: Session)
    requires IsSession(session)
    ensures AreAnswerable([], session) && Replies([], session) == []
  {
  }

  lemma AnswerableIs(p: Packet, session: Session)
    requires IsSession(session) && |p| >= 8 && WellSized(p) && !Wraps(p, session)
    ensures Answerable(p, session)
  {
  }

  // ---- Reading a whole image ----

  function ReadPacket(r: Request): Packet
  {
    LeBytes(READ_DATA, 4) + LeBytes(20, 4) + LeBytes(r.image, 4) + LeBytes(r.offset, 4) + LeBytes(r.len, 4)
  }

  /** The requests ask for one piece of an image after the other, beginning at `from`. */
  ghost predicate Tiles(requests: seq<Request>, image: nat, from: nat, size: nat)
  {
    if requests == [] then from == size
    else
      && requests[0].image == image && requests[0].offset == from && from + requests[0].len <= size
      && Tiles(requests[1..], image, from + requests[0].len, size)
  }

  function ReadPackets(requests: seq<Request>): seq<Packet> {
    if requests == [] then [] else [ReadPacket(requests[0])] + ReadPackets(requests[1..])
  }

  lemma ReadPacketFields(r: Request)
    requires r.image < 0x1_0000_0000 && r.offset < 0x1_0000_0000 && r.len < 0x1_0000_0000
    ensures var p := ReadPacket(r);
      |p| == 20 && IsRequest(p) && WellSized(p) && Declared(p) == 20 && RequestOf(p) == r
  {
    hide LeBytes, LeWord;
    LeWordRoundTrip(READ_DATA);
    LeWordRoundTrip(20);
    LeWordRoundTrip(r.image);
    LeWordRoundTrip(r.offset);
    LeWordRoundTrip(r.len);
    var a, b, c, d, e := LeBytes(READ_DATA, 4), LeBytes(20, 4), LeBytes(r.image, 4), LeBytes(r.offset, 4), LeBytes(r.len, 4);
    var p := ReadPacket(r);
    assert p[0..4] == a && p[4..8] == b && p[8..12] == c && p[12..16] == d && p[16..20] == e;
  }

  lemma ReadReplied(r: Request, session: Session)
    requires IsSession(session) && r.image < IMAGES && session.images[r.image].Some?
    requires r.offset + r.len <= |session.images[r.image].value| < 0x1_0000_0000
    ensures Answerable(ReadPacket(r), session) && !EndsSession(ReadPacket(r), session)
    ensures Reply(ReadPacket(r), session) == session.images[r.image].value[r.offset..r.offset + r.len]
  {
    hide ReadPacket;
    ReadPacketFields(r);
    RangeCheckExact(r.offset, r.len, |session.images[r.image].value|);
  }

  lemma RepliesFirst(p: Packet, rest: seq<Packet>, session: Session)
    requires IsSession(session) && Answerable(p, session) && AreAnswerable(rest, session)
    ensures AreAnswerable([p] + rest, session)
    ensures Replies([p] + rest, session) == Reply(p, session) + Replies(rest, session)
    decreases |rest|
  {
    hide Reply, WellSized, Wraps;
    if rest == [] {
      assert [p] + rest == [p] && [p][..0] == [];
    } else {
      var n := |rest| - 1;
      RepliesFirst(p, rest[..n], session);
      assert ([p] + rest)[..n + 1] == [p] + rest[..n];
    }
  }

  /** Requests that tile an image bring the device the rest of it. */
  lemma {:induction false} TiledImage(requests: seq<Request>, image: nat, from: nat, session: Session)
    requires IsSession(session) && image < IMAGES && session.images[image].Some?
    requires |session.images[image].value| < 0x1_0000_0000 && from <= |session.images[image].value|
    requires Tiles(requests, image, from, |session.images[image].value|)
    ensures AreAnswerable(ReadPackets(requests), session)
    ensures Replies(ReadPackets(requests), session) == session.images[image].value[from..]
  {
    hide Reply, Answerable, ReadPacket;
    if requests == [] {
    } else {
      var r, bytes := requests[0], session.images[image].value;
      ReadReplied(r, session);
      TiledImage(requests[1..], image, from + r.len, session);
      RepliesFirst(ReadPacket(r), ReadPackets(requests[1..]), session);
      assert bytes[from..from + r.len] + bytes[from + r.len..] == bytes[from..];
    }
  }

  function Joined(packets: seq<Packet>): seq<byte> {
    if packets == [] then [] else packets[0] + Joined(packets[1..])
  }

  lemma {:induction false} TiledSession(requests: seq<Request>, image: nat, from: nat, session: Session)
    requires IsSession(session) && image < IMAGES && session.images[image].Some?
    requires |session.images[image].value| < 0x1_0000_0000 && from <= |session.images[image].value|
    requires Tiles(requests, image, from, |session.images[image].value|)
    ensures Handled(Joined(ReadPackets(requests)), session) == (ReadPackets(requests), NoMoreData)
  {
    hide Answerable, ReadPacket, EndsSession, WellSized, Wraps;
    if requests != [] {
      var r := requests[0];
      ReadReplied(r, session);
      ReadPacketFields(r);
      AnswerableMeans(ReadPacket(r), session);
      TiledSession(requests[1..], image, from + r.len, session);
      var rest := Joined(ReadPackets(requests[1..]));
      FrontPacket(ReadPacket(r), rest);
    }
  }

  lemma AnswerableMeans(p: Packet, session: Session)
    requires IsSession(session)
    ensures Answerable(p, session) <==> |p| >= 8 && WellSized(p) && !Wraps(p, session)
  {
  }

  lemma {:induction false} RepliesJoin(a: seq<Packet>, b: seq<Packet>, session: Session)
    requires IsSession(session) && AreAnswerable(a + b, session)
    ensures AreAnswerable(a, session) && Replies(a, session) <= Replies(a + b, session)
    decreases |b|
  {
    hide Reply, Answerable;
    assert forall i :: 0 <= i < |a| ==> (a + b)[i] == a[i];
    if b == [] {
      assert a + b == a;
    } else {
      assert (a + b)[..|a + b| - 1] == a + b[..|b| - 1];
      RepliesJoin(a, b[..|b| - 1], session);
    }
  }

  /**
   * A device whose read requests tile an image receives a beginning of that image, and all of it when
   * each request is complete within its fifteen reads.
   */
  method ServeImage(link: Transport, requests: seq<Request>, image: nat, session: Session)
      returns (handled: seq<Packet>, end: Option<End>, sent: seq<byte>)
    requires IsSession(session) && image < IMAGES && session.images[image].Some?
    requires |session.images[image].value| < 0x1_0000_0000
    requires Tiles(requests, image, 0, |session.images[image].value|)
    requires Join(link.pieces) == Joined(ReadPackets(requests))
    modifies link
    ensures sent <= session.images[image].value
    ensures handled == ReadPackets(requests) <==> InBudget([], old(link.pieces), session)
    ensures InBudget([], old(link.pieces), session) ==> sent == session.images[image].value
  {
    hide Handled, Replies, Tiles, InBudget, AreAnswerable, Served, Waiting;
    var packets := ReadPackets(requests);
    TiledSession(requests, image, 0, session);
    TiledImage(requests, image, 0, session);
    handled, end, sent := Run(link, session);
    assert handled + packets[|handled|..] == packets;
    RepliesJoin(handled, packets[|handled|..], session);
    assert session.images[image].value[0..] == session.images[image].value;
  }

  // ---- Any session ----

  predicate AsksFor(p: Packet, image: nat)
    requires |p| >= 8 && WellSized(p)
  {
    IsRequest(p) && RequestOf(p).image == image
  }

  /** The requests for one image among the packets of a session. */
  ghost function RequestsFor(packets: seq<Packet>, image: nat, session: Session): seq<Request>
    requires IsSession(session) && AreAnswerable(packets, session)
  {
    if packets == [] then []
    else (if AsksFor(packets[0], image) then [RequestOf(packets[0])] else []) + RequestsFor(packets[1..], image, session)
  }

  /** The bytes sent in reply to those requests. */
  ghost function RepliesTo(packets: seq<Packet>, image: nat, session: Session): seq<byte>
    requires IsSession(session) && AreAnswerable(packets, session)
  {
    if packets == [] then []
    else (if AsksFor(packets[0], image) then Reply(packets[0], session) else []) + RepliesTo(packets[1..], image, session)
  }

  /** Whatever other packets stand between them, replies to requests that tile an image are the rest of it. */
  lemma {:induction false} TiledReplies(packets: seq<Packet>, image: nat, from: nat, session: Session)
    requires IsSession(session) && AreAnswerable(packets, session)
    requires image < IMAGES && session.images[image].Some?
    requires from <= |session.images[image].value| < SIZE_T
    requires Tiles(RequestsFor(packets, image, session), image, from, |session.images[image].value|)
    ensures RepliesTo(packets, image, session) == session.images[image].value[from..]
  {
    hide Reply, WellSized, Wraps, RequestOf;
    if packets != [] {
      var p, bytes, rest := packets[0], session.images[image].value, RequestsFor(packets[1..], image, session);
      if AsksFor(p, image) {
        var r := RequestOf(p);
        assert ([r] + rest)[1..] == rest;
        RequestReplied(p, image, session);
        TiledReplies(packets[1..], image, from + r.len, session);
        assert bytes[from..from + r.len] + bytes[from + r.len..] == bytes[from..];
      } else {
        assert [] + rest == rest;
        TiledReplies(packets[1..], image, from, session);
      }
    }
  }

  lemma RequestReplied(p: Packet, image: nat, session: Session)
    requires IsSession(session) && Answerable(p, session) && AsksFor(p, image)
    requires image < IMAGES && session.images[image].Some?
    requires var r := RequestOf(p); r.offset + r.len <= |session.images[image].value| < SIZE_T
    ensures var r := RequestOf(p); Reply(p, session) == session.images[image].value[r.offset..r.offset + r.len]
  {
    hide RequestOf, WellSized;
    var r := RequestOf(p);
    RangeCheckExact(r.offset, r.len, |session.images[image].value|);
  }

  lemma {:induction false} RepliesToJoin(a: seq<Packet>, b: seq<Packet>, image: nat, session: Session)
    requires IsSession(session) && AreAnswerable(a + b, session)
    ensures AreAnswerable(a, session) && RepliesTo(a, image, session) <= RepliesTo(a + b, image, session)
  {
    hide Reply, WellSized, Wraps, AsksFor;
    assert forall i :: 0 <= i < |a| ==> (a + b)[i] == a[i];
    if a != [] {
      assert (a + b)[1..] == a[1..] + b;
      RepliesToJoin(a[1..], b, image, session);
    }
  }

  lemma {:induction false} HandledAnswerable(stream: seq<byte>, session: Session)
    requires IsSession(session)
    ensures AreAnswerable(Handled(stream, session).0, session)
    decreases |stream|
  {
    hide WellSized, Wraps, EndsSession;
    if |stream| >= 8 && 8 <= Declared(stream) <= BUFFER && Declared(stream) <= |stream| {
      HandledAnswerable(stream[Declared(stream)..], session);
    }
  }

  /**
   * Runs a session of any packets. When the requests for an image among them tile it, the replies to
   * those requests are a beginning of the image, and all of it when each packet is complete within its
   * fifteen reads.
   */
  method ServeSession(link: Transport, image: nat, session: Session)
      returns (handled: seq<Packet>, end: Option<End>, sent: seq<byte>)
    requires IsSession(session) && image < IMAGES && session.images[image].Some?
    requires |session.images[image].value| < SIZE_T
    modifies link
    ensures AreAnswerable(handled, session) && sent == Replies(handled, session)
    ensures AreAnswerable(Handled(Join(old(link.pieces)), session).0, session)
    ensures var all, bytes := Handled(Join(old(link.pieces)), session).0, session.images[image].value;
      && handled <= all && (handled == all <==> InBudget([], old(link.pieces), session))
      && (Tiles(RequestsFor(all, image, session), image, 0, |bytes|) ==>
        && RepliesTo(handled, image, session) <= bytes
        && (InBudget([], old(link.pieces), session) ==> RepliesTo(handled, image, session) == bytes))
  {
    hide Handled, Replies, Tiles, InBudget, AreAnswerable, Served, RequestsFor, RepliesTo;
    ghost var stream, bytes := Join(link.pieces), session.images[image].value;
    ghost var all := Handled(stream, session).0;
    HandledAnswerable(stream, session);
    handled, end, sent := Run(link, session);
    assert handled + all[|handled|..] == all;
    RepliesToJoin(handled, all[|handled|..], image, session);
    if Tiles(RequestsFor(all, image, session), image, 0, |bytes|) {
      TiledReplies(all, image, 0, session);
      assert bytes[0..] == bytes;
    }
  }

  // ---- Which reads are within the budget ----

  /** One packet a read, as on USB, is always within the budget. */
  lemma {:induction false} OnePacketPerRead(packets: seq<Packet>, session: Session)
    requires IsSession(session)
    requires forall i :: 0 <= i < |packets| ==> 8 <= |packets[i]| <= BUFFER && Declared(packets[i]) == |packets[i]|
    ensures InBudget([], packets, session)
    decreases |packets|
  {
    hide Handled, Declared, WellSized, Wraps, EndsSession;
    if packets == [] {
      FetchNothing([], READS);
      NothingSkipped([], session);
    } else {
      var p := packets[0];
      FetchNext([], packets, READS);
      assert [] + p == p;
      FetchDone(p, packets[1..], READS - 1);
      assert p[..|p|] == p && p[|p|..] == [];
      OnePacketPerRead(packets[1..], session);
    }
  }

  lemma {:induction false} FetchNothing(held: seq<byte>, turns: nat)
    requires |held| <= BUFFER
    ensures Fetch(held, [], turns) == Fetched(held, [])
    decreases turns
  {
    if turns > 0 {
      FetchNothing(held, turns - 1);
      assert held + [] == held;
    }
  }

  /** A packet alone on the line, the last of whose pieces is not empty, is handled exactly when it has at most fifteen. */
  lemma AloneInTime(p: Packet, pieces: seq<seq<byte>>, session: Session)
    requires IsSession(session) && Answerable(p, session) && |p| <= BUFFER && Declared(p) == |p|
    requires Join(pieces) == p && pieces != [] && pieces[|pieces| - 1] != []
    ensures Served([], pieces, session).0 == (if |pieces| <= 15 then [p] else [])
    ensures InBudget([], pieces, session) <==> |pieces| <= 15
  {
    hide InBudget, Served, Handled, Declared, Fetch, WellSized, Wraps, EndsSession;
    assert [] + Join(pieces) == p && p[..|p|] == p && p[|p|..] == [];
    FrontDecides(p, session);
    NothingSkipped([], session);
    ServedIsHandled([], pieces, session);
    FetchAlone([], pieces, p, READS);
    ServedAlone(p, pieces, session);
  }

  lemma ServedAlone(p: Packet, pieces: seq<seq<byte>>, session: Session)
    requires IsSession(session) && Answerable(p, session) && |p| <= BUFFER && Declared(p) == |p|
    requires if |pieces| <= READS then Fetch([], pieces, READS) == Fetched(p, []) else Stalled(Fetch([], pieces, READS).held)
    ensures Served([], pieces, session).0 == if |pieces| <= READS then [p] else []
  {
    hide Declared, Fetch, WellSized, Wraps, EndsSession;
    assert p[..|p|] == p && p[|p|..] == [];
    if |pieces| <= READS {
      FetchNothing([], READS);
      assert Served([], [], session).0 == [];
    }
  }

  lemma {:induction false} FetchAlone(held: seq<byte>, pieces: seq<seq<byte>>, p: Packet, turns: nat)
    requires 8 <= |p| <= BUFFER && Declared(p) == |p| && held + Join(pieces) == p
    requires pieces != [] && pieces[|pieces| - 1] != []
    ensures |held| <= BUFFER
    ensures if |pieces| <= turns then Fetch(held, pieces, turns) == Fetched(p, []) else Stalled(Fetch(held, pieces, turns).held)
    decreases turns
  {
    hide Declared, Join, Fetch, Waiting, Stalled;
    PieceWithin(held, pieces, p);
    if turns > 0 {
      FetchWhole(held, pieces, turns);
      var now := held + pieces[0];
      if |pieces| == 1 {
        WholeNotWaiting(p);
        FetchDone(p, [], turns - 1);
      } else {
        FetchAlone(now, pieces[1..], p, turns - 1);
      }
    } else {
      FetchDone(held, pieces, 0);
    }
  }

  lemma WholeNotWaiting(p: Packet)
    requires |p| >= 8 && Declared(p) == |p|
    ensures !Waiting(p)
  {
  }

  lemma PieceWithin(held: seq<byte>, pieces: seq<seq<byte>>, p: Packet)
    requires 8 <= |p| <= BUFFER && Declared(p) == |p| && held + Join(pieces) == p
    requires pieces != [] && pieces[|pieces| - 1] != []
    ensures |held| < |p| && Waiting(held) && Stalled(held) && |pieces[0]| <= BUFFER - |held|
    ensures held + pieces[0] + Join(pieces[1..]) == p
    ensures if |pieces| == 1 then held + pieces[0] == p && pieces[1..] == [] else pieces[1..][|pieces| - 2] != []
  {
    LastPiece(pieces);
    if |held| >= 8 {
      FrontPacket(held, Join(pieces));
    }
  }

  lemma {:induction false} LastPiece(pieces: seq<seq<byte>>)
    requires pieces != [] && pieces[|pieces| - 1] != []
    ensures |Join(pieces)| > 0
  {
    if |pieces| > 1 {
      LastPiece(pieces[1..]);
    }
  }

  /** Any fourteen whole pieces in a row are enough to fill the buffer. */
  ghost predicate Brisk(pieces: seq<seq<byte>>) {
    forall i: nat :: 1 <= i && i + (READS - 1) <= |pieces| ==> Fills(pieces, i)
  }

  ghost predicate Fills(pieces: seq<seq<byte>>, i: nat)
    requires i + (READS - 1) <= |pieces|
  {
    |Join(pieces[i..i + (READS - 1)])| >= BUFFER
  }

  /** A line that delivers enough in any fourteen reads is always within the budget. */
  lemma {:induction false} BriskInBudget(held: seq<byte>, pieces: seq<seq<byte>>, session: Session)
    requires IsSession(session) && |held| <= BUFFER && Brisk(pieces)
    ensures InBudget(held, pieces, session)
    decreases |held + Join(pieces)|
  {
    hide Brisk, Handled, Declared, WellSized, Wraps, EndsSession, Fetch;
    var f := Fetch(held, pieces, READS);
    FetchBrisk(held, pieces, READS);
    if Stalled(f.held) {
      StalledBrisk(held, pieces, session);
    } else if 8 <= Declared(f.held) <= BUFFER {
      var n := Declared(f.held);
      assert f.held[n..] + Join(f.pieces) == (held + Join(pieces))[n..];
      BriskInBudget(f.held[n..], f.pieces, session);
    }
  }

  lemma StalledBrisk(held: seq<byte>, pieces: seq<seq<byte>>, session: Session)
    requires IsSession(session) && |held| <= BUFFER && Brisk(pieces) && Stalled(Fetch(held, pieces, READS).held)
    ensures var f := Fetch(held, pieces, READS); Handled(f.held + Join(f.pieces), session).0 == []
  {
    hide Handled, Declared, Fetch, Join;
    var f := Fetch(held, pieces, READS);
    FetchSlow(held, pieces, READS);
    if |pieces| >= READS {
      JoinFrom(pieces[..READS]);
      assert pieces[..READS][1..] == pieces[1..1 + (READS - 1)];
      assert Fills(pieces, 1);
      StalledShort(f.held);
    } else {
      NoPieces();
      assert f.held + [] == f.held;
      NothingSkipped(f.held, session);
    }
  }

  lemma StalledShort(held: seq<byte>)
    requires Stalled(held)
    ensures |held| < BUFFER
  {
  }

  lemma NoPieces()
    ensures Join<byte>([]) == []
  {
  }

  lemma JoinFrom(pieces: seq<seq<byte>>)
    requires pieces != []
    ensures |Join(pieces)| >= |Join(pieces[1..])|
  {
  }

  /** Reads that leave the front packet incomplete took their pieces whole. */
  lemma {:induction false} FetchSlow(held: seq<byte>, pieces: seq<seq<byte>>, turns: nat)
    requires |held| <= BUFFER && Stalled(Fetch(held, pieces, turns).held)
    ensures var f, n := Fetch(held, pieces, turns), if turns < |pieces| then turns else |pieces|;
      f.pieces == pieces[n..] && f.held == held + Join(pieces[..n])
    decreases turns
  {
    hide Declared, Join, Fetch, Waiting, Stalled;
    StalledWaits(held, Fetch(held, pieces, turns).held);
    NoPieces();
    if turns == 0 {
      FetchDone(held, pieces, 0);
      assert pieces[..0] == [] && held + [] == held;
    } else if pieces == [] {
      FetchNothing(held, turns);
      assert pieces[..0] == [] && held + [] == held;
    } else {
      FrontFits(held, pieces, turns);
      FetchWhole(held, pieces, turns);
      FetchSlow(held + pieces[0], pieces[1..], turns - 1);
      JoinFirst(held, pieces, if turns < |pieces| then turns else |pieces|);
    }
  }

  lemma FrontFits(held: seq<byte>, pieces: seq<seq<byte>>, turns: nat)
    requires |held| <= BUFFER && Waiting(held) && pieces != [] && turns > 0 && Stalled(Fetch(held, pieces, turns).held)
    ensures |pieces[0]| <= BUFFER - |held|
  {
    hide Declared, Fetch, Waiting, Stalled;
    FetchNext(held, pieces, turns);
    if |pieces[0]| > BUFFER - |held| {
      FullNotStalled(held + FirstRead(pieces, BUFFER - |held|), Fetch(held, pieces, turns).held);
    }
  }

  lemma JoinFirst(held: seq<byte>, pieces: seq<seq<byte>>, n: nat)
    requires 0 < n <= |pieces|
    ensures held + Join(pieces[..n]) == held + pieces[0] + Join(pieces[1..][..n - 1])
    ensures pieces[1..][n - 1..] == pieces[n..]
  {
    assert pieces[..n][1..] == pieces[1..][..n - 1];
  }

  /** A packet that is incomplete in the end was so all the time. */
  lemma StalledWaits(held: seq<byte>, later: seq<byte>)
    requires held <= later && Stalled(later)
    ensures Waiting(held)
  {
    if |held| >= 8 {
      FrontPacket(held, later[|held|..]);
      assert held + later[|held|..] == later;
    }
  }

  lemma FullNotStalled(held: seq<byte>, later: seq<byte>)
    requires held <= later && |held| == BUFFER
    ensures !Stalled(later)
  {
  }

  lemma {:induction false} FetchBrisk(held: seq<byte>, pieces: seq<seq<byte>>, turns: nat)
    requires |held| <= BUFFER && Brisk(pieces)
    ensures Brisk(Fetch(held, pieces, turns).pieces)
    decreases turns
  {
    hide Brisk, Declared, FirstRead, AfterRead;
    if turns > 0 && Waiting(held) {
      FetchNext(held, pieces, turns);
      AfterBrisk(pieces, BUFFER - |held|);
      FetchBrisk(held + FirstRead(pieces, BUFFER - |held|), AfterRead(pieces, BUFFER - |held|), turns - 1);
    }
  }

  lemma AfterBrisk(pieces: seq<seq<byte>>, room: nat)
    requires Brisk(pieces)
    ensures Brisk(AfterRead(pieces, room))
  {
    hide Join, Fills;
    var rest := AfterRead(pieces, room);
    forall i: nat | 1 <= i && i + (READS - 1) <= |rest|
      ensures Fills(rest, i)
    {
      var at := SamePieces(pieces, room, i);
      assert Fills(pieces, at);
      SameFills(pieces, at, rest, i);
    }
  }

  /** Pieces behind the first stay what they are. */
  lemma SamePieces(pieces: seq<seq<byte>>, room: nat, i: nat) returns (at: nat)
    requires 1 <= i && i + (READS - 1) <= |AfterRead(pieces, room)|
    ensures at >= i && at + (READS - 1) <= |pieces|
    ensures pieces[at..at + (READS - 1)] == AfterRead(pieces, room)[i..i + (READS - 1)]
  {
    hide Join;
    var n := |pieces|;
    assert pieces[1..] == pieces[1..n];
    if |pieces[0]| <= room {
      at := i + 1;
      assert AfterRead(pieces, room) == pieces[1..n];
      Seqs.SliceOfSlice(pieces, 1, n, i, i + (READS - 1));
    } else {
      at := i;
      Seqs.SliceOfRight([pieces[0][room..]], pieces[1..], i, i + (READS - 1));
      Seqs.SliceOfSlice(pieces, 1, n, i - 1, i - 1 + (READS - 1));
    }
  }

  lemma SameFills(a: seq<seq<byte>>, i: nat, b: seq<seq<byte>>, j: nat)
    requires i + (READS - 1) <= |a| && j + (READS - 1) <= |b| && Fills(a, i)
    requires a[i..i + (READS - 1)] == b[j..j + (READS - 1)]
    ensures Fills(b, j)
  {
    hide Join;
  }

  function Singles(s: seq<byte>): (pieces: seq<seq<byte>>)
    ensures |pieces| == |s|
  {
    if s == [] then [] else [[s[0]]] + Singles(s[1..])
  }

  lemma {:induction false} SinglesJoin(s: seq<byte>)
    ensures Join(Singles(s)) == s && NoEmptyPiece(Singles(s))
  {
    if s != [] {
      SinglesJoin(s[1..]);
      assert s == [s[0]] + s[1..];
    }
  }

  /** A request that arrives byte by byte is given up, although the stream holds it whole. */
  lemma ByteByByte(r: Request, session: Session)
    requires IsSession(session) && r.image < IMAGES && session.images[r.image].Some?
    requires r.offset + r.len <= |session.images[r.image].value| < 0x1_0000_0000
    ensures Handled(ReadPacket(r), session) == ([ReadPacket(r)], NoMoreData)
    ensures Served([], Singles(ReadPacket(r)), session) == ([], None)
  {
    hide Served, Handled, Answerable, WellSized, Wraps, EndsSession, Declared, RequestOf, IsRequest, ReadPacket, Singles;
    var p := ReadPacket(r);
    ReadReplied(r, session);
    ReadPacketFields(r);
    SinglesJoin(p);
    LastSingle(p);
    HandledAlone(p, session);
    AloneInTime(p, Singles(p), session);
    ServedIsHandled([], Singles(p), session);
    assert [] + Join(Singles(p)) == p;
  }

  lemma LastSingle(s: seq<byte>)
    requires s != []
    ensures Singles(s) != [] && Singles(s)[|s| - 1] != []
  {
    hide Singles;
    SinglesJoin(s);
  }

  lemma HandledAlone(p: Packet, session: Session)
    requires IsSession(session) && Answerable(p, session) && !EndsSession(p, session) && |p| <= BUFFER && Declared(p) == |p|
    ensures Handled(p, session) == ([p], NoMoreData)
  {
    hide Handled, Answerable, WellSized, Wraps, EndsSession, Declared;
    AnswerableMeans(p, session);
    FrontDecides(p, session);
    assert p[..|p|] == p && p[|p|..] == [] && [p] + [] == [p];
    NothingSkipped([], session);
  }
}
