/**
 * HDLC framing of DIAG messages: check sequence, byte stuffing, the flag that ends
 * a frame, and the reader that collects a frame from arbitrarily split port reads.
 */
module Hdlc {
  import opened Crc16
  import opened Bytes
  import opened Pieces

  const HDLC_FLAG: bv8 := 0x7E
  const HDLC_ESCAPE: bv8 := 0x7D
  const HDLC_XOR_MASK: bv8 := 0x20
  const MAX_FRAME := 16384

  predicate NeedsEscape(b: bv8) { b == HDLC_FLAG || b == HDLC_ESCAPE }

  function StuffByte(b: bv8): seq<bv8> {
    if NeedsEscape(b) then [HDLC_ESCAPE, b ^ HDLC_XOR_MASK] else [b]
  }

  function Stuff(s: seq<bv8>): seq<bv8> {
    if s == [] then [] else Stuff(s[..|s| - 1]) + StuffByte(s[|s| - 1])
  }

  /** What goes on the wire for a message. */
  function Frame(m: seq<bv8>): seq<bv8> {
    Stuff(m + Fcs(m)) + [HDLC_FLAG]
  }

  /** The receiver's view: flags are skipped, an escape unmasks the byte after it. */
  function Unstuff(frame: seq<bv8>): Option<seq<bv8>> {
    if frame == [] then Some([])
    else if frame[0] == HDLC_FLAG then Unstuff(frame[1..])
    else if frame[0] == HDLC_ESCAPE then
      if |frame| == 1 then None else Prepend([frame[1] ^ HDLC_XOR_MASK], Unstuff(frame[2..]))
    else Prepend([frame[0]], Unstuff(frame[1..]))
  }

  function Prepend(a: seq<bv8>, r: Option<seq<bv8>>): Option<seq<bv8>> {
    match r
    case None => None
    case Some(s) => Some(a + s)
  }

  /** The payload of a frame, if it passes the check. */
  function Payload(frame: seq<bv8>): Option<seq<bv8>> {
    match Unstuff(frame)
    case None => None
    case Some(s) => if |s| >= 2 && Crc(INITIAL_FCS, s) == GOOD_FCS then Some(s[..|s| - 2]) else None
  }

  /** What goes on the wire for each byte of a message and its check sequence. */
  lemma Stuffing(b: bv8)
    ensures StuffByte(0x7E) == [0x7D, 0x5E] && StuffByte(0x7D) == [0x7D, 0x5D]
    ensures b != 0x7E && b != 0x7D ==> StuffByte(b) == [b]
  {
  }

  lemma FrameEnds(m: seq<bv8>)
    ensures |Frame(m)| >= 1 && Frame(m)[|Frame(m)| - 1] == 0x7E && Frame(m)[..|Frame(m)| - 1] == Stuff(m + Fcs(m))
  {
    hide Stuff, Fcs;
  }

  // ------------------------------------------------------------------
  // The codec
  // ------------------------------------------------------------------

  lemma {:induction false} StuffConcat(a: seq<bv8>, b: seq<bv8>)
    ensures Stuff(a + b) == Stuff(a) + Stuff(b)
  {
    hide StuffByte;
    if b == [] {
      assert a + b == a;
    } else {
      var k := |b| - 1;
      StuffConcat(a, b[..k]);
      assert (a + b)[..|a + b| - 1] == a + b[..k];
    }
  }

  lemma EmptyStuff()
    ensures Stuff([]) == []
  {
  }

  /** One more byte stuffed, and what is still to come. */
  lemma StuffNext(s: seq<bv8>, i: nat)
    requires i < |s|
    ensures Stuff(s[..i + 1]) == Stuff(s[..i]) + StuffByte(s[i])
    ensures |Stuff(s[..i + 1])| <= |Stuff(s)|
  {
    hide StuffByte;
    assert s[..i + 1][..i] == s[..i];
    assert s == s[..i + 1] + s[i + 1..];
    StuffConcat(s[..i + 1], s[i + 1..]);
  }

  method AppendFcs(cmd: seq<bv8>) returns (data: seq<bv8>)
    ensures data == cmd + Fcs(cmd)
  {
    var crc := HdlcCrc16(INITIAL_FCS, cmd);
    crc := crc ^ 0xFFFF;
    data := cmd + [(crc & 0xFF) as bv8, ((crc >> 8) & 0xFF) as bv8];
  }

  method HdlcEncode(cmd: seq<bv8>, out: array<bv8>, outSize: nat) returns (n: int)
    requires outSize <= out.Length
    modifies out
    ensures n == if |cmd| + 2 <= 16384 && |Frame(cmd)| <= outSize then |Frame(cmd)| else -1
    ensures n >= 0 ==> out[..n] == Frame(cmd)
  {
    if |cmd| + 2 > MAX_FRAME {
      return -1;
    }
    var data := AppendFcs(cmd);
    hide Crc, Fcs, Stuff;
    assert Stuff(data[..0]) == [] by {
      EmptyStuff();
    }
    var j := 0;
    for i := 0 to |data|
      invariant j <= outSize
      invariant out[..j] == Stuff(data[..i])
    {
      StuffNext(data, i);
      if data[i] == HDLC_FLAG || data[i] == HDLC_ESCAPE {
        if j + 2 > outSize {
          return -1;
        }
        out[j] := HDLC_ESCAPE;
        out[j + 1] := data[i] ^ HDLC_XOR_MASK;
        j := j + 2;
      } else {
        if j + 1 > outSize {
          return -1;
        }
        out[j] := data[i];
        j := j + 1;
      }
    }
    assert data[..|data|] == data;
    if j + 1 > outSize {
      return -1;
    }
    out[j] := HDLC_FLAG;
    n := j + 1;
  }

  lemma EmptyUnstuff()
    ensures Unstuff([]) == Some([])
  {
  }

  lemma UnstuffNext(frame: seq<bv8>, i: nat)
    requires i < |frame|
    ensures frame[i] == HDLC_FLAG ==> Unstuff(frame[i..]) == Unstuff(frame[i + 1..])
    ensures frame[i] == HDLC_ESCAPE && i + 1 == |frame| ==> Unstuff(frame[i..]) == None
    ensures frame[i] == HDLC_ESCAPE && i + 1 < |frame| ==>
      Unstuff(frame[i..]) == Prepend([frame[i + 1] ^ HDLC_XOR_MASK], Unstuff(frame[i + 2..]))
    ensures !NeedsEscape(frame[i]) ==> Unstuff(frame[i..]) == Prepend([frame[i]], Unstuff(frame[i + 1..]))
  {
    var s := frame[i..];
    assert s[1..] == frame[i + 1..];
    if i + 1 < |frame| {
      assert s[2..] == frame[i + 2..];
    }
  }

  method HdlcDecode(frame: seq<bv8>, out: array<bv8>, outSize: nat) returns (n: int)
    requires outSize <= out.Length
    modifies out
    ensures n >= 0 <==> Payload(frame).Some? && |Unstuff(frame).value| <= outSize
    ensures n >= 0 ==> n <= outSize && out[..n] == Payload(frame).value
    ensures n < 0 ==> n == -1
  {
    hide Unstuff, Crc;
    var i, j := 0, 0;
    PrependNothing(Unstuff(frame));
    assert frame[0..] == frame;
    while i < |frame|
      invariant 0 <= i <= |frame| && j <= outSize
      invariant Unstuff(frame) == Prepend(out[..j], Unstuff(frame[i..]))
    {
      UnstuffNext(frame, i);
      if frame[i] == HDLC_FLAG {
        i := i + 1;
      } else {
        var b := frame[i];
        if b == HDLC_ESCAPE {
          if i + 1 >= |frame| {
            return -1;
          }
          i := i + 1;
          b := frame[i] ^ HDLC_XOR_MASK;
        }
        PrependTwice(out[..j], [b], Unstuff(frame[i + 1..]));
        if j >= outSize {
          return -1;
        }
        ghost var before := out[..j];
        out[j] := b;
        assert out[..j + 1] == before + [b];
        j := j + 1;
        i := i + 1;
      }
    }
    assert Unstuff(frame[i..]) == Some([]) by {
      assert frame[i..] == [];
      EmptyUnstuff();
    }
    assert out[..j] + [] == out[..j];
    if j < 2 {
      return -1;
    }
    var crc := HdlcCrc16(INITIAL_FCS, out[..j]);
    if crc != GOOD_FCS {
      return -1;
    }
    n := j - 2;
  }

  // ------------------------------------------------------------------
  // Round trip
  // ------------------------------------------------------------------

  lemma UnstuffByte(b: bv8, rest: seq<bv8>)
    ensures Unstuff(StuffByte(b) + rest) == Prepend([b], Unstuff(rest))
  {
  }

  lemma {:induction false} UnstuffStuffed(s: seq<bv8>, rest: seq<bv8>)
    ensures Unstuff(Stuff(s) + rest) == Prepend(s, Unstuff(rest))
  {
    hide StuffByte, Unstuff;
    if s == [] {
      assert Stuff(s) + rest == rest;
      PrependNothing(Unstuff(rest));
    } else {
      var k := |s| - 1;
      assert Stuff(s) + rest == Stuff(s[..k]) + (StuffByte(s[k]) + rest);
      UnstuffStuffed(s[..k], StuffByte(s[k]) + rest);
      UnstuffByte(s[k], rest);
      PrependTwice(s[..k], [s[k]], Unstuff(rest));
      assert s == s[..k] + [s[k]];
    }
  }

  lemma PrependNothing(r: Option<seq<bv8>>)
    ensures Prepend([], r) == r
  {
    if r.Some? {
      assert [] + r.value == r.value;
    }
  }

  lemma PrependTwice(a: seq<bv8>, b: seq<bv8>, r: Option<seq<bv8>>)
    ensures Prepend(a, Prepend(b, r)) == Prepend(a + b, r)
  {
    if r.Some? {
      assert a + (b + r.value) == a + b + r.value;
    }
  }

  function Flags(n: nat): (s: seq<bv8>)
    ensures |s| == n && forall i :: 0 <= i < n ==> s[i] == HDLC_FLAG
  {
    seq(n, _ => HDLC_FLAG)
  }

  lemma {:induction false} FlagsSkipped(lead: nat, s: seq<bv8>)
    ensures Unstuff(Flags(lead) + s) == Unstuff(s)
  {
    if lead == 0 {
      assert Flags(lead) + s == s;
    } else {
      FlagsSkipped(lead - 1, s);
      assert (Flags(lead) + s)[1..] == Flags(lead - 1) + s;
    }
  }

  /** Decoding what was encoded gives the message back, behind any number of flags. */
  lemma RoundTrip(m: seq<bv8>, lead: nat)
    ensures Payload(Flags(lead) + Frame(m)) == Some(m)
  {
    hide Crc, Fcs;
    var s := m + Fcs(m);
    FlagsSkipped(lead, Frame(m));
    UnstuffStuffed(s, [HDLC_FLAG]);
    UnstuffStuffed([], [HDLC_FLAG]);
    assert Unstuff([HDLC_FLAG]) == Some([]) by {
      assert [HDLC_FLAG][1..] == [];
    }
    assert s + [] == s;
    Residue(m);
  }

  /** Nothing else decodes: an accepted frame is exactly a message with its own check sequence. */
  lemma AcceptedExactly(frame: seq<bv8>, m: seq<bv8>)
    ensures Payload(frame) == Some(m) <==> Unstuff(frame) == Some(m + Fcs(m))
  {
    hide Crc;
    if Unstuff(frame).Some? {
      var s := Unstuff(frame).value;
      if |s| >= 2 {
        var body, tail := s[..|s| - 2], s[|s| - 2..];
        assert s == body + tail;
        ResidueIsExact(body, tail);
      }
      Residue(m);
      assert (m + Fcs(m))[..|m|] == m;
    }
  }

  lemma BitsAround(s: seq<bv8>, t: seq<bv8>, at: nat)
    requires |s| == |t| && at + 2 <= |s| && s[..at] == t[..at] && s[at + 2..] == t[at + 2..]
    ensures Bits(s)[..8 * at] == Bits(t)[..8 * at] && Bits(s)[8 * at + 16..] == Bits(t)[8 * at + 16..]
  {
    hide Bits;
    BitsSplit(s, at);
    BitsSplit(t, at);
    BitsSplit(s, at + 2);
    BitsSplit(t, at + 2);
    assert 8 * (at + 2) == 8 * at + 16;
  }

  lemma {:induction false} BitsSplit(s: seq<bv8>, at: nat)
    requires at <= |s|
    ensures Bits(s)[..8 * at] == Bits(s[..at]) && Bits(s)[8 * at..] == Bits(s[at..])
  {
    hide ByteBits;
    if at == |s| {
      assert s[..at] == s && s[at..] == [];
    } else {
      var k := |s| - 1;
      BitsSplit(s[..k], at);
      assert s[..k][..at] == s[..at];
      assert s[at..][..k - at] == s[..k][at..];
      ByteBitsLength(s[k]);
    }
  }

  /** Two frames of equal unescaped length that differ only within two adjacent bytes are never both accepted. */
  lemma NeverBothAccepted(f: seq<bv8>, g: seq<bv8>, s: seq<bv8>, t: seq<bv8>, at: nat)
    requires Unstuff(f) == Some(s) && Unstuff(g) == Some(t)
    requires |s| == |t| && at + 2 <= |s| && s[..at] == t[..at] && s[at + 2..] == t[at + 2..] && s != t
    ensures Payload(f) == None || Payload(g) == None
  {
    hide Crc, Unstuff, Bits;
    BitsAround(s, t, at);
    if Crc(INITIAL_FCS, s) == Crc(INITIAL_FCS, t) {
      BurstDetected(INITIAL_FCS, s, t, 8 * at, 16);
    }
  }

  // ------------------------------------------------------------------
  // Reading a frame from a serial port
  // ------------------------------------------------------------------

  /**
   * What the frame reader returns once the pieces are used up and the port fails or times out:
   * nothing after a failure, which loses what was read, or on a timeout before any data.
   */
  function Collected(pieces: seq<seq<bv8>>, fails: bool, size: nat, inFrame: bool, got: seq<bv8>): Option<seq<bv8>>
    requires NoEmptyPiece(pieces) && |got| <= size
    decreases |Join(pieces)|
  {
    if |got| == size then Some(got)
    else if pieces == [] then (if got == [] || fails then None else Some(got))
    else
      var now := got + FirstRead(pieces, size - |got|);
      var rest := AfterRead(pieces, size - |got|);
      if now[|now| - 1] != HDLC_FLAG then Collected(rest, fails, size, true, now)
      else if !inFrame && |now| == 1 then Collected(rest, fails, size, false, [])
      else Some(now)
  }

  lemma {:induction false} CollectedEnds(pieces: seq<seq<bv8>>, fails: bool, size: nat, inFrame: bool, got: seq<bv8>)
    requires NoEmptyPiece(pieces) && |got| <= size
    ensures |got| == size || (pieces == [] && got != [] && !fails) ==> Collected(pieces, fails, size, inFrame, got) == Some(got)
    ensures |got| < size && pieces == [] && (got == [] || fails) ==> Collected(pieces, fails, size, inFrame, got) == None
  {
  }

  lemma {:induction false} CollectedStep(pieces: seq<seq<bv8>>, fails: bool, size: nat, inFrame: bool, got: seq<bv8>,
                                         now: seq<bv8>, rest: seq<seq<bv8>>)
    requires NoEmptyPiece(pieces) && |got| < size && pieces != []
    requires now == got + FirstRead(pieces, size - |got|) && rest == AfterRead(pieces, size - |got|)
    ensures |got| < |now| <= size && |Join(rest)| < |Join(pieces)|
    ensures Collected(pieces, fails, size, inFrame, got) ==
      if now[|now| - 1] != HDLC_FLAG then Collected(rest, fails, size, true, now)
      else if !inFrame && |now| == 1 then Collected(rest, fails, size, false, [])
      else Some(now)
  {
    FirstReadFits(pieces, size - |got|);
    hide FirstRead, AfterRead, Join;
  }

  lemma FirstReadFits(pieces: seq<seq<bv8>>, room: nat)
    requires NoEmptyPiece(pieces) && room > 0 && pieces != []
    ensures 0 < |FirstRead(pieces, room)| <= room
  {
  }

  /** A port on which bytes arrive in the given pieces; with none left it times out, or fails for good. */
  class Port {
    var pending: seq<seq<bv8>>
    const fails: bool

    constructor (pieces: seq<seq<bv8>>, fails: bool)
      ensures pending == pieces && this.fails == fails
    {
      pending, this.fails := pieces, fails;
    }

    /** Copies the next piece, or as much of it as fits, behind the first `pos` bytes of `buf`. */
    method Read(buf: array<bv8>, pos: nat) returns (n: nat)
      requires NoEmptyPiece(pending) && pos < buf.Length
      modifies this, buf
      ensures n == 0 <==> old(pending) == []
      ensures n == 0 ==> pending == [] && buf[..] == old(buf[..])
      ensures n > 0 ==> pending == AfterRead(old(pending), buf.Length - pos)
      ensures n > 0 ==> pos + n <= buf.Length && buf[..pos + n] == old(buf[..pos]) + FirstRead(old(pending), buf.Length - pos)
    {
      if pending == [] {
        return 0;
      }
      var piece := FirstRead(pending, buf.Length - pos);
      pending := AfterRead(pending, buf.Length - pos);
      n := |piece|;
      forall k | 0 <= k < n {
        buf[pos + k] := piece[k];
      }
    }
  }

  /** Collects one frame into `buf`; -1 stands for the port's error, or for a timeout when nothing came. */
  method ReadFrame(port: Port, buf: array<bv8>) returns (ret: int)
    requires NoEmptyPiece(port.pending)
    modifies port, buf
    ensures ret == -1 <==> old(Collected(port.pending, port.fails, buf.Length, false, [])) == None
    ensures ret != -1 ==> 0 <= ret <= buf.Length && Some(buf[..ret]) == old(Collected(port.pending, port.fails, buf.Length, false, []))
  {
    hide Collected, FirstRead, AfterRead, Join;
    var pos := 0;
    var inFrame := false;
    assert buf[..0] == [];
    while pos < buf.Length
      invariant 0 <= pos <= buf.Length && NoEmptyPiece(port.pending)
      invariant Collected(port.pending, port.fails, buf.Length, inFrame, buf[..pos]) ==
        old(Collected(port.pending, port.fails, buf.Length, false, []))
      decreases |Join(port.pending)|
    {
      ghost var pieces, got := port.pending, buf[..pos];
      CollectedEnds(pieces, port.fails, buf.Length, inFrame, got);
      var n := port.Read(buf, pos);
      if n == 0 {
        if pos > 0 && !port.fails {
          break;
        }
        return -1;
      }
      pos := pos + n;
      CollectedStep(pieces, port.fails, buf.Length, inFrame, got, buf[..pos], port.pending);
      if pos > 0 && buf[pos - 1] == HDLC_FLAG {
        if !inFrame && pos == 1 {
          pos := 0;
          assert buf[..0] == [];
          continue;
        }
        inFrame := true;
        break;
      }
      inFrame := true;
    }
    CollectedEnds(port.pending, port.fails, buf.Length, inFrame, buf[..pos]);
    ret := pos;
  }

  /** The reads of a frame behind `lead` flags stop inside those flags: some read after lone flags has two or more of them and nothing else. */
  predicate StopsInFlags(pieces: seq<seq<bv8>>, lead: nat) {
    lead > 0 && pieces != [] &&
    if |pieces[0]| == 1 then StopsInFlags(pieces[1..], lead - 1) else |pieces[0]| <= lead
  }

  lemma {:induction false} StuffHasNoFlag(s: seq<bv8>)
    ensures HDLC_FLAG !in Stuff(s)
    ensures |Stuff(s)| >= |s|
  {
    if s != [] {
      StuffHasNoFlag(s[..|s| - 1]);
      StuffByteHasNoFlag(s[|s| - 1]);
      hide StuffByte;
    }
  }

  lemma StuffByteHasNoFlag(b: bv8)
    ensures HDLC_FLAG !in StuffByte(b) && |StuffByte(b)| >= 1
  {
  }

  /** Where the flags of a frame behind `lead` flags are: in front and at the very end. */
  lemma FlagPositions(lead: nat, m: seq<bv8>)
    ensures var s := Flags(lead) + Frame(m);
      && |s| >= lead + 3 && s[|s| - 1] == HDLC_FLAG
      && forall i :: lead <= i < |s| - 1 ==> s[i] != HDLC_FLAG
    ensures forall i :: 0 <= i < |Frame(m)| - 1 ==> Frame(m)[i] != HDLC_FLAG
  {
    hide Stuff, Fcs;
    StuffHasNoFlag(m + Fcs(m));
  }

  /** The pieces can be parted so that the first ones hold exactly `n` bytes. */
  predicate CutAt(pieces: seq<seq<bv8>>, n: nat) {
    n == 0 || (pieces != [] && |pieces[0]| <= n && CutAt(pieces[1..], n - |pieces[0]|))
  }

  lemma {:induction false} CutAtEnd(pieces: seq<seq<bv8>>)
    ensures CutAt(pieces, |Join(pieces)|)
  {
    if pieces != [] {
      CutAtEnd(pieces[1..]);
    }
  }

  lemma {:induction false} CutStep(pieces: seq<seq<bv8>>, n: nat)
    requires pieces != [] && NoEmptyPiece(pieces) && n > 0
    ensures CutAt(pieces, n) <==> |pieces[0]| <= n && CutAt(pieces[1..], n - |pieces[0]|)
    ensures CutAt(pieces, 0)
  {
  }

  /** A read towards the end of a frame: short of it, up to it, or beyond. */
  lemma {:induction false} ReadTowards(pieces: seq<seq<bv8>>, size: nat, got: nat, n: nat)
    requires pieces != [] && NoEmptyPiece(pieces) && got < n <= size && (n == got + |Join(pieces)| || n < size)
    ensures var now, rest := got + |FirstRead(pieces, size - got)|, AfterRead(pieces, size - got);
      && (now < n ==> now == got + |pieces[0]| && (CutAt(pieces, n - got) <==> CutAt(rest, n - now)))
      && (now == n ==> CutAt(pieces, n - got))
      && (now > n ==> !CutAt(pieces, n - got))
  {
    assert |Join(pieces)| >= |pieces[0]|;
  }

  /** Nothing that is in the buffer gets lost when the port only times out or more arrives. */
  lemma {:induction false} CollectedGrows(pieces: seq<seq<bv8>>, fails: bool, size: nat, got: seq<bv8>)
    requires NoEmptyPiece(pieces) && 0 < |got| <= size
    ensures var r := Collected(pieces, fails, size, true, got); r.Some? ==> |r.value| >= |got|
    decreases |Join(pieces)|
  {
    hide Collected, FirstRead, AfterRead, Join;
    CollectedEnds(pieces, fails, size, true, got);
    if |got| < size && pieces != [] {
      var now, rest := got + FirstRead(pieces, size - |got|), AfterRead(pieces, size - |got|);
      CollectedStep(pieces, fails, size, true, got, now, rest);
      CollectedGrows(rest, fails, size, now);
    }
  }

  /** The first `n` bytes of a stream are a frame behind flags, and the buffer has room for them and for more if more follows. */
  ghost predicate Leads(stream: seq<bv8>, size: nat, lead: nat, m: seq<bv8>) {
    var n := lead + |Frame(m)|;
    n <= |stream| && stream[..n] == Flags(lead) + Frame(m) && n <= size && (n == |stream| || n < size)
  }

  /** What is read beyond the leading flags ends at the closing flag exactly when a read does. */
  lemma {:induction false} CollectsBody(pieces: seq<seq<bv8>>, fails: bool, size: nat, inFrame: bool, got: seq<bv8>, lead: nat, m: seq<bv8>)
    requires NoEmptyPiece(pieces) && Leads(got + Join(pieces), size, lead, m) && |got| < lead + |Frame(m)|
    requires if inFrame then |got| > lead else got == [] && pieces != [] && |pieces[0]| > lead
    ensures var r, n := Collected(pieces, fails, size, inFrame, got), lead + |Frame(m)|;
      if CutAt(pieces, n - |got|) then r == Some(Flags(lead) + Frame(m)) else r.Some? ==> |r.value| > n
    decreases |Join(pieces)|
  {
    hide Frame, Collected, CutAt, FirstRead, AfterRead, Flags;
    var s, n := got + Join(pieces), lead + |Frame(m)|;
    FlagPositions(lead, m);
    assert pieces != [] by {
      assert |Join(pieces)| > 0;
    }
    var now, rest := got + FirstRead(pieces, size - |got|), AfterRead(pieces, size - |got|);
    CollectedStep(pieces, fails, size, inFrame, got, now, rest);
    ReadTowards(pieces, size, |got|, n);
    assert now + Join(rest) == s;
    assert now[|now| - 1] == s[|now| - 1];
    if |now| < n {
      assert s[|now| - 1] == s[..n][|now| - 1];
      CollectsBody(rest, fails, size, true, now, lead, m);
    } else if |now| == n {
      assert now == s[..n] && s[n - 1] == s[..n][n - 1];
    } else {
      CollectedGrows(rest, fails, size, now);
    }
  }

  /** How many leading flags are still in front of the frame once the lone ones are skipped. */
  function Kept(pieces: seq<seq<bv8>>, lead: nat): (k: nat)
    ensures k <= lead
  {
    if lead > 0 && pieces != [] && |pieces[0]| == 1 then Kept(pieces[1..], lead - 1) else lead
  }

  /**
   * Out of a stream that goes on behind a frame, the reader delivers that frame if and only if no read
   * hands over several of the leading flags and nothing else, and some read ends with the frame.
   */
  lemma {:induction false} FirstFrame(pieces: seq<seq<bv8>>, fails: bool, size: nat, lead: nat, m: seq<bv8>)
    requires NoEmptyPiece(pieces) && Leads(Join(pieces), size, lead, m)
    ensures Collected(pieces, fails, size, false, []) == Some(Flags(Kept(pieces, lead)) + Frame(m)) <==>
      !StopsInFlags(pieces, lead) && CutAt(pieces, lead + |Frame(m)|)
    ensures StopsInFlags(pieces, lead) ==> Collected(pieces, fails, size, false, []).Some?
    ensures StopsInFlags(pieces, lead) ==> Payload(Collected(pieces, fails, size, false, []).value) == None
    decreases lead
  {
    hide Frame, Payload, Collected, CutAt, Leads, StopsInFlags, Flags;
    FlagsFirst(pieces, size, lead, m);
    StopsStep(pieces, lead);
    if |pieces[0]| > lead {
      assert [] + Join(pieces) == Join(pieces);
      CollectsBody(pieces, fails, size, false, [], lead, m);
    } else {
      CutStep(pieces, lead + |Frame(m)|);
      PieceFits(pieces, size);
      CollectedStep(pieces, fails, size, false, [], pieces[0], pieces[1..]);
      if |pieces[0]| == 1 {
        FirstFrame(pieces[1..], fails, size, lead - 1, m);
      } else {
        OnlyFlags(|pieces[0]|);
        FlagsAreNoFrame(|pieces[0]|, lead, m);
      }
    }
  }

  lemma FlagsAreNoFrame(n: nat, lead: nat, m: seq<bv8>)
    ensures Flags(n) != Flags(lead) + Frame(m)
  {
    FlagPositions(lead, m);
    hide Frame;
    var s := Flags(lead) + Frame(m);
    assert s[lead] != HDLC_FLAG;
  }

  /**
   * A frame alone on the line decodes to its message, however its bytes are split into reads, unless a
   * read hands over several of the leading flags and nothing else.
   */
  lemma CollectedDecodes(pieces: seq<seq<bv8>>, fails: bool, size: nat, lead: nat, m: seq<bv8>)
    requires NoEmptyPiece(pieces) && Join(pieces) == Flags(lead) + Frame(m) && |Join(pieces)| <= size
    ensures Collected(pieces, fails, size, false, []).Some?
    ensures Payload(Collected(pieces, fails, size, false, []).value) ==
      if StopsInFlags(pieces, lead) then None else Some(m)
  {
    hide Frame, Payload, Collected, CutAt, StopsInFlags;
    var s := Join(pieces);
    assert s[..|s|] == s;
    CutAtEnd(pieces);
    FirstFrame(pieces, fails, size, lead, m);
    RoundTrip(m, Kept(pieces, lead));
  }

  /** A first piece no longer than the leading flags consists of flags. */
  lemma {:induction false} FlagsFirst(pieces: seq<seq<bv8>>, size: nat, lead: nat, m: seq<bv8>)
    requires NoEmptyPiece(pieces) && Leads(Join(pieces), size, lead, m)
    ensures pieces != [] && NoEmptyPiece(pieces[1..]) && lead + 3 <= size && |Frame(m)| >= 3
    ensures |pieces[0]| <= lead ==> pieces[0] == Flags(|pieces[0]|) && pieces[0][|pieces[0]| - 1] == HDLC_FLAG
    ensures |pieces[0]| == 1 <= lead ==> Leads(Join(pieces[1..]), size, lead - 1, m)
  {
    hide Frame;
    var n, t := lead + |Frame(m)|, Join(pieces);
    var s := t[..n];
    FlagPositions(lead, m);
    assert pieces != [];
    var p, rest := pieces[0], Join(pieces[1..]);
    assert t == p + rest;
    if |p| <= lead {
      assert p == t[..|p|] == s[..|p|];
    }
    if |p| == 1 <= lead {
      assert rest[..n - 1] == t[1..n] == s[1..] == Flags(lead - 1) + Frame(m);
    }
  }

  lemma {:induction false} StopsStep(pieces: seq<seq<bv8>>, lead: nat)
    requires pieces != [] && NoEmptyPiece(pieces)
    ensures NoEmptyPiece(pieces[1..])
    ensures |pieces[0]| > lead ==> !StopsInFlags(pieces, lead) && Kept(pieces, lead) == lead
    ensures 1 < |pieces[0]| <= lead ==> StopsInFlags(pieces, lead) && Kept(pieces, lead) == lead
    ensures |pieces[0]| == 1 && lead > 0 ==> StopsInFlags(pieces, lead) == StopsInFlags(pieces[1..], lead - 1)
    ensures |pieces[0]| == 1 && lead > 0 ==> Kept(pieces, lead) == Kept(pieces[1..], lead - 1)
  {
  }

  lemma {:induction false} PieceFits(pieces: seq<seq<bv8>>, size: nat)
    requires NoEmptyPiece(pieces) && pieces != [] && |pieces[0]| <= size
    ensures [] + FirstRead(pieces, size) == pieces[0] != [] && AfterRead(pieces, size) == pieces[1..]
    ensures Join(pieces) == pieces[0] + Join(pieces[1..])
  {
  }

  lemma OnlyFlags(n: nat)
    ensures Payload(Flags(n)) == None
  {
    FlagsSkipped(n, []);
    assert Flags(n) + [] == Flags(n);
  }

  /** A frame with at most one leading flag is therefore always read, whatever the reads. */
  lemma OneFlagIsSafe(pieces: seq<seq<bv8>>, lead: nat)
    requires lead <= 1 && NoEmptyPiece(pieces)
    ensures !StopsInFlags(pieces, lead)
  {
    if lead == 1 && pieces != [] {
      assert |pieces[0]| >= 1;
      assert !StopsInFlags(pieces[1..], 0);
    }
  }
}
