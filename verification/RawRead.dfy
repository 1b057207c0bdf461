/**
 * Reading a partition in raw mode: bytes that arrived with the acknowledgement are kept in a
 * remainder buffer, the rest comes in reads of any size, and a failed read is resumed at the
 * last whole sector.
 */
module RawRead {
  import opened Answers
  import opened Bytes
  import Seqs

  const REMAINDER := 4096
  const MIN_BUFFER := 1048576
  const RETRIES := 3

  // ---- The remainder buffer ----

  class Remainder {
    const buf: array<byte>
    var len: nat

    ghost predicate Valid()
      reads this
    {
      buf.Length == REMAINDER && len <= REMAINDER
    }

    ghost function Held(): seq<byte>
      reads this, buf
      requires Valid()
    {
      buf[..len]
    }

    constructor ()
      ensures Valid() && Held() == [] && fresh(buf)
    {
      buf := new byte[REMAINDER](_ => 0);
      len := 0;
    }

    /** Replaces what is held; what exceeds the buffer is dropped. */
    method Save(data: seq<byte>)
      requires Valid()
      modifies this, buf
      ensures Valid() && Held() == data[..if |data| < 4096 then |data| else 4096]
    {
      var n := if |data| > REMAINDER then REMAINDER else |data|;
      for i := 0 to n
        invariant forall k :: 0 <= k < i ==> buf[k] == data[k]
      {
        buf[i] := data[i];
      }
      len := n;
    }

    /** Takes up to `max` bytes from the front and moves the rest down. */
    method Drain(max: nat) returns (data: seq<byte>)
      requires Valid()
      modifies this, buf
      ensures Valid() && old(Held()) == data + Held()
      ensures |data| == if |old(Held())| < max then |old(Held())| else max
    {
      ghost var s := Held();
      var n := if len > max then max else len;
      data := buf[..n];
      assert s == s[..n] + s[n..];
      MoveDown(n);
    }

    /** Drops the first `n` bytes. */
    method MoveDown(n: nat)
      requires Valid() && n <= len
      modifies this, buf
      ensures Valid() && Held() == old(Held())[n..]
    {
      ghost var s := Held();
      var rest := len - n;
      for i := 0 to rest
        invariant len == |s|
        invariant forall k :: 0 <= k < i ==> buf[k] == s[n + k]
        invariant forall k :: i <= k < len ==> buf[k] == s[k]
      {
        buf[i] := buf[n + i];
      }
      len := rest;
      assert buf[..len] == s[n..];
    }

    method Clear()
      requires Valid()
      modifies this
      ensures Valid() && Held() == []
    {
      len := 0;
    }
  }

  // ---- The output file ----

  class OutFile {
    var bytes: seq<byte>
    var pos: nat

    constructor ()
      ensures bytes == [] && pos == 0
    {
      bytes, pos := [], 0;
    }

    method Write(data: seq<byte>)
      modifies this
      ensures bytes == Overlay(old(bytes), old(pos), data) && pos == old(pos) + |data| <= |bytes|
    {
      bytes := Overlay(bytes, pos, data);
      pos := pos + |data|;
    }

    method SeekBack(at: nat)
      requires at <= pos
      modifies this
      ensures bytes == old(bytes) && pos == at
    {
      pos := at;
    }
  }

  // ---- One read command ----

  /** What a device makes of a command, how many raw bytes follow its acknowledgement in one read, and how the rest is cut up. */
  datatype Command = Command(accepted: bool, early: nat, cuts: seq<int>, closed: bool)

  /** How many bytes a read of at most `most` delivers: none at an error or the end, all behind the last cut. */
  function Cut(cuts: seq<int>, most: nat): (n: nat)
    ensures n <= most
  {
    if cuts == [] || cuts[0] > most then most else if cuts[0] < 0 then 0 else cuts[0]
  }

  /** What the device still has to send of one raw transfer. */
  class Link {
    var pending: seq<byte>
    var cuts: seq<int>

    constructor (payload: seq<byte>, cuts: seq<int>)
      ensures pending == payload && this.cuts == cuts
    {
      pending, this.cuts := payload, cuts;
    }

    /** Delivers some bytes, or None on an error or the end of the transfer. */
    method Read(limit: nat) returns (data: Option<seq<byte>>)
      requires limit > 0
      modifies this
      ensures cuts == Later(old(cuts))
      ensures var n := Cut(old(cuts), Min(limit, |old(pending)|));
        if n == 0 then data == None && pending == old(pending)
        else data == Some(old(pending)[..n]) && pending == old(pending)[n..]
    {
      var n := Cut(cuts, Min(limit, |pending|));
      cuts := Later(cuts);
      if n == 0 {
        return None;
      }
      data := Some(pending[..n]);
      pending := pending[n..];
    }
  }

  /** How many bytes came, whether they are all that were wanted, and the cuts left to use. */
  datatype Got = Got(bytes: nat, whole: bool, cuts: seq<int>)

  /** Reads until `want` bytes came or a read delivers nothing; the device has `available`. */
  function Filling(want: nat, available: nat, cuts: seq<int>): (got: Got)
    ensures got.bytes <= want && got.bytes <= available && (got.whole <==> got.bytes == want)
    decreases want
  {
    if want == 0 then Got(0, true, cuts)
    else
      var n := Cut(cuts, Min(want, available));
      if n == 0 then Got(0, false, Later(cuts))
      else
        var rest := Filling(want - n, available - n, Later(cuts));
        Got(n + rest.bytes, rest.whole, rest.cuts)
  }

  lemma FillingStep(want: nat, available: nat, cuts: seq<int>)
    ensures want == 0 ==> Filling(want, available, cuts) == Got(0, true, cuts)
    ensures want > 0 ==>
      var n := Cut(cuts, Min(want, available));
      Filling(want, available, cuts) ==
        if n == 0 then Got(0, false, Later(cuts))
        else
          var rest := Filling(want - n, available - n, Later(cuts));
          Got(n + rest.bytes, rest.whole, rest.cuts)
  {
    hide Cut;
  }

  /** Fills up to `wanted` bytes: first from the remainder, then from the device. */
  method FillChunk(kept: Remainder, link: Link, wanted: nat) returns (buf: seq<byte>, ok: bool)
    requires kept.Valid()
    modifies kept, kept.buf, link
    ensures kept.Valid() && old(kept.Held() + link.pending) == buf + (kept.Held() + link.pending)
    ensures var drained := Min(|old(kept.Held())|, wanted);
      var fill := Filling(wanted - drained, |old(link.pending)|, old(link.cuts));
      && |buf| == drained + fill.bytes && ok == fill.whole && link.cuts == fill.cuts
      && |kept.Held()| == |old(kept.Held())| - drained && |link.pending| == |old(link.pending)| - fill.bytes
  {
    hide Filling, Cut, FilledSoFar, Splits;
    ok := true;
    ghost var held, pending := kept.Held(), link.pending;
    buf := kept.Drain(wanted);
    ghost var rest, drained, stream := kept.Held(), |buf|, held + pending;
    ghost var fill := Filling(wanted - drained, |pending|, link.cuts);
    DrainSplits(held, pending, buf, rest);
    FillingStarts(fill);
    while |buf| < wanted
      invariant kept.Valid() && kept.Held() == rest && drained <= |buf| <= wanted
      invariant |buf| < wanted ==> rest == []
      invariant Splits(stream, buf, rest + link.pending) && |link.pending| == |pending| - (|buf| - drained)
      invariant FilledSoFar(fill, |buf| - drained, Filling(wanted - |buf|, |link.pending|, link.cuts))
    {
      FillingStep(wanted - |buf|, |link.pending|, link.cuts);
      ghost var before, came := link.pending, |buf| - drained;
      var n := link.Read(wanted - |buf|);
      if n == None {
        FillingStops(fill, came, link.cuts);
        SplitsEnds(stream, buf, rest + link.pending);
        return buf, false;
      }
      ReadSplits(stream, buf, before, n.value, link.pending);
      buf := buf + n.value;
      SoFarNext(fill, came, |n.value|, Filling(wanted - |buf|, |link.pending|, link.cuts));
    }
    FillingStep(0, |link.pending|, link.cuts);
    FillingWhole(fill, |buf| - drained, link.cuts);
    SplitsEnds(stream, buf, rest + link.pending);
  }

  lemma DrainSplits(held: seq<byte>, pending: seq<byte>, buf: seq<byte>, rest: seq<byte>)
    requires held == buf + rest
    ensures Splits(held + pending, buf, rest + pending)
  {
  }

  lemma ReadSplits(stream: seq<byte>, buf: seq<byte>, before: seq<byte>, data: seq<byte>, pending: seq<byte>)
    requires Splits(stream, buf, [] + before) && |data| <= |before| && data == before[..|data|] && pending == before[|data|..]
    ensures Splits(stream, buf + data, [] + pending)
  {
    assert before == data + pending;
  }

  lemma FillingStarts(whole: Got)
    ensures FilledSoFar(whole, 0, whole)
  {
  }

  lemma FillingStops(whole: Got, came: nat, cuts: seq<int>)
    requires FilledSoFar(whole, came, Got(0, false, cuts))
    ensures whole == Got(came, false, cuts)
  {
  }

  lemma FillingWhole(whole: Got, came: nat, cuts: seq<int>)
    requires FilledSoFar(whole, came, Got(0, true, cuts))
    ensures whole == Got(came, true, cuts)
  {
  }

  ghost predicate FilledSoFar(whole: Got, came: nat, rest: Got) {
    whole == Got(came + rest.bytes, rest.whole, rest.cuts)
  }

  lemma Split(left: nat, chunk: nat, size: nat)
    requires chunk <= left
    ensures (left - chunk) * size == left * size - chunk * size && chunk * size <= left * size
  {
  }

  lemma SomeSector(buffer: nat, size: nat)
    requires 0 < size <= buffer
    ensures buffer / size >= 1
  {
  }

  /** The raw bytes to come once `early` of them arrived with the acknowledgement. */
  function Stream(held: seq<byte>, early: nat, payload: seq<byte>): seq<byte>
    requires early <= |payload|
  {
    (if early > 0 then payload[..early] else held) + payload[early..]
  }

  lemma StreamIsPayload(held: seq<byte>, early: nat, payload: seq<byte>)
    requires early <= |payload|
    ensures held == [] || early > 0 ==> Stream(held, early, payload) == payload
  {
  }

  /**
   * A command receives its own payload, whatever it is, exactly when nothing was held from an earlier
   * command or some raw bytes came with the acknowledgement.
   */
  lemma OwnPayloadExactly(held: seq<byte>, early: nat, n: nat)
    requires early <= n && n > 0
    ensures (forall payload: seq<byte> :: |payload| == n ==> Stream(held, early, payload)[..n] == payload) <==> held == [] || early > 0
  {
    if held == [] || early > 0 {
      forall payload: seq<byte> | |payload| == n
        ensures Stream(held, early, payload)[..n] == payload
      {
        StreamIsPayload(held, early, payload);
      }
    } else {
      var other := OtherPayload(held[0], n);
      assert Stream(held, early, other)[..n][0] == held[0];
    }
  }

  lemma OtherPayload(b: byte, n: nat) returns (payload: seq<byte>)
    requires n > 0
    ensures |payload| == n && payload[0] != b
  {
    payload := [if b == 0 then 1 else 0] + Zeros(n - 1);
  }

  /** As many raw bytes as come with an acknowledgement fit one read behind it. */
  function Early(c: Command, total: nat): (n: nat)
    ensures n <= total && n < REMAINDER
  {
    if c.early <= total && c.early < REMAINDER then c.early else 0
  }

  /** The acknowledgement of a command, with the raw bytes behind it. */
  method Acknowledge(kept: Remainder, c: Command, payload: seq<byte>) returns (early: nat, link: Link)
    requires kept.Valid()
    modifies kept, kept.buf
    ensures kept.Valid() && fresh(link) && early == Early(c, |payload|)
    ensures kept.Held() + link.pending == Stream(old(kept.Held()), early, payload)
    ensures |kept.Held()| == (if early > 0 then early else |old(kept.Held())|) && |link.pending| == |payload| - early
    ensures link.cuts == c.cuts
  {
    early := Early(c, |payload|);
    link := new Link(payload[early..], c.cuts);
    if early > 0 {
      kept.Save(payload[..early]);
    }
  }

  /** The bytes of a command that are in the file, and those still to come. */
  ghost predicate Splits(stream: seq<byte>, wrote: seq<byte>, rest: seq<byte>) {
    stream == wrote + rest
  }

  lemma SplitsNext(stream: seq<byte>, wrote: seq<byte>, rest: seq<byte>, buf: seq<byte>, left: seq<byte>)
    requires Splits(stream, wrote, rest) && rest == buf + left
    ensures Splits(stream, wrote + buf, left)
  {
  }

  lemma SplitsEnds(stream: seq<byte>, wrote: seq<byte>, rest: seq<byte>)
    requires Splits(stream, wrote, rest)
    ensures wrote <= stream && stream == wrote + rest
  {
  }

  lemma SplitsStart(stream: seq<byte>)
    ensures Splits(stream, [], stream)
  {
  }

  /** The bytes received so far stand in the file where they belong, and the cursor behind them. */
  ghost predicate Written(file: OutFile, was: seq<byte>, at: nat, wrote: seq<byte>)
    reads file
  {
    file.bytes == Overlay(was, at, wrote) && file.pos == at + |wrote| <= |file.bytes|
  }

  lemma WrittenStart(file: OutFile)
    requires file.pos <= |file.bytes|
    ensures Written(file, file.bytes, file.pos, [])
  {
    OverlayNothing(file.bytes, file.pos);
  }

  method WriteOn(file: OutFile, buf: seq<byte>, ghost was: seq<byte>, ghost at: nat, ghost wrote: seq<byte>)
    requires at <= |was| && Written(file, was, at, wrote)
    modifies file
    ensures Written(file, was, at, wrote + buf)
  {
    hide Overlay;
    OverlayMore(was, at, wrote, buf);
    file.Write(buf);
  }

  /** How many sectors are read at once. */
  function ChunkSize(buffer: nat, size: nat, left: nat): (n: nat)
    requires 0 < size <= buffer
    ensures n <= left && (left > 0 ==> n > 0)
  {
    SomeSector(buffer, size);
    if buffer / size < left then buffer / size else left
  }

  function Span(sectors: nat, size: nat): nat {
    sectors * size
  }

  function BufferSize(maxPayload: nat): (n: nat)
    ensures n >= MIN_BUFFER
  {
    if maxPayload < MIN_BUFFER then MIN_BUFFER else maxPayload
  }

  /** Reads `left` sectors with `held` bytes in the remainder and `available` ones on the device. */
  function Reading(left: nat, size: nat, buffer: nat, held: nat, available: nat, cuts: seq<int>): (got: Got)
    requires 0 < size <= buffer
    ensures got.bytes <= Span(left, size) && (got.whole ==> got.bytes == Span(left, size))
    decreases left
  {
    if left == 0 then Got(0, true, cuts)
    else
      Split(left, ChunkSize(buffer, size, left), size);
      var chunk := ChunkSize(buffer, size, left);
      var drained := Min(held, Span(chunk, size));
      var fill := Filling(Span(chunk, size) - drained, available, cuts);
      if !fill.whole then Got(drained + fill.bytes, false, fill.cuts)
      else
        var rest := Reading(left - chunk, size, buffer, held - drained, available - fill.bytes, fill.cuts);
        Got(Span(chunk, size) + rest.bytes, rest.whole, rest.cuts)
  }

  lemma ReadingStep(left: nat, size: nat, buffer: nat, held: nat, available: nat, cuts: seq<int>)
    requires 0 < size <= buffer
    ensures left == 0 ==> Reading(left, size, buffer, held, available, cuts) == Got(0, true, cuts)
    ensures left > 0 ==>
      var chunk := ChunkSize(buffer, size, left);
      var drained := Min(held, Span(chunk, size));
      var fill := Filling(Span(chunk, size) - drained, available, cuts);
      Reading(left, size, buffer, held, available, cuts) ==
        if !fill.whole then Got(drained + fill.bytes, false, fill.cuts)
        else
          var rest := Reading(left - chunk, size, buffer, held - drained, available - fill.bytes, fill.cuts);
          Got(Span(chunk, size) + rest.bytes, rest.whole, rest.cuts)
  {
    hide Filling, Span, ChunkSize;
  }

  /** What one command for `num` sectors brings when `held` bytes are left in the remainder. */
  function CommandGot(c: Command, num: nat, size: nat, maxPayload: nat, held: nat): (got: Got)
    requires 0 < size <= MIN_BUFFER
    ensures got.bytes <= Span(num, size) && (got.whole ==> got.bytes == Span(num, size))
  {
    if !c.accepted then Got(0, false, c.cuts)
    else
      var total := Span(num, size);
      var early := Early(c, total);
      var got := Reading(num, size, BufferSize(maxPayload), if early > 0 then early else held, total - early, c.cuts);
      Got(got.bytes, got.whole && c.closed, got.cuts)
  }

  /** The raw bytes of a command, chunk by chunk, appended at the file's cursor. */
  method ReadSectors(kept: Remainder, link: Link, file: OutFile, num: nat, size: nat, buffer: nat) returns (ok: bool, ghost wrote: seq<byte>)
    requires kept.Valid() && 0 < size <= buffer && file.pos <= |file.bytes|
    modifies kept, kept.buf, link, file
    ensures var got := Reading(num, size, buffer, |old(kept.Held())|, |old(link.pending)|, old(link.cuts)); ok == got.whole && |wrote| == got.bytes
    ensures kept.Valid() && wrote <= old(kept.Held() + link.pending) && Written(file, old(file.bytes), old(file.pos), wrote)
  {
    hide Splits, Written, Span, ChunkSize, Reading, Filling, FilledSoFar;
    ghost var was, at, stream := file.bytes, file.pos, kept.Held() + link.pending;
    ghost var whole := Reading(num, size, buffer, |kept.Held()|, |link.pending|, link.cuts);
    wrote := [];
    WrittenStart(file);
    SplitsStart(stream);
    FillingStarts(whole);
    ok := true;
    var left := num;
    while left > 0
      invariant kept.Valid() && 0 <= left <= num
      invariant Splits(stream, wrote, kept.Held() + link.pending) && Written(file, was, at, wrote)
      invariant FilledSoFar(whole, |wrote|, Reading(left, size, buffer, |kept.Held()|, |link.pending|, link.cuts))
    {
      var chunk := ChunkSize(buffer, size, left);
      ReadingStep(left, size, buffer, |kept.Held()|, |link.pending|, link.cuts);
      ghost var rest, came := kept.Held() + link.pending, |wrote|;
      var buf, filled := FillChunk(kept, link, Span(chunk, size));
      SplitsNext(stream, wrote, rest, buf, kept.Held() + link.pending);
      WriteOn(file, buf, was, at, wrote);
      wrote := wrote + buf;
      if !filled {
        SoFarCut(whole, came, |buf|, link.cuts);
        ok := false;
        break;
      }
      left := left - chunk;
      SoFarNext(whole, came, |buf|, Reading(left, size, buffer, |kept.Held()|, |link.pending|, link.cuts));
    }
    if ok {
      ReadingStep(0, size, buffer, |kept.Held()|, |link.pending|, link.cuts);
      FillingWhole(whole, |wrote|, link.cuts);
    }
    SplitsEnds(stream, wrote, kept.Held() + link.pending);
  }

  lemma CommandIs(c: Command, num: nat, size: nat, maxPayload: nat, held: nat)
    requires 0 < size <= MIN_BUFFER
    ensures !c.accepted ==> CommandGot(c, num, size, maxPayload, held) == Got(0, false, c.cuts)
    ensures c.accepted ==>
      var early := Early(c, Span(num, size));
      var got := Reading(num, size, BufferSize(maxPayload), if early > 0 then early else held, Span(num, size) - early, c.cuts);
      CommandGot(c, num, size, maxPayload, held) == Got(got.bytes, got.whole && c.closed, got.cuts)
  {
    hide Reading, Span, Early;
  }

  /**
   * One read command for `num` sectors. Whatever part of the payload came with the acknowledgement,
   * and however the rest is cut up, the file receives the stream of raw bytes in order, as many as
   * were asked for on success. A command that is refused leaves what was held.
   */
  method IssueRead(kept: Remainder, file: OutFile, c: Command, payload: seq<byte>, num: nat, size: nat, maxPayload: nat)
      returns (ok: bool, early: nat, ghost wrote: seq<byte>)
    requires kept.Valid() && 0 < size <= MIN_BUFFER && |payload| == Span(num, size) && file.pos <= |file.bytes|
    modifies kept, kept.buf, file
    ensures var got := CommandGot(c, num, size, maxPayload, |old(kept.Held())|); ok == got.whole && |wrote| == got.bytes
    ensures kept.Valid() && kept.Held() == if c.accepted then [] else old(kept.Held())
    ensures !c.accepted ==> !ok && wrote == []
    ensures early == if c.accepted then Early(c, |payload|) else 0
    ensures wrote <= Stream(old(kept.Held()), early, payload)
    ensures |wrote| <= |payload| && (ok ==> |wrote| == |payload|)
    ensures Written(file, old(file.bytes), old(file.pos), wrote)
    ensures old(kept.Held()) == [] || early > 0 ==> wrote <= payload
  {
    hide Written, Stream, Span, Reading, Early, CommandGot;
    CommandIs(c, num, size, maxPayload, |kept.Held()|);
    wrote, early := [], 0;
    WrittenStart(file);
    if !c.accepted {
      return false, 0, [];
    }
    var link;
    early, link := Acknowledge(kept, c, payload);
    StreamIsPayload(old(kept.Held()), early, payload);
    ok, wrote := ReadSectors(kept, link, file, num, size, BufferSize(maxPayload));
    kept.Clear();
    ok := ok && c.closed;
  }

  lemma SoFarNext(whole: Got, came: nat, n: nat, rest: Got)
    requires FilledSoFar(whole, came, Got(n + rest.bytes, rest.whole, rest.cuts))
    ensures FilledSoFar(whole, came + n, rest)
  {
  }

  lemma SoFarCut(whole: Got, came: nat, n: nat, cuts: seq<int>)
    requires FilledSoFar(whole, came, Got(n, false, cuts))
    ensures whole.bytes == came + n && !whole.whole
  {
  }

  // ---- When a command succeeds ----

  lemma CutSome(cuts: seq<int>, most: nat)
    requires most > 0
    ensures Cut(cuts, most) > 0 <==> (cuts != [] ==> cuts[0] > 0)
    ensures AllPositive(cuts) ==> AllPositive(Later(cuts)) && Cut(cuts, most) > 0
  {
  }

  /** A device that has enough fills a chunk exactly when no read made for it fails. */
  lemma {:induction false} FillingExactly(want: nat, available: nat, cuts: seq<int>)
    requires want <= available
    ensures var got := Filling(want, available, cuts);
      && |got.cuts| <= |cuts| && (got.whole <==> AllPositive(Used(cuts, got.cuts))) && cuts == Used(cuts, got.cuts) + got.cuts
    decreases want
  {
    hide Cut, Filling, AllPositive, Used, Later;
    FillingStep(want, available, cuts);
    NoneUsed(cuts);
    if want > 0 {
      var n := Cut(cuts, Min(want, available));
      CutSome(cuts, Min(want, available));
      NoneUsed(Later(cuts));
      if n > 0 {
        FillingExactly(want - n, available - n, Later(cuts));
      }
      UsedFirst(cuts, Filling(want, available, cuts).cuts);
    }
  }

  /** A command whose bytes are all there brings them exactly when no read made for it fails. */
  lemma {:induction false} ReadingExactly(left: nat, size: nat, buffer: nat, held: nat, available: nat, cuts: seq<int>)
    requires 0 < size <= buffer && Span(left, size) <= held + available
    ensures var got := Reading(left, size, buffer, held, available, cuts);
      && |got.cuts| <= |cuts| && (got.whole <==> AllPositive(Used(cuts, got.cuts))) && cuts == Used(cuts, got.cuts) + got.cuts
    decreases left
  {
    hide Filling, AllPositive, Used, Span, ChunkSize, Reading;
    ReadingStep(left, size, buffer, held, available, cuts);
    NoneUsed(cuts);
    if left > 0 {
      var chunk := ChunkSize(buffer, size, left);
      var drained := Min(held, Span(chunk, size));
      var fill := Filling(Span(chunk, size) - drained, available, cuts);
      SpanSplit(left, chunk, size);
      FillingExactly(Span(chunk, size) - drained, available, cuts);
      if fill.whole {
        ReadingExactly(left - chunk, size, buffer, held - drained, available - fill.bytes, fill.cuts);
        UsedJoin(cuts, fill.cuts, Reading(left, size, buffer, held, available, cuts).cuts);
      }
    }
  }

  lemma SpanSplit(left: nat, chunk: nat, size: nat)
    requires chunk <= left
    ensures Span(left, size) == Span(chunk, size) + Span(left - chunk, size)
  {
    Split(left, chunk, size);
  }

  /** A command is granted when it is accepted, no read fails, and the closing acknowledgement comes. */
  ghost predicate Grants(c: Command) {
    c.accepted && c.closed && AllPositive(c.cuts)
  }

  /** A command succeeds exactly when it is accepted and closed and no read made for it fails; so it does when granted. */
  lemma CommandExactly(c: Command, num: nat, size: nat, maxPayload: nat, held: nat)
    requires 0 < size <= MIN_BUFFER
    ensures var got := CommandGot(c, num, size, maxPayload, held);
      && |got.cuts| <= |c.cuts|
      && (got.whole <==> c.accepted && c.closed && AllPositive(Used(c.cuts, got.cuts)))
      && (Grants(c) ==> got.whole)
  {
    hide Reading, Span;
    var total := Span(num, size);
    var early := Early(c, total);
    if c.accepted {
      ReadingExactly(num, size, BufferSize(maxPayload), if early > 0 then early else held, total - early, c.cuts);
    }
  }

  // ---- Reading with retries ----

  /** A read of sectors, the bytes held at its start, and what the device makes of one command after the other. */
  datatype Job = Job(num: nat, size: nat, maxPayload: nat, held: nat, commands: seq<Command>)

  predicate IsJob(j: Job) {
    0 < j.size <= MIN_BUFFER
  }

  /** Behind the last command a device grants everything. */
  function CommandAt(j: Job, k: nat): Command {
    if k < |j.commands| then j.commands[k] else Command(true, 0, [], true)
  }

  /** How many sectors are done when attempt `k` begins. */
  function DoneAt(j: Job, k: nat): nat
    requires IsJob(j)
    decreases k, 0
  {
    if k == 0 then 0 else DoneAt(j, k - 1) + Whole(AttemptAt(j, k - 1).bytes, j.size)
  }

  /** How many whole sectors some bytes make up. */
  function Whole(bytes: nat, size: nat): nat
    requires size > 0
  {
    bytes / size
  }

  /** How many are left then. */
  function LeftAt(j: Job, k: nat): nat
    requires IsJob(j)
    decreases k, 1
  {
    if DoneAt(j, k) <= j.num then j.num - DoneAt(j, k) else 0
  }

  /** What attempt `k` brings; only the first one finds bytes of an earlier command. */
  function AttemptAt(j: Job, k: nat): Got
    requires IsJob(j)
    decreases k, 2
  {
    CommandGot(CommandAt(j, k), LeftAt(j, k), j.size, j.maxPayload, if k == 0 then j.held else 0)
  }

  /** An attempt that fails is repeated when it brought a whole sector. */
  predicate GoesOn(j: Job, k: nat)
    requires IsJob(j)
  {
    !AttemptAt(j, k).whole && AttemptAt(j, k).bytes >= j.size
  }

  /** The attempts end with number `k`: the first that is not repeated, or the last that is allowed. */
  ghost predicate EndsWith(j: Job, k: nat)
    requires IsJob(j)
  {
    k <= RETRIES && (forall i :: 0 <= i < k ==> GoesOn(j, i)) && (k == RETRIES || !GoesOn(j, k))
  }

  function Sectors(disk: seq<byte>, start: nat, num: nat, size: nat): seq<byte>
    requires (start + num) * size <= |disk|
  {
    Product(start, start + num, size);
    disk[start * size..(start + num) * size]
  }

  /** What a command for the sectors from `done` on is answered with. */
  function Payload(disk: seq<byte>, start: nat, num: nat, size: nat, done: nat): seq<byte>
    requires (start + num) * size <= |disk| && done <= num
  {
    Product(start + done, start + num, size);
    disk[(start + done) * size..(start + num) * size]
  }

  lemma Product(a: nat, b: nat, size: nat)
    requires a <= b
    ensures a * size <= b * size
  {
  }

  ghost predicate Ascending(s: seq<nat>) {
    forall i, j :: 0 <= i < j < |s| ==> s[i] < s[j]
  }

  /** The first sector begins with bytes held from an earlier command. */
  ghost predicate BeginsStale(bytes: seq<byte>, held: seq<byte>, size: nat) {
    var k := if |held| < size then |held| else size;
    k <= |bytes| && bytes[..k] == held[..k]
  }

  /** What stands in the file: a beginning of the range, unless the first command found stale bytes. */
  ghost predicate Received(bytes: seq<byte>, range: seq<byte>, held: seq<byte>, early: nat, size: nat) {
    && |bytes| <= |range|
    && (held == [] || early > 0 ==> bytes <= range)
    && (held != [] && early == 0 ==> BeginsStale(bytes, held, size))
  }

  /** Whole sectors from which the next command goes on, none of them before the first. */
  ghost predicate Resumes(bytes: seq<byte>, range: seq<byte>, held: seq<byte>, early: nat, size: nat, done: nat) {
    Span(done, size) <= |bytes| && if done == 0 then bytes == [] else Received(bytes, range, held, early, size)
  }

  lemma FirstReceived(range: seq<byte>, held: seq<byte>, early: nat, size: nat, wrote: seq<byte>)
    requires early <= |range| && wrote <= Stream(held, early, range) && |wrote| <= |range|
    requires held == [] || early > 0 ==> wrote <= range
    ensures held == [] || early > 0 || |wrote| >= size ==> Received(wrote, range, held, early, size)
  {
    if held != [] && early == 0 && |wrote| >= size {
      var k := if |held| < size then |held| else size;
      var stream := Stream(held, early, range);
      assert stream == held + range;
      assert wrote[..k] == stream[..|wrote|][..k] == held[..k];
    }
  }

  lemma NextReceived(bytes: seq<byte>, range: seq<byte>, held: seq<byte>, early: nat, size: nat, done: nat, wrote: seq<byte>)
    requires done > 0 && Received(bytes, range, held, early, size) && Span(done, size) <= |bytes|
    requires wrote <= range[Span(done, size)..]
    ensures Received(Overlay(bytes, Span(done, size), wrote), range, held, early, size)
  {
    var at, k := Span(done, size), if |held| < size then |held| else size;
    var t := Overlay(bytes, at, wrote);
    Product(1, done, size);
    if held == [] || early > 0 {
      assert forall i :: 0 <= i < |t| ==> t[i] == range[i];
    } else {
      assert t[..k] == bytes[..at][..k] == bytes[..k];
    }
  }

  /** One attempt, from `done` sectors on; `came` is what the first one found with its acknowledgement. */
  lemma Attempt(bytes: seq<byte>, range: seq<byte>, held: seq<byte>, early: nat, size: nat, done: nat,
                kept: seq<byte>, came: nat, wrote: seq<byte>)
    requires Resumes(bytes, range, held, early, size, done) && Span(done, size) <= |range|
    requires var payload := range[Span(done, size)..];
      && came <= |payload| && wrote <= Stream(kept, came, payload) && |wrote| <= |payload|
      && (kept == [] || came > 0 ==> wrote <= payload)
    requires kept == (if done == 0 then held else [])
    ensures var t, e := Overlay(bytes, Span(done, size), wrote), if done == 0 then came else early;
      && (held == [] || e > 0 || done > 0 || |wrote| >= size ==> Received(t, range, held, e, size))
      && (done == 0 && wrote == [] ==> t == [])
  {
    hide Overlay, Received, Stream;
    if done == 0 {
      OverlayFresh(wrote);
      assert range[0..] == range;
      FirstReceived(range, held, came, size, wrote);
    } else {
      NextReceived(bytes, range, held, early, size, done, wrote);
    }
  }

  /** Where an attempt leaves the file, and what the next one can go on from. */
  lemma AttemptEnds(before: seq<byte>, range: seq<byte>, held: seq<byte>, early: nat, num: nat, size: nat, done: nat,
                    wrote: seq<byte>, bytes: seq<byte>, pos: nat)
    requires size > 0 && |range| == Span(num, size) && Span(done, size) <= |before|
    requires bytes == Overlay(before, Span(done, size), wrote) && pos == Span(done, size) + |wrote| <= |range|
    requires held == [] || early > 0 || done > 0 || |wrote| >= size ==> Received(bytes, range, held, early, size)
    ensures done <= pos / size <= num && done * size <= |bytes| && (wrote == [] ==> pos / size == done)
    ensures pos / size * size == Span(pos / size, size) <= pos
    ensures pos / size > done ==> Resumes(bytes, range, held, early, size, pos / size)
    ensures held == [] || early > 0 ==> bytes <= range && (pos == |range| ==> bytes == range)
    ensures held != [] && early == 0 && num > 0 && pos == |range| ==> BeginsStale(bytes, held, size)
  {
    hide Overlay, BeginsStale;
    assert |bytes| >= pos;
    Division(pos, done, size, |wrote|);
    if pos / size > num {
      Product(num + 1, pos / size, size);
      Distribute(num, 1, size);
    }
    if num > done {
      Product(1, num - done, size);
      Distribute(done, num - done, size);
    }
  }

  lemma Division(pos: nat, done: nat, size: nat, more: nat)
    requires size > 0 && pos == done * size + more
    ensures pos / size >= done && pos / size * size <= pos && (more < size ==> pos / size == done)
  {
    if pos / size < done {
      Product(pos / size + 1, done, size);
    } else if more < size && pos / size > done {
      Product(done + 1, pos / size, size);
    }
  }

  lemma ResumesStart(range: seq<byte>, held: seq<byte>, size: nat)
    ensures Span(0, size) == 0 && Resumes([], range, held, 0, size, 0)
  {
  }

  lemma ResumesWithin(bytes: seq<byte>, range: seq<byte>, held: seq<byte>, early: nat, size: nat, done: nat)
    requires Resumes(bytes, range, held, early, size, done)
    ensures Span(done, size) <= |bytes|
  {
  }

  lemma OverlayFresh(wrote: seq<byte>)
    ensures Overlay([], 0, wrote) == wrote
  {
  }

  lemma DoneNext(j: Job, resumed: seq<nat>, done: nat, pos: nat)
    requires IsJob(j) && Retried(j, resumed, done)
    requires pos == Span(done, j.size) + AttemptAt(j, |resumed|).bytes
    ensures pos / j.size == DoneAt(j, |resumed| + 1)
    ensures GoesOn(j, |resumed|) <==> !AttemptAt(j, |resumed|).whole && pos / j.size > done
  {
    hide AttemptAt, Span;
    SumOfSectors(done, AttemptAt(j, |resumed|).bytes, j.size);
    SomeSectors(AttemptAt(j, |resumed|).bytes, j.size);
  }

  lemma SomeSectors(bytes: nat, size: nat)
    requires size > 0
    ensures bytes / size > 0 <==> bytes >= size
  {
    if bytes >= size {
      Division(bytes, 1, size, bytes - size);
    } else {
      Division(bytes, 0, size, bytes);
    }
  }

  lemma SumOfSectors(done: nat, bytes: nat, size: nat)
    requires size > 0
    ensures (Span(done, size) + bytes) / size == done + bytes / size
  {
    var q, r := bytes / size, bytes % size;
    assert bytes == q * size + r;
    Distribute(done, q, size);
    Division((done + q) * size + r, done + q, size, r);
  }

  /**
   * Reads sectors into a file, resuming a failed read at the last whole sector. It succeeds if the
   * attempt with which it ends does: the first that brings everything or not even one sector, and
   * the third retry at the latest. When nothing was held, or raw bytes came with the first
   * acknowledgement, the file always holds a beginning of the range; otherwise a successful read
   * begins with what was held.
   */
  method ReadToFile(kept: Remainder, disk: seq<byte>, start: nat, num: nat, size: nat, maxPayload: nat, commands: seq<Command>)
      returns (ok: bool, file: OutFile, early: nat, ghost resumed: seq<nat>)
    requires kept.Valid() && 0 < size <= MIN_BUFFER
    requires (start + num) * size <= |disk|
    modifies kept, kept.buf
    ensures kept.Valid() && kept.Held() == if commands != [] && !commands[0].accepted then old(kept.Held()) else []
    ensures var j := Job(num, size, maxPayload, |old(kept.Held())|, commands);
      && EndsWith(j, |resumed|) && ok == AttemptAt(j, |resumed|).whole
      && (forall i :: 0 <= i < |resumed| ==> resumed[i] == DoneAt(j, i + 1))
      && early == (if CommandAt(j, 0).accepted then Early(CommandAt(j, 0), Span(num, size)) else 0)
    ensures old(kept.Held()) == [] || early > 0 ==>
      file.bytes <= Sectors(disk, start, num, size) && (ok ==> file.bytes == Sectors(disk, start, num, size))
    ensures old(kept.Held()) != [] && early == 0 && ok && num > 0 ==> BeginsStale(file.bytes, old(kept.Held()), size)
    ensures |resumed| <= 3 && Ascending([0] + resumed)
    ensures forall i :: 0 <= i < |resumed| ==> resumed[i] <= num && resumed[i] * size <= |file.bytes|
    ensures !ok && |resumed| < 3 ==> file.pos / size <= ([0] + resumed)[|resumed|]
  {
    hide Ascending, AscendingTo, Sectors, Overlay, Stream, BeginsStale, Received, Resumes, Span, Payload, CommandGot, DoneAt, Early, Retried, GoesOn, EndsWith, AttemptAt, FirstEarly, LeftAt;
    file := new OutFile();
    resumed, early, ok := [], 0, false;
    ghost var range, held := Sectors(disk, start, num, size), kept.Held();
    ghost var job := Job(num, size, maxPayload, |held|, commands);
    var done, retries := 0, RETRIES;
    ResumesStart(range, held, size);
    AscendingStart();
    RetriedStart(job);
    while true
      invariant kept.Valid() && fresh(file) && kept.Held() == (if done == 0 then held else [])
      invariant done <= num && 0 <= retries <= RETRIES && |resumed| + retries == RETRIES && (retries == RETRIES <==> done == 0)
      invariant Retried(job, resumed, done)
      invariant file.pos == Span(done, size) && Resumes(file.bytes, range, held, early, size, done)
      invariant retries < RETRIES ==> early == FirstEarly(job) && CommandAt(job, 0).accepted
      invariant AscendingTo(resumed, done)
      decreases retries
    {
      var payload := Payload(disk, start, num, size, done);
      PayloadIs(disk, start, num, size, done);
      ghost var before, found := file.bytes, kept.Held();
      ResumesWithin(before, range, held, early, size, done);
      var turn := RETRIES - retries;
      var c := if turn < |commands| then commands[turn] else Command(true, 0, [], true);
      AttemptIs(job, resumed, done);
      var came;
      ghost var wrote;
      ok, came, wrote := IssueRead(kept, file, c, payload, num - done, size, maxPayload);
      Attempt(before, range, held, early, size, done, found, came, wrote);
      if retries == RETRIES {
        early := came;
        FirstEarlyIs(job);
      }
      AttemptEnds(before, range, held, early, num, size, done, wrote, file.bytes, file.pos);
      DoneNext(job, resumed, done, file.pos);
      if ok || retries == 0 {
        break;
      }
      var written := file.pos / size;
      if written <= done {
        break;
      }
      AscendingNext(resumed, done, written);
      RetriedNext(job, resumed, done, written);
      done := written;
      file.SeekBack(done * size);
      retries := retries - 1;
      resumed := resumed + [done];
    }
    ResumedWithin(resumed, done, num, size, |file.bytes|);
    RetriedEnds(job, resumed, done);
    FirstEarlyIs(job);
  }

  function FirstEarly(j: Job): nat {
    if CommandAt(j, 0).accepted then Early(CommandAt(j, 0), Span(j.num, j.size)) else 0
  }

  lemma FirstEarlyIs(j: Job)
    ensures FirstEarly(j) == if CommandAt(j, 0).accepted then Early(CommandAt(j, 0), Span(j.num, j.size)) else 0
  {
  }

  /** So far each attempt was repeated, from the sector its successor began at. */
  ghost predicate Retried(j: Job, resumed: seq<nat>, done: nat)
    requires IsJob(j)
  {
    done == DoneAt(j, |resumed|) && forall i :: 0 <= i < |resumed| ==> GoesOn(j, i) && resumed[i] == DoneAt(j, i + 1)
  }

  lemma RetriedStart(j: Job)
    requires IsJob(j)
    ensures Retried(j, [], 0)
  {
  }

  lemma RetriedNext(j: Job, resumed: seq<nat>, done: nat, next: nat)
    requires IsJob(j) && Retried(j, resumed, done) && GoesOn(j, |resumed|) && next == DoneAt(j, |resumed| + 1)
    ensures Retried(j, resumed + [next], next)
  {
    hide GoesOn, DoneAt;
  }

  lemma RetriedEnds(j: Job, resumed: seq<nat>, done: nat)
    requires IsJob(j) && Retried(j, resumed, done) && |resumed| <= RETRIES && (|resumed| == RETRIES || !GoesOn(j, |resumed|))
    ensures EndsWith(j, |resumed|) && forall i :: 0 <= i < |resumed| ==> resumed[i] == DoneAt(j, i + 1)
  {
    hide GoesOn, DoneAt;
  }

  lemma AttemptIs(j: Job, resumed: seq<nat>, done: nat)
    requires IsJob(j) && Retried(j, resumed, done)
    ensures var k := |resumed|;
      AttemptAt(j, k) ==
        CommandGot(CommandAt(j, k), if done <= j.num then j.num - done else 0, j.size, j.maxPayload, if k == 0 then j.held else 0)
  {
    hide CommandGot, DoneAt, GoesOn;
  }

  /** A first command that is granted is enough. */
  lemma GrantedAtOnce(j: Job, k: nat)
    requires IsJob(j) && Grants(CommandAt(j, 0)) && EndsWith(j, k)
    ensures k == 0 && AttemptAt(j, 0).whole
  {
    hide CommandGot, Grants;
    CommandExactly(CommandAt(j, 0), LeftAt(j, 0), j.size, j.maxPayload, j.held);
    OneEnd(j, 0, k);
  }

  lemma OneEnd(j: Job, n: nat, k: nat)
    requires IsJob(j) && EndsWith(j, n) && EndsWith(j, k)
    ensures n == k
  {
  }

  /** After failures that each brought a sector, a granted command makes the read succeed, if it comes soon enough. */
  lemma GrantedLater(j: Job, n: nat, k: nat)
    requires IsJob(j) && n <= RETRIES && (forall i :: 0 <= i < n ==> GoesOn(j, i)) && Grants(CommandAt(j, n)) && EndsWith(j, k)
    ensures k == n && AttemptAt(j, k).whole
  {
    hide CommandGot, Grants;
    CommandExactly(CommandAt(j, n), LeftAt(j, n), j.size, j.maxPayload, if n == 0 then j.held else 0);
    OneEnd(j, n, k);
  }

  predicate DifferFirst(s: seq<byte>, t: seq<byte>) {
    s != [] && t != [] && s[0] != t[0]
  }

  /**
   * With a stale first byte that differs from the range, a successful read is right exactly when raw
   * bytes came with the first acknowledgement; and a device that grants the command makes it succeed.
   */
  method StaleRead(kept: Remainder, disk: seq<byte>, start: nat, num: nat, size: nat, maxPayload: nat, commands: seq<Command>)
      returns (ok: bool, bytes: seq<byte>, early: nat)
    requires kept.Valid() && 0 < size <= MIN_BUFFER && num > 0 && (start + num) * size <= |disk|
    requires DifferFirst(kept.Held(), Sectors(disk, start, num, size))
    modifies kept, kept.buf
    ensures ok ==> (bytes == Sectors(disk, start, num, size) <==> early > 0)
    ensures commands == [] || Grants(commands[0]) ==> ok
    ensures early == if commands != [] && commands[0].accepted then Early(commands[0], Span(num, size)) else 0
  {
    hide Sectors, AttemptAt, DoneAt, Grants, EndsWith;
    var file;
    ghost var resumed, held, range := [], kept.Held(), Sectors(disk, start, num, size);
    ghost var job := Job(num, size, maxPayload, |held|, commands);
    ok, file, early, resumed := ReadToFile(kept, disk, start, num, size, maxPayload, commands);
    bytes := file.bytes;
    assert BeginsStale(bytes, held, size) ==> bytes[..1] == held[..1];
    GrantedByDefault();
    if commands == [] || Grants(commands[0]) {
      GrantedAtOnce(job, |resumed|);
    }
  }

  lemma GrantedByDefault()
    ensures Grants(Command(true, 0, [], true))
  {
  }

  /** A byte left by an earlier command, and a device that does all that is asked: the read succeeds with a wrong file. */
  method StaleSuccess(kept: Remainder, disk: seq<byte>) returns (ok: bool, bytes: seq<byte>)
    requires kept.Valid() && |disk| >= 512 && kept.Held() == [1] && disk[0] == 0
    modifies kept, kept.buf
    ensures ok && bytes != Sectors(disk, 0, 1, 512)
  {
    var early;
    ok, bytes, early := StaleRead(kept, disk, 0, 1, 512, MIN_BUFFER, []);
  }

  /** The retry points so far ascend from 0 to `done`. */
  ghost predicate AscendingTo(s: seq<nat>, done: nat) {
    Ascending([0] + s) && ([0] + s)[|s|] == done
  }

  lemma AscendingStart()
    ensures AscendingTo([], 0)
  {
  }

  lemma AscendingNext(s: seq<nat>, done: nat, next: nat)
    requires AscendingTo(s, done) && done < next
    ensures AscendingTo(s + [next], next)
  {
    var t := [0] + s;
    assert [0] + (s + [next]) == t + [next];
    assert forall i :: 0 <= i < |t| ==> t[i] <= t[|s|];
  }

  lemma ResumedWithin(s: seq<nat>, done: nat, num: nat, size: nat, pos: nat)
    requires AscendingTo(s, done) && done <= num && done * size <= pos
    ensures Ascending([0] + s) && ([0] + s)[|s|] == done && forall i :: 0 <= i < |s| ==> s[i] <= num && s[i] * size <= pos
  {
    var t := [0] + s;
    forall i | 0 <= i < |s|
      ensures s[i] <= num && s[i] * size <= pos
    {
      assert t[i + 1] == s[i] && (i + 1 < |s| ==> t[i + 1] < t[|s|]);
      Product(s[i], done, size);
    }
  }

  lemma PayloadIs(disk: seq<byte>, start: nat, num: nat, size: nat, done: nat)
    requires (start + num) * size <= |disk| && done <= num
    ensures var range, payload := Sectors(disk, start, num, size), Payload(disk, start, num, size, done);
      && |range| == Span(num, size) && Span(done, size) <= |range|
      && payload == range[Span(done, size)..] && |payload| == Span(num - done, size)
  {
    Product(start + done, start + num, size);
    Product(start, start + num, size);
    Product(done, num, size);
    Distribute(start, num, size);
    Distribute(start, done, size);
    Distribute(num - done, done, size);
    Seqs.SliceOfSlice(disk, start * size, (start + num) * size, done * size, num * size);
  }

  lemma Distribute(a: nat, b: nat, size: nat)
    ensures (a + b) * size == a * size + b * size
  {
  }
}
