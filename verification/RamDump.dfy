/**
 * Saving a memory region of the device: requests of bounded size, reads of any size, and writes that
 * may be short or fail. Every loop is proved against a function of the answers to its requests, and
 * what a dump then holds is proved of the functions.
 */
module RamDump {
  import opened Answers
  import opened Bytes

  const DEBUG_BLOCK := 524288

  // ---- Requests ----

  datatype MemRead = MemRead(addr: nat, len: nat)

  function RequestAt(addr: nat, chunk: nat, len: nat): MemRead {
    MemRead((addr + chunk) % SIZE_T, len)
  }

  /** The requests cover the first `upto` bytes of a region, in order and without overlap. */
  ghost predicate CoversRegion(requests: seq<MemRead>, addr: nat, upto: nat) {
    if requests == [] then upto == 0
    else
      var last := requests[|requests| - 1];
      && last.len <= upto && last == RequestAt(addr, upto - last.len, last.len)
      && CoversRegion(requests[..|requests| - 1], addr, upto - last.len)
  }

  lemma NothingCovered(addr: nat)
    ensures CoversRegion([], addr, 0)
  {
  }

  lemma CoveredNext(requests: seq<MemRead>, addr: nat, upto: nat, len: nat)
    requires CoversRegion(requests, addr, upto)
    ensures CoversRegion(requests + [RequestAt(addr, upto, len)], addr, upto + len)
  {
    assert (requests + [RequestAt(addr, upto, len)])[..|requests|] == requests;
  }

  // ---- The port and the file ----

  /** The count a read returns when `size` bytes are there; behind the last answer it delivers all it can, and fails when there is nothing. */
  function ReadCount(answers: seq<int>, size: nat): (n: int)
    ensures n <= size
  {
    if answers == [] then (if size == 0 then -1 else size)
    else if answers[0] < 0 then -1
    else Min(answers[0], size)
  }

  /** The count a write of `size` bytes returns; behind the last answer it takes all. */
  function WriteCount(answers: seq<int>, size: nat): (n: int)
    ensures n <= size
  {
    if answers == [] then size else if answers[0] < 0 then -1 else Min(answers[0], size)
  }

  class MemoryPort {
    var pending: seq<byte>
    var answers: seq<int>

    constructor (answers: seq<int>)
      ensures pending == [] && this.answers == answers
    {
      pending, this.answers := [], answers;
    }

    /** The device's answer to an accepted request. */
    method Answer(data: seq<byte>)
      modifies this
      ensures pending == old(pending) + data && answers == old(answers)
    {
      pending := pending + data;
    }

    method Read(limit: nat) returns (n: int, data: seq<byte>)
      modifies this
      ensures n == ReadCount(old(answers), Min(|old(pending)|, limit)) && answers == Later(old(answers))
      ensures data == (if n > 0 then old(pending)[..n] else []) && pending == old(pending)[|data|..]
    {
      n := ReadCount(answers, Min(|pending|, limit));
      answers := Later(answers);
      data := if n > 0 then pending[..n] else [];
      pending := pending[|data|..];
    }
  }

  /** The dump file, opened where it is and not emptied. */
  class DumpFile {
    ghost const before: seq<byte>
    ghost var wrote: seq<byte>
    var bytes: seq<byte>
    var pos: nat
    var answers: seq<int>

    ghost predicate Valid()
      reads this
    {
      bytes == Overlay(before, 0, wrote) && pos == |wrote|
    }

    constructor (found: seq<byte>, answers: seq<int>)
      ensures Valid() && before == found && wrote == [] && this.answers == answers
    {
      before, wrote, bytes, pos, this.answers := found, [], found, 0, answers;
      new;
      OverlayNothing(found, 0);
    }

    method Write(data: seq<byte>) returns (n: int)
      requires Valid()
      modifies this
      ensures Valid() && n == WriteCount(old(answers), |data|) && answers == Later(old(answers))
      ensures wrote == old(wrote) + if n > 0 then data[..n] else []
    {
      n := WriteCount(answers, |data|);
      answers := Later(answers);
      if n > 0 {
        OverlayMore(before, 0, wrote, data[..n]);
        bytes := Overlay(bytes, pos, data[..n]);
        pos := pos + n;
        wrote := wrote + data[..n];
      }
    }
  }

  /** A file keeps whatever lies behind the bytes written over it. */
  lemma DumpIsRegion(before: seq<byte>, mem: seq<byte>)
    ensures Overlay(before, 0, mem) == mem + (if |mem| < |before| then before[|mem|..] else [])
    ensures Overlay(before, 0, mem) == mem <==> |before| <= |mem|
  {
    assert |Overlay(before, 0, mem)| == if |before| > |mem| then |before| else |mem|;
  }

  // ---- Writing out one read ----

  /** A size computed in 64 bits. */
  function Wrapped(x: int): (w: nat)
    ensures w < SIZE_T && (0 <= x < SIZE_T ==> w == x) && (-SIZE_T <= x < 0 ==> w == x + SIZE_T)
  {
    x % SIZE_T
  }

  datatype Saved = Saved(bytes: seq<byte>, cursor: nat, ok: bool, toPut: seq<int>)

  /**
   * What goes into the file from the cursor on, and where the cursor ends. The count of a write is an
   * unsigned number, so a failed write takes the cursor back by one, or at the start behind the end.
   */
  function Saves(data: seq<byte>, cursor: nat, toPut: seq<int>): Saved
    decreases |toPut|, if cursor < |data| then |data| - cursor else 0
  {
    if cursor >= |data| then Saved([], cursor, true, toPut)
    else
      var n := WriteCount(toPut, |data| - cursor);
      if n == 0 then Saved([], cursor, false, Later(toPut))
      else
        var rest := Saves(data, if n < 0 then Wrapped(cursor - 1) else cursor + n, Later(toPut));
        if n < 0 then rest else Saved(data[cursor..cursor + n] + rest.bytes, rest.cursor, rest.ok, rest.toPut)
  }

  lemma {:induction false} SavesStep(data: seq<byte>, cursor: nat, toPut: seq<int>)
    requires cursor < |data|
    ensures var n := WriteCount(toPut, |data| - cursor);
      if n == 0 then Saves(data, cursor, toPut) == Saved([], cursor, false, Later(toPut))
      else
        var rest := Saves(data, if n < 0 then Wrapped(cursor - 1) else cursor + n, Later(toPut));
        Saves(data, cursor, toPut) ==
          if n < 0 then rest else Saved(data[cursor..cursor + n] + rest.bytes, rest.cursor, rest.ok, rest.toPut)
  {
    hide WriteCount, Wrapped;
  }

  lemma SavesEnds(data: seq<byte>, cursor: nat, toPut: seq<int>)
    requires cursor >= |data|
    ensures Saves(data, cursor, toPut) == Saved([], cursor, true, toPut)
  {
  }

  /** What is in the file and what will go into it make up the whole. */
  ghost predicate SavesOn(whole: Saved, before: seq<byte>, wrote: seq<byte>, rest: Saved) {
    before + whole.bytes == wrote + rest.bytes && whole.(bytes := []) == rest.(bytes := [])
  }

  lemma SavesOnNext(whole: Saved, before: seq<byte>, wrote: seq<byte>, piece: seq<byte>, rest: Saved)
    requires SavesOn(whole, before, wrote, rest.(bytes := piece + rest.bytes))
    ensures SavesOn(whole, before, wrote + piece, rest)
  {
  }

  lemma SavesOnStart(whole: Saved, before: seq<byte>)
    ensures SavesOn(whole, before, before, whole)
  {
  }

  lemma SavesOnEnds(whole: Saved, before: seq<byte>, wrote: seq<byte>, rest: Saved)
    requires SavesOn(whole, before, wrote, rest) && rest.bytes == []
    ensures wrote == before + whole.bytes && rest == whole.(bytes := [])
  {
    assert wrote + rest.bytes == wrote;
  }

  method WriteOut(file: DumpFile, data: seq<byte>) returns (ok: bool, cursor: nat)
    requires file.Valid() && |data| <= 524288
    modifies file
    ensures file.Valid()
    ensures var r := Saves(data, 0, old(file.answers));
      file.wrote == old(file.wrote) + r.bytes && cursor == r.cursor && ok == r.ok && file.answers == r.toPut
  {
    hide Overlay, Saves, WriteCount, Wrapped, SavesOn;
    ghost var whole, before := Saves(data, 0, file.answers), file.wrote;
    SavesOnStart(whole, before);
    cursor := 0;
    while cursor < |data|
      invariant 0 <= cursor && file.Valid() && SavesOn(whole, before, file.wrote, Saves(data, cursor, file.answers))
      decreases |file.answers|, |data| - cursor
    {
      SavesStep(data, cursor, file.answers);
      CountSign(file.answers, |data| - cursor);
      ghost var wrote, from := file.wrote, cursor;
      var written := file.Write(data[cursor..]);
      assert written <= 0 ==> file.wrote == wrote;
      if written == 0 {
        SavesOnEnds(whole, before, file.wrote, Saved([], cursor, false, file.answers));
        ok := false;
        return;
      }
      cursor := Wrapped(cursor + written);
      if written > 0 {
        assert data[from..][..written] == data[from..cursor];
        SavesOnNext(whole, before, wrote, data[from..cursor], Saves(data, cursor, file.answers));
      }
    }
    SavesEnds(data, cursor, file.answers);
    SavesOnEnds(whole, before, file.wrote, Saved([], cursor, true, file.answers));
    ok := true;
  }

  lemma CountSign(answers: seq<int>, size: nat)
    requires size > 0
    ensures WriteCount(answers, size) >= -1 && |Later(answers)| <= |answers|
    ensures if answers == [] then WriteCount(answers, size) == size else |Later(answers)| < |answers|
  {
  }

  /** A write that fails behind another one makes the byte in front of the cursor go out twice. */
  lemma WrittenTwice(data: seq<byte>)
    requires |data| >= 2
    ensures Saves(data, 0, [1, -1]) == Saved(data[..1] + data, |data|, true, [])
  {
    var toPut: seq<int> := [1, -1];
    assert Later(toPut) == [-1];
    SavesStep(data, 0, toPut);
    SavesStep(data, 1, [-1]);
    SavesStep(data, 0, []);
    SavesEnds(data, |data|, []);
    assert data[0..|data|] + [] == data && data[0..1] == data[..1];
  }

  // ---- The answer to one request ----

  datatype Block = Block(bytes: seq<byte>, ok: bool, pending: seq<byte>, toGet: seq<int>, toPut: seq<int>)

  /** Reads and saves until `remain` bytes are counted. */
  function BlockRun(remain: nat, offset: nat, pending: seq<byte>, toGet: seq<int>, toPut: seq<int>): Block
    decreases |toGet|, |pending|
  {
    if offset >= remain then Block([], true, pending, toGet, toPut)
    else
      var n := ReadCount(toGet, Min(|pending|, DEBUG_BLOCK));
      if n < 0 then Block([], false, pending, Later(toGet), toPut)
      else
        var saved := Saves(pending[..n], 0, toPut);
        if !saved.ok then Block(saved.bytes, false, pending[n..], Later(toGet), saved.toPut)
        else
          var rest := BlockRun(remain, Wrapped(offset + saved.cursor), pending[n..], Later(toGet), saved.toPut);
          rest.(bytes := saved.bytes + rest.bytes)
  }

  lemma {:induction false} BlockStep(remain: nat, offset: nat, pending: seq<byte>, toGet: seq<int>, toPut: seq<int>)
    requires offset < remain
    ensures var n := ReadCount(toGet, Min(|pending|, DEBUG_BLOCK));
      if n < 0 then BlockRun(remain, offset, pending, toGet, toPut) == Block([], false, pending, Later(toGet), toPut)
      else
        var saved := Saves(pending[..n], 0, toPut);
        BlockRun(remain, offset, pending, toGet, toPut) ==
          if !saved.ok then Block(saved.bytes, false, pending[n..], Later(toGet), saved.toPut)
          else
            var rest := BlockRun(remain, Wrapped(offset + saved.cursor), pending[n..], Later(toGet), saved.toPut);
            rest.(bytes := saved.bytes + rest.bytes)
  {
    hide ReadCount, Wrapped, Saves;
  }

  lemma BlockEnds(remain: nat, offset: nat, pending: seq<byte>, toGet: seq<int>, toPut: seq<int>)
    requires offset >= remain
    ensures BlockRun(remain, offset, pending, toGet, toPut) == Block([], true, pending, toGet, toPut)
  {
  }

  ghost predicate BlockOn(whole: Block, before: seq<byte>, wrote: seq<byte>, rest: Block) {
    before + whole.bytes == wrote + rest.bytes && whole.(bytes := []) == rest.(bytes := [])
  }

  lemma BlockOnStart(whole: Block, before: seq<byte>)
    ensures BlockOn(whole, before, before, whole)
  {
  }

  lemma BlockOnNext(whole: Block, before: seq<byte>, wrote: seq<byte>, piece: seq<byte>, rest: Block)
    requires BlockOn(whole, before, wrote, rest.(bytes := piece + rest.bytes))
    ensures BlockOn(whole, before, wrote + piece, rest)
  {
  }

  lemma BlockOnEnds(whole: Block, before: seq<byte>, wrote: seq<byte>, rest: Block)
    requires BlockOn(whole, before, wrote, rest)
    ensures before + whole.bytes == wrote + rest.bytes && whole.ok == rest.ok && whole.pending == rest.pending
    ensures whole.toGet == rest.toGet && whole.toPut == rest.toPut
  {
  }

  method SaveAnswer(file: DumpFile, port: MemoryPort, remain: nat) returns (ok: bool)
    requires file.Valid()
    modifies file, port
    ensures file.Valid()
    ensures var b := BlockRun(remain, 0, old(port.pending), old(port.answers), old(file.answers));
      && file.wrote == old(file.wrote) + b.bytes && ok == b.ok
      && port.pending == b.pending && port.answers == b.toGet && file.answers == b.toPut
  {
    hide Overlay, Saves, BlockRun, BlockOn, ReadCount, Wrapped;
    ghost var whole, before := BlockRun(remain, 0, port.pending, port.answers, file.answers), file.wrote;
    BlockOnStart(whole, before);
    var offset := 0;
    while offset < remain
      invariant 0 <= offset && file.Valid()
      invariant BlockOn(whole, before, file.wrote, BlockRun(remain, offset, port.pending, port.answers, file.answers))
      decreases |port.answers|, |port.pending|
    {
      BlockStep(remain, offset, port.pending, port.answers, file.answers);
      ghost var wrote, pending := file.wrote, port.pending;
      ReadSome(port.answers, Min(|pending|, DEBUG_BLOCK));
      var n, data := port.Read(DEBUG_BLOCK);
      if n < 0 {
        BlockOnEnds(whole, before, file.wrote, Block([], false, port.pending, port.answers, file.answers));
        return false;
      }
      assert data == pending[..n];
      ghost var saved := Saves(data, 0, file.answers);
      var cursor;
      ok, cursor := WriteOut(file, data);
      if !ok {
        BlockOnEnds(whole, before, wrote, Block(saved.bytes, false, port.pending, port.answers, file.answers));
        return;
      }
      offset := Wrapped(offset + cursor);
      BlockOnNext(whole, before, wrote, saved.bytes, BlockRun(remain, offset, port.pending, port.answers, file.answers));
    }
    BlockEnds(remain, offset, port.pending, port.answers, file.answers);
    BlockOnEnds(whole, before, file.wrote, Block([], true, port.pending, port.answers, file.answers));
    ok := true;
  }

  lemma ReadSome(answers: seq<int>, size: nat)
    ensures |Later(answers)| <= |answers| && (answers != [] ==> |Later(answers)| < |answers|)
    ensures answers == [] ==> ReadCount(answers, size) < 0 || (size > 0 && ReadCount(answers, size) == size)
  {
  }

  // ---- The dump ----

  /** What is written, how many bytes of the region are asked for, and whether the dump was not cut off. */
  datatype Dump = Dump(bytes: seq<byte>, asked: nat, whole: bool)

  /** The region from `chunk` on, with `accepted` more requests taken; what a read behind each block finds is dropped. */
  function DumpRun(mem: seq<byte>, chunk: nat, accepted: nat, pending: seq<byte>, toGet: seq<int>, toPut: seq<int>): Dump
    decreases accepted
  {
    if chunk >= |mem| then Dump([], |mem|, true)
    else if accepted == 0 then Dump([], chunk, false)
    else
      var remain := Min(|mem| - chunk, DEBUG_BLOCK);
      var b := BlockRun(remain, 0, pending + mem[chunk..chunk + remain], toGet, toPut);
      if !b.ok then Dump(b.bytes, chunk + remain, false)
      else
        var rest := DumpRun(mem, chunk + DEBUG_BLOCK, accepted - 1, Dropped(b.pending, b.toGet), Later(b.toGet), b.toPut);
        rest.(bytes := b.bytes + rest.bytes)
  }

  function Dropped(pending: seq<byte>, toGet: seq<int>): seq<byte> {
    var n := ReadCount(toGet, Min(|pending|, DEBUG_BLOCK));
    if n > 0 then pending[n..] else pending
  }

  lemma {:induction false} DumpStep(mem: seq<byte>, chunk: nat, accepted: nat, pending: seq<byte>, toGet: seq<int>, toPut: seq<int>)
    ensures chunk >= |mem| ==> DumpRun(mem, chunk, accepted, pending, toGet, toPut) == Dump([], |mem|, true)
    ensures chunk < |mem| && accepted == 0 ==> DumpRun(mem, chunk, accepted, pending, toGet, toPut) == Dump([], chunk, false)
    ensures chunk < |mem| && accepted > 0 ==>
      var remain := Min(|mem| - chunk, DEBUG_BLOCK);
      var b := BlockRun(remain, 0, pending + mem[chunk..chunk + remain], toGet, toPut);
      DumpRun(mem, chunk, accepted, pending, toGet, toPut) ==
        if !b.ok then Dump(b.bytes, chunk + remain, false)
        else
          var rest := DumpRun(mem, chunk + DEBUG_BLOCK, accepted - 1, Dropped(b.pending, b.toGet), Later(b.toGet), b.toPut);
          rest.(bytes := b.bytes + rest.bytes)
  {
    hide BlockRun, Dropped;
  }

  ghost predicate DumpOn(whole: Dump, wrote: seq<byte>, rest: Dump) {
    whole == rest.(bytes := wrote + rest.bytes)
  }

  lemma DumpOnStart(whole: Dump)
    ensures DumpOn(whole, [], whole)
  {
    assert [] + whole.bytes == whole.bytes;
  }

  lemma DumpOnNext(whole: Dump, wrote: seq<byte>, piece: seq<byte>, rest: Dump)
    requires DumpOn(whole, wrote, rest.(bytes := piece + rest.bytes))
    ensures DumpOn(whole, wrote + piece, rest)
  {
    assert wrote + (piece + rest.bytes) == wrote + piece + rest.bytes;
  }

  lemma DumpOnEnds(whole: Dump, wrote: seq<byte>, rest: Dump)
    requires DumpOn(whole, wrote, rest)
    ensures whole.bytes == wrote + rest.bytes && whole.asked == rest.asked && whole.whole == rest.whole
    ensures rest.bytes == [] ==> whole.bytes == wrote
  {
    assert wrote + [] == wrote;
  }

  /**
   * Saves the `|mem|` bytes at `addr` over the file found under the region's name. Each request is
   * answered with the bytes it names; `accepted` requests are taken, and the numbers of `toGet` and
   * `toPut` answer the reads and writes. Zero is returned in every case.
   */
  method DumpRegion(mem: seq<byte>, addr: nat, found: seq<byte>, accepted: nat, toGet: seq<int>, toPut: seq<int>)
      returns (ret: int, bytes: seq<byte>, requests: seq<MemRead>)
    requires |mem| < SIZE_T - 524288
    ensures ret == 0
    ensures var dump := DumpRun(mem, 0, accepted, [], toGet, toPut);
      bytes == Overlay(found, 0, dump.bytes) && dump.asked <= |mem| && CoversRegion(requests, addr, dump.asked)
  {
    hide CoversRegion, Overlay, RequestAt, BlockRun, DumpRun, DumpOn, Dropped;
    var file := new DumpFile(found, toPut);
    var port := new MemoryPort(toGet);
    ghost var whole := DumpRun(mem, 0, accepted, [], toGet, toPut);
    requests, ret := [], 0;
    var chunk := 0;
    NothingCovered(addr);
    DumpOnStart(whole);
    while chunk < |mem|
      invariant 0 <= chunk && |requests| <= accepted
      invariant file.Valid() && file.before == found && fresh(file) && fresh(port)
      invariant CoversRegion(requests, addr, Min(chunk, |mem|))
      invariant DumpOn(whole, file.wrote, DumpRun(mem, chunk, accepted - |requests|, port.pending, port.answers, file.answers))
    {
      DumpStep(mem, chunk, accepted - |requests|, port.pending, port.answers, file.answers);
      if |requests| >= accepted {
        DumpOnEnds(whole, file.wrote, Dump([], chunk, false));
        return 0, file.bytes, requests;
      }
      var remain := Min(|mem| - chunk, DEBUG_BLOCK);
      CoveredNext(requests, addr, chunk, remain);
      requests := requests + [RequestAt(addr, chunk, remain)];
      port.Answer(mem[chunk..chunk + remain]);
      ghost var wrote, b := file.wrote, BlockRun(remain, 0, port.pending, port.answers, file.answers);
      var ok := SaveAnswer(file, port, remain);
      if !ok {
        DumpOnEnds(whole, wrote, Dump(b.bytes, chunk + remain, false));
        return 0, file.bytes, requests;
      }
      DroppedIs(port.pending, port.answers);
      var n, dropped := port.Read(DEBUG_BLOCK);
      chunk := chunk + DEBUG_BLOCK;
      DumpOnNext(whole, wrote, b.bytes, DumpRun(mem, chunk, accepted - |requests|, port.pending, port.answers, file.answers));
    }
    DumpStep(mem, chunk, accepted - |requests|, port.pending, port.answers, file.answers);
    DumpOnEnds(whole, file.wrote, Dump([], |mem|, true));
    bytes := file.bytes;
  }

  lemma DroppedIs(pending: seq<byte>, toGet: seq<int>)
    ensures var n := ReadCount(toGet, Min(|pending|, DEBUG_BLOCK));
      Dropped(pending, toGet) == pending[|if n > 0 then pending[..n] else []|..]
  {
    assert pending[0..] == pending;
  }

  // ---- What a dump holds ----

  ghost predicate NoneNegative(answers: seq<int>) {
    forall i :: 0 <= i < |answers| ==> answers[i] >= 0
  }

  lemma AnswersLeft(answers: seq<int>)
    ensures NoneNegative(answers) ==> NoneNegative(Later(answers)) && (answers != [] ==> answers[0] >= 0)
    ensures AllPositive(answers) ==> AllPositive(Later(answers)) && NoneNegative(answers) && (answers != [] ==> answers[0] > 0)
  {
  }

  /** Without a failed write, a read is written out up to where the cursor stands, all of it unless a write takes nothing. */
  lemma {:induction false} SavesInOrder(data: seq<byte>, cursor: nat, toPut: seq<int>)
    requires NoneNegative(toPut) && cursor <= |data|
    ensures var r := Saves(data, cursor, toPut);
      && cursor <= r.cursor <= |data| && r.bytes == data[cursor..r.cursor] && (r.ok <==> r.cursor == |data|)
      && NoneNegative(r.toPut) && (AllPositive(toPut) ==> r.ok && AllPositive(r.toPut))
    decreases |toPut|, |data| - cursor
  {
    hide NoneNegative, AllPositive, Saves, WriteCount;
    if cursor == |data| {
      SavesEnds(data, cursor, toPut);
    } else {
      SavesStep(data, cursor, toPut);
      AnswersLeft(toPut);
      CountSign(toPut, |data| - cursor);
      NotFailed(toPut, |data| - cursor);
      var n := WriteCount(toPut, |data| - cursor);
      if n > 0 {
        SavesInOrder(data, cursor + n, Later(toPut));
        var r := Saves(data, cursor, toPut);
        assert data[cursor..cursor + n] + data[cursor + n..r.cursor] == data[cursor..r.cursor];
      }
    }
  }

  lemma NotFailed(toPut: seq<int>, size: nat)
    requires size > 0 && (toPut != [] ==> toPut[0] >= 0)
    ensures WriteCount(toPut, size) >= 0 && (WriteCount(toPut, size) == 0 <==> toPut != [] && toPut[0] == 0)
  {
  }

  /** Without a failed write, a block is saved from its beginning, and wholly exactly when nothing cuts it off. */
  lemma {:induction false} BlockInOrder(remain: nat, offset: nat, pending: seq<byte>, toGet: seq<int>, toPut: seq<int>)
    requires NoneNegative(toPut) && offset + |pending| == remain <= DEBUG_BLOCK
    ensures var b := BlockRun(remain, offset, pending, toGet, toPut);
      && b.bytes <= pending && (b.ok <==> b.bytes == pending) && (b.ok ==> b.pending == []) && NoneNegative(b.toPut)
      && (AllPositive(toPut) && NoneNegative(toGet) ==> b.ok && AllPositive(b.toPut) && NoneNegative(b.toGet))
    decreases |toGet|, |pending|
  {
    hide NoneNegative, AllPositive, Saves, BlockRun, ReadCount;
    AnswersLeft(toGet);
    if pending == [] {
      BlockEnds(remain, offset, pending, toGet, toPut);
    } else {
      BlockStep(remain, offset, pending, toGet, toPut);
      ReadSome(toGet, Min(|pending|, DEBUG_BLOCK));
      ReadFails(toGet, Min(|pending|, DEBUG_BLOCK));
      var n := ReadCount(toGet, Min(|pending|, DEBUG_BLOCK));
      if n >= 0 {
        var saved := Saves(pending[..n], 0, toPut);
        SavesInOrder(pending[..n], 0, toPut);
        SavedPart(pending, n, saved.cursor);
        if saved.ok {
          BlockInOrder(remain, offset + n, pending[n..], Later(toGet), saved.toPut);
          Parts(pending, n, BlockRun(remain, offset + n, pending[n..], Later(toGet), saved.toPut).bytes);
        }
      }
    }
  }

  lemma ReadFails(toGet: seq<int>, size: nat)
    requires size > 0
    ensures ReadCount(toGet, size) < 0 <==> toGet != [] && toGet[0] < 0
  {
  }

  lemma SavedPart(pending: seq<byte>, n: nat, cursor: nat)
    requires cursor <= n <= |pending|
    ensures pending[..n][0..cursor] <= pending && (pending[..n][0..cursor] == pending <==> cursor == |pending|)
    ensures cursor == n ==> pending[..n][0..cursor] == pending[..n]
  {
    assert pending[..n][0..cursor] == pending[..cursor];
  }

  lemma Parts(pending: seq<byte>, n: nat, more: seq<byte>)
    requires n <= |pending| && more <= pending[n..]
    ensures pending[..n] + more <= pending && (pending[..n] + more == pending <==> more == pending[n..])
  {
    assert pending == pending[..n] + pending[n..];
    assert (pending[..n] + more)[n..] == more;
  }

  /**
   * Without a failed write, a dump holds a beginning of the region, and all of it exactly when nothing
   * cuts it off: it is shorter after a refused request, a failed read or a write that takes nothing.
   */
  lemma {:induction false} DumpInOrder(mem: seq<byte>, chunk: nat, accepted: nat, toGet: seq<int>, toPut: seq<int>)
    requires NoneNegative(toPut)
    ensures var dump, rest := DumpRun(mem, chunk, accepted, [], toGet, toPut), mem[Min(chunk, |mem|)..];
      && dump.bytes <= rest && (dump.whole <==> dump.bytes == rest)
      && (AllPositive(toPut) && NoneNegative(toGet) ==> (dump.whole <==> |mem| <= chunk + accepted * 524288))
    decreases accepted
  {
    hide NoneNegative, AllPositive, BlockRun, DumpRun, Dropped;
    DumpStep(mem, chunk, accepted, [], toGet, toPut);
    if chunk < |mem| && accepted > 0 {
      var remain := Min(|mem| - chunk, DEBUG_BLOCK);
      var piece := mem[chunk..chunk + remain];
      assert [] + piece == piece;
      var b := BlockRun(remain, 0, piece, toGet, toPut);
      BlockInOrder(remain, 0, piece, toGet, toPut);
      BlockPart(mem, chunk, remain, b.bytes);
      if b.ok {
        NothingDropped(b.toGet);
        AnswersLeft(b.toGet);
        DumpInOrder(mem, chunk + DEBUG_BLOCK, accepted - 1, Later(b.toGet), b.toPut);
        var rest := mem[chunk..];
        assert rest[remain..] == mem[Min(chunk + DEBUG_BLOCK, |mem|)..] && rest[..remain] == piece;
        Parts(rest, remain, DumpRun(mem, chunk + DEBUG_BLOCK, accepted - 1, [], Later(b.toGet), b.toPut).bytes);
      }
    }
  }

  lemma BlockPart(mem: seq<byte>, chunk: nat, remain: nat, bytes: seq<byte>)
    requires chunk + remain <= |mem| && bytes <= mem[chunk..chunk + remain]
    ensures bytes <= mem[chunk..] && (bytes == mem[chunk..] ==> bytes == mem[chunk..chunk + remain])
  {
    assert mem[chunk..] == mem[chunk..chunk + remain] + mem[chunk + remain..];
  }

  lemma NothingDropped(toGet: seq<int>)
    ensures Dropped([], toGet) == []
  {
  }

  /** What is left of the old file shows exactly when it was longer than the dump. */
  lemma DumpExactly(mem: seq<byte>, found: seq<byte>, accepted: nat, toGet: seq<int>, toPut: seq<int>)
    requires NoneNegative(toPut)
    ensures var dump := DumpRun(mem, 0, accepted, [], toGet, toPut);
      && dump.bytes <= mem && (dump.whole <==> dump.bytes == mem)
      && (|found| <= |mem| && dump.whole ==> Overlay(found, 0, dump.bytes) == mem)
      && (dump.whole && Overlay(found, 0, dump.bytes) == mem ==> |found| <= |mem|)
    ensures AllPositive(toPut) && NoneNegative(toGet) ==>
      (DumpRun(mem, 0, accepted, [], toGet, toPut).whole <==> |mem| <= accepted * 524288)
  {
    hide DumpRun, Overlay, NoneNegative, AllPositive;
    DumpInOrder(mem, 0, accepted, toGet, toPut);
    assert mem[0..] == mem;
    DumpIsRegion(found, mem);
  }

  // ---- Failures nobody sees ----

  predicate FailsFirst(answers: seq<int>) {
    answers != [] && answers[0] < 0
  }

  /** A failed first read saves nothing, and neither does a failed first write of a region that one read delivers. */
  lemma NothingSaved(mem: seq<byte>, accepted: nat, toGet: seq<int>, toPut: seq<int>)
    requires accepted == 0 || FailsFirst(toGet) || (toGet == [] && FailsFirst(toPut) && |mem| <= 524288)
    ensures DumpRun(mem, 0, accepted, [], toGet, toPut).bytes == []
  {
    hide BlockRun, Saves, Dropped;
    DumpStep(mem, 0, accepted, [], toGet, toPut);
    if mem != [] && accepted > 0 {
      var remain := Min(|mem|, DEBUG_BLOCK);
      var piece := mem[0..remain];
      assert [] + piece == piece;
      BlockStep(remain, 0, piece, toGet, toPut);
      if !FailsFirst(toGet) {
        assert piece[..|piece|] == piece && piece == mem;
        SavesStep(piece, 0, toPut);
        SavesEnds(piece, SIZE_T - 1, Later(toPut));
        BlockEnds(remain, SIZE_T - 1, piece[|piece|..], [], Later(toPut));
        assert Saves(piece, 0, toPut) == Saved([], SIZE_T - 1, true, Later(toPut));
        DumpStep(mem, DEBUG_BLOCK, accepted - 1, Dropped([], []), [], Later(toPut));
      }
    }
  }

  /** A failed read, and even a failed write, leaves an empty dump and the same return value as a complete one. */
  method UnseenFailure(mem: seq<byte>, addr: nat, reading: bool) returns (ret: int, bytes: seq<byte>)
    requires 0 < |mem| <= 524288
    ensures ret == 0 && bytes != mem && bytes == []
  {
    hide DumpRun;
    var requests;
    ret, bytes, requests := DumpRegion(mem, addr, [], 1, if reading then [-1] else [], if reading then [] else [-1]);
    NothingSaved(mem, 1, if reading then [-1] else [], if reading then [] else [-1]);
  }

  /** A dump during which one write fails, and whose file begins with its first byte twice. */
  method DumpedTwice(mem: seq<byte>, addr: nat) returns (ret: int, bytes: seq<byte>)
    requires 2 <= |mem| <= 524288
    ensures ret == 0 && bytes == mem[..1] + mem
  {
    hide DumpRun, BlockRun, Saves, Dropped;
    var requests;
    ret, bytes, requests := DumpRegion(mem, addr, [], 1, [], [1, -1]);
    var n := |mem|;
    assert [] + mem[0..n] == mem && mem[..n] == mem;
    DumpStep(mem, 0, 1, [], [], [1, -1]);
    BlockStep(n, 0, mem, [], [1, -1]);
    WrittenTwice(mem);
    BlockEnds(n, n, mem[n..], [], []);
    DumpStep(mem, DEBUG_BLOCK, 0, Dropped([], []), [], []);
    assert mem[..1] + mem + [] == mem[..1] + mem;
    DumpIsRegion([], mem[..1] + mem);
  }
}
