/**
 * Writing archive members to the modem's file system, whose writes may accept only part of what
 * they are sent.
 */
module EfsRestore {
  import opened Answers
  import opened Bytes
  import Seqs
  import Tar
  import Xqcn
  import XqcnRoundTrip

  const MAX_WRITE := 1024
  const WRAP := 0x1_0000_0000

  // ---- The modem's answers ----

  /** The next answer; behind the last one a modem takes whatever it is sent. */
  function Answer(answers: seq<int>): int {
    if answers == [] then MAX_WRITE else answers[0]
  }

  /** The count a write of `sent` bytes is taken to have; a count above that is cut down to it. */
  function Taken(answers: seq<int>, sent: nat): (w: int)
    ensures w <= sent
  {
    if Answer(answers) < 0 then -1 else if Answer(answers) > sent then sent else Answer(answers)
  }

  /** The modem, seen through the file it has open and the answers to successive requests. */
  class Modem {
    var bytes: seq<byte>
    var answers: seq<int>

    constructor (answers: seq<int>)
      ensures bytes == [] && this.answers == answers
    {
      bytes, this.answers := [], answers;
    }

    /** Opens an empty file, unless refused. */
    method Open() returns (ok: bool)
      modifies this
      ensures ok == (Answer(old(answers)) >= 0) && answers == Later(old(answers))
      ensures ok ==> bytes == []
    {
      ok := Answer(answers) >= 0;
      answers := Later(answers);
      bytes := [];
    }

    /** Replaces a file as a whole, unless refused. */
    method Put(data: seq<byte>) returns (ok: bool)
      modifies this
      ensures ok == (Answer(old(answers)) >= 0) && answers == Later(old(answers))
      ensures ok ==> bytes == data
    {
      ok := Answer(answers) >= 0;
      answers := Later(answers);
      bytes := data;
    }

    /** Sends one write. Nothing is known of the file after a refusal. */
    method Write(offset: nat, data: seq<byte>) returns (w: int)
      requires offset < 0x1_0000_0000 && |data| <= 1024
      modifies this
      ensures w == Taken(old(answers), |data|) && answers == Later(old(answers))
      ensures w >= 0 ==> bytes == Overlay(old(bytes), offset, data[..w])
    {
      w := Taken(answers, |data|);
      answers := Later(answers);
      if w < 0 {
        bytes := *;
      } else {
        bytes := Overlay(bytes, offset, data[..w]);
      }
    }
  }

  lemma AppendHere(s: seq<byte>, data: seq<byte>)
    ensures Overlay(s, |s|, data) == s + data
  {
  }

  /** What `accepted` bytes of a member leave in the modem's file; the 32-bit offset limits both claims. */
  ghost predicate Received(bytes: seq<byte>, member: seq<byte>, accepted: nat) {
    && accepted <= |member|
    && (accepted <= WRAP ==> bytes == member[..accepted])
    && |bytes| < WRAP + MAX_WRITE
  }

  lemma ReceivedMore(bytes: seq<byte>, member: seq<byte>, accepted: nat, w: nat)
    requires Received(bytes, member, accepted) && accepted + w <= |member| && w <= MAX_WRITE
    ensures Received(Overlay(bytes, accepted % WRAP, member[accepted..accepted + w]), member, accepted + w)
  {
    hide Overlay;
    var data := member[accepted..accepted + w];
    if accepted < WRAP {
      AppendHere(bytes, data);
      assert member[..accepted] + data == member[..accepted + w];
    } else if w == 0 && accepted == WRAP {
      OverlayNothing(bytes, 0);
    }
  }

  /** How many bytes a read of the archive delivers when `most` are wanted and there: some, all behind the last count. */
  function Got(gets: seq<nat>, most: nat): (r: nat)
    ensures r <= most && (r == 0 <==> most == 0)
  {
    if gets == [] || gets[0] == 0 || gets[0] > most then most else gets[0]
  }

  /** How the writing of a file ends: with what left to write, and which counts and answers left to use. */
  datatype Run = Run(ok: bool, left: nat, gets: seq<nat>, answers: seq<int>)

  /** Writes `left` bytes, of which the archive holds `available`; what the modem does not take is read again. */
  function WriteRun(left: nat, available: nat, gets: seq<nat>, answers: seq<int>): (run: Run)
    ensures run.left <= left && (run.ok ==> run.left == 0)
  {
    if left == 0 then Run(true, 0, gets, answers)
    else
      var r := Got(gets, Min(available, Min(left, MAX_WRITE)));
      if r == 0 then Run(false, left, Later(gets), answers)
      else
        var w := Taken(answers, r);
        if w <= 0 then Run(false, left, Later(gets), Later(answers))
        else WriteRun(left - w, available - w, Later(gets), Later(answers))
  }

  /** Writing succeeds exactly when the archive holds the data and no answer used was zero or a refusal. */
  lemma {:induction false} WriteRunExactly(left: nat, available: nat, gets: seq<nat>, answers: seq<int>)
    ensures var run := WriteRun(left, available, gets, answers);
      && |run.answers| <= |answers| && answers == Used(answers, run.answers) + run.answers
      && (run.ok <==> left <= available && AllPositive(Used(answers, run.answers)))
    ensures AllPositive(answers) ==> AllPositive(WriteRun(left, available, gets, answers).answers)
  {
    hide Got, Taken, WriteRun, Used, AllPositive, Answer, Later;
    NoneUsed(answers);
    if left == 0 {
      WriteRunEnds(available, gets, answers);
    } else {
      WriteRunStep(left, available, gets, answers);
      var r := Got(gets, Min(available, Min(left, MAX_WRITE)));
      var w := Taken(answers, r);
      if r > 0 {
        TakenSign(answers, r);
        NoneUsed(Later(answers));
        if w > 0 {
          WriteRunExactly(left - w, available - w, Later(gets), Later(answers));
        }
        UsedFirst(answers, WriteRun(left, available, gets, answers).answers);
      }
    }
  }

  lemma TakenSign(answers: seq<int>, sent: nat)
    requires 0 < sent
    ensures |Later(answers)| <= |answers| && (Taken(answers, sent) > 0 <==> (answers != [] ==> answers[0] > 0))
  {
  }

  lemma {:induction false} EnoughAvailable(left: nat, available: nat, gets: seq<nat>, answers: seq<int>)
    requires left <= available
    ensures WriteRun(left, available, gets, answers) == WriteRun(left, left, gets, answers)
    decreases left
  {
    hide Got, Taken;
    if left > 0 {
      var r := Got(gets, Min(left, MAX_WRITE));
      var w := Taken(answers, r);
      if w > 0 {
        EnoughAvailable(left - w, available - w, Later(gets), Later(answers));
      }
    }
  }

  /**
   * Restores the member whose data starts at `start`. After a short write the archive is rewound,
   * so its cursor always stands behind the bytes the modem accepted.
   */
  method RestoreLarge(file: seq<byte>, start: nat, size: nat, modem: Modem, gets: seq<nat>)
      returns (ok: bool, pos: nat, rest: seq<nat>)
    requires start <= |file| && modem.bytes == []
    modifies modem
    ensures var run := WriteRun(size, |file| - start, gets, old(modem.answers));
      ok == run.ok && rest == run.gets && modem.answers == run.answers
    ensures |modem.answers| <= |old(modem.answers)|
    ensures ok <==> start + size <= |file| && AllPositive(Used(old(modem.answers), modem.answers))
    ensures ok && size <= 0x1_0000_0000 ==> modem.bytes == file[start..start + size]
    ensures ok && size >= 0x1_0000_0000 + 1024 ==> modem.bytes != file[start..start + size]
    ensures ok ==> pos == start + size + Tar.Padding(size)
    ensures !ok ==> start + size + Tar.Padding(size) <= pos <= start + size + Tar.Padding(size) + 1024
  {
    hide Overlay, Received, Tar.Padding, Got, Taken, WriteRun, AllPositive, Used;
    ok, pos, rest := true, start, gets;
    ghost var member := if start + size <= |file| then file[start..start + size] else file[start..];
    ghost var run := WriteRun(size, |file| - start, gets, modem.answers);
    WriteRunExactly(size, |file| - start, gets, modem.answers);
    var offset, remaining := 0, size;
    ReceivedNothing(member);
    while remaining > 0
      invariant 0 <= remaining <= size
      invariant pos == start + (size - remaining) <= |file|
      invariant offset == (size - remaining) % WRAP
      invariant Received(modem.bytes, member, size - remaining)
      invariant run == WriteRun(remaining, |file| - pos, rest, modem.answers)
    {
      WriteRunStep(remaining, |file| - pos, rest, modem.answers);
      var chunk := if remaining > MAX_WRITE then MAX_WRITE else remaining;
      var r := Got(rest, Min(|file| - pos, chunk));
      rest := Later(rest);
      if r == 0 {
        ok := false;
        break;
      }
      var data := file[pos..pos + r];
      pos := pos + r;
      ghost var before := modem.bytes;
      var w := modem.Write(offset, data);
      if w <= 0 || w > remaining {
        ok := false;
        break;
      }
      ghost var accepted: nat := size - remaining;
      Piece(file, start, size, accepted, r, w);
      ReceivedMore(before, member, accepted, w);
      offset := (offset + w) % WRAP;
      OffsetNext(accepted, w);
      remaining := remaining - w;
      if w < r {
        pos := pos + w - r;
      }
    }
    if ok {
      WriteRunEnds(|file| - pos, rest, modem.answers);
    }
    ReceivedWhole(modem.bytes, member, size - remaining);
    var blocks := (size + 511) / 512;
    Tar.WholeBlocks(size);
    var consumed := size - remaining;
    pos := pos + (blocks * 512 - consumed);
  }

  lemma WriteRunStep(left: nat, available: nat, gets: seq<nat>, answers: seq<int>)
    requires left > 0
    ensures var r := Got(gets, Min(available, Min(left, MAX_WRITE)));
      var w := Taken(answers, r);
      WriteRun(left, available, gets, answers) ==
        if r == 0 then Run(false, left, Later(gets), answers)
        else if w <= 0 then Run(false, left, Later(gets), Later(answers))
        else WriteRun(left - w, available - w, Later(gets), Later(answers))
  {
    hide Got, Taken;
  }

  lemma WriteRunEnds(available: nat, gets: seq<nat>, answers: seq<int>)
    ensures WriteRun(0, available, gets, answers) == Run(true, 0, gets, answers)
  {
  }

  lemma ReceivedNothing(member: seq<byte>)
    ensures Received([], member, 0)
  {
  }

  lemma ReceivedWhole(bytes: seq<byte>, member: seq<byte>, accepted: nat)
    ensures Received(bytes, member, accepted) && accepted == |member| <= WRAP ==> bytes == member
    ensures Received(bytes, member, accepted) && |member| >= WRAP + MAX_WRITE ==> bytes != member
  {
    assert member[..|member|] == member;
  }

  lemma OffsetNext(accepted: nat, w: nat)
    ensures (accepted % WRAP + w) % WRAP == (accepted + w) % WRAP
  {
  }

  lemma Piece(file: seq<byte>, start: nat, size: nat, accepted: nat, r: nat, w: nat)
    requires accepted + w <= size && w <= r && start + accepted + r <= |file|
    ensures var member := if start + size <= |file| then file[start..start + size] else file[start..];
      accepted + w <= |member| && file[start + accepted..start + accepted + r][..w] == member[accepted..accepted + w]
  {
    var s := file[start + accepted..start + accepted + r];
    assert s[..w] == s[0..w];
    Seqs.SliceOfSlice(file, start + accepted, start + accepted + r, 0, w);
    if start + size <= |file| {
      Seqs.SliceOfSlice(file, start, start + size, accepted, accepted + w);
    } else {
      Seqs.SliceOfSlice(file, start, |file|, accepted, accepted + w);
      assert file[start..|file|] == file[start..];
    }
  }

  const ITEM_PATHS: seq<seq<byte>> := [
    [47, 110, 118, 47, 105, 116, 101, 109, 95, 102, 105, 108, 101, 115, 47],
    [47, 110, 118, 47, 114, 101, 103, 95, 102, 105, 108, 101, 115, 47],
    [47, 99, 103, 112, 115, 47, 110, 118, 47, 105, 116, 101, 109, 95, 102, 105, 108, 101, 115, 47],
    [47, 115, 100, 47]
  ]

  /** Below "/nv/item_files/", "/nv/reg_files/", "/cgps/nv/item_files/" or "/sd/". */
  predicate IsItemPath(path: seq<byte>) {
    exists i :: 0 <= i < |ITEM_PATHS| && Xqcn.StartsWith(path, ITEM_PATHS[i])
  }

  /** The paths whose files are opened as items, by their first bytes. */
  lemma ItemPaths(path: seq<byte>)
    ensures IsItemPath(path) <==>
      || [47, 110, 118, 47, 105, 116, 101, 109, 95, 102, 105, 108, 101, 115, 47] <= path
      || [47, 110, 118, 47, 114, 101, 103, 95, 102, 105, 108, 101, 115, 47] <= path
      || [47, 99, 103, 112, 115, 47, 110, 118, 47, 105, 116, 101, 109, 95, 102, 105, 108, 101, 115, 47] <= path
      || [47, 115, 100, 47] <= path
  {
    assert ITEM_PATHS[0] <= path || ITEM_PATHS[1] <= path || ITEM_PATHS[2] <= path || ITEM_PATHS[3] <= path ==> IsItemPath(path);
  }

  /** What a request leads to, and the answers left. */
  datatype Granted = Granted(ok: bool, answers: seq<int>)

  /** An item is opened as such first, and like any other file when that is refused. */
  function Opened(item: bool, answers: seq<int>): Granted {
    if item && Answer(answers) < 0 then Granted(Answer(Later(answers)) >= 0, Later(Later(answers)))
    else Granted(Answer(answers) >= 0, Later(answers))
  }

  method OpenFile(modem: Modem, item: bool) returns (ok: bool)
    modifies modem
    ensures Granted(ok, modem.answers) == Opened(item, old(modem.answers))
    ensures ok ==> modem.bytes == []
  {
    ok := modem.Open();
    if !ok && item {
      ok := modem.Open();
    }
  }

  /** One attempt at a whole file: as one request, if it is small enough and taken, else piece by piece. */
  function WrittenOnce(size: nat, item: bool, answers: seq<int>): Granted {
    if size <= 6144 && Answer(answers) >= 0 then Granted(true, Later(answers))
    else
      var access := Opened(item, if size <= 6144 then Later(answers) else answers);
      if !access.ok then access
      else
        var run := WriteRun(size, size, [], access.answers);
        Granted(run.ok, run.answers)
  }

  /** Writes a buffer; it is the modem's file afterwards whenever the modem's answers let it. */
  method WriteFileOnce(data: seq<byte>, item: bool, modem: Modem) returns (ok: bool)
    requires |data| <= WRAP
    modifies modem
    ensures Granted(ok, modem.answers) == WrittenOnce(|data|, item, old(modem.answers))
    ensures ok ==> modem.bytes == data
  {
    hide Overlay, WriteRun, Opened;
    if |data| <= 6144 {
      var put := modem.Put(data);
      if put {
        return true;
      }
    }
    var access := OpenFile(modem, item);
    if !access {
      return false;
    }
    ghost var run := WriteRun(|data|, |data|, [], modem.answers);
    var offset, remaining := 0, |data|;
    while remaining > 0
      invariant 0 <= offset <= |data| && remaining == |data| - offset
      invariant modem.bytes == data[..offset]
      invariant run == WriteRun(remaining, remaining, [], modem.answers)
    {
      WriteRunStep(remaining, remaining, [], modem.answers);
      var chunk := if remaining > MAX_WRITE then MAX_WRITE else remaining;
      var piece := data[offset..offset + chunk];
      var w := modem.Write(offset, piece);
      if w <= 0 || w > remaining {
        return false;
      }
      AppendHere(data[..offset], piece[..w]);
      assert data[..offset] + piece[..w] == data[..offset + w];
      offset := offset + w;
      remaining := remaining - w;
    }
    WriteRunEnds(remaining, [], modem.answers);
    assert data[..|data|] == data;
    ok := true;
  }

  function Written(size: nat, item: bool, answers: seq<int>): Granted {
    var once := WrittenOnce(size, item, answers);
    if once.ok then once else WrittenOnce(size, item, once.answers)
  }

  /** One retry after the journal is flushed. */
  method WriteFile(data: seq<byte>, item: bool, modem: Modem) returns (ok: bool)
    requires |data| <= WRAP
    modifies modem
    ensures Granted(ok, modem.answers) == Written(|data|, item, old(modem.answers))
    ensures ok ==> modem.bytes == data
  {
    hide WrittenOnce;
    ok := WriteFileOnce(data, item, modem);
    if !ok {
      ok := WriteFileOnce(data, item, modem);
    }
  }

  /** A modem that refuses nothing and always takes something lets every file through. */
  lemma PositiveIsWritten(size: nat, available: nat, item: bool, gets: seq<nat>, answers: seq<int>)
    requires AllPositive(answers)
    ensures Opened(item, answers).ok && AllPositive(Opened(item, answers).answers)
    ensures Written(size, item, answers).ok && AllPositive(Written(size, item, answers).answers)
    ensures size <= available ==> WriteRun(size, available, gets, answers).ok && AllPositive(WriteRun(size, available, gets, answers).answers)
  {
    hide WriteRun;
    PositiveLater(answers);
    WriteRunExactly(size, available, gets, answers);
    WriteRunExactly(size, size, [], Later(answers));
  }

  // ---- A whole archive ----

  /** What became of one archive member. */
  datatype Outcome =
    | Stored(path: seq<byte>, contents: seq<byte>)
    | Refused(path: seq<byte>)
    | NvSent(item: nat, record: seq<byte>)
    | NvExcluded
    | NvUnnumbered
    | NoFile

  /** A member's name without trailing slashes. */
  function Trimmed(name: seq<byte>): seq<byte> {
    if |name| > 1 && name[|name| - 1] == Xqcn.SLASH then Trimmed(name[..|name| - 1]) else name
  }

  predicate IsNvMember(name: seq<byte>, size: nat) {
    Xqcn.StartsWith(name, Xqcn.NV_PREFIX) && size == Xqcn.NV_DATA
  }

  /** Items the restore skips. */
  const NV_EXCLUDED := [3252]

  /** Both the list of skipped items and the request take the low sixteen bits of a number. */
  function NvOutcome(id: word, record: seq<byte>): Outcome {
    if id % 0x1_0000 in NV_EXCLUDED then NvExcluded else NvSent(id % 0x1_0000, record)
  }

  /** A member stands for an NV item when its name begins with "nv_items/" and it holds 128 bytes; item 3252 is never sent. */
  lemma NvMembers(name: seq<byte>, size: nat, id: word, record: seq<byte>)
    ensures IsNvMember(name, size) <==> [110, 118, 95, 105, 116, 101, 109, 115, 47] <= name && size == 128
    ensures NvOutcome(id, record) == if id % 0x1_0000 == 3252 then NvExcluded else NvSent(id % 0x1_0000, record)
  {
  }

  /** An outcome that agrees with the entry the member was written from. */
  ghost predicate Agrees(e: Tar.Entry, o: Outcome)
    requires Tar.IsEntry(e)
  {
    var f := Tar.FieldsOf(Tar.Header(e));
    if Tar.IsFile(f) then AgreesFile(Trimmed(f.name), e.data, o) else o == NoFile
  }

  ghost predicate AgreesFile(name: seq<byte>, data: seq<byte>, o: Outcome) {
    if IsNvMember(name, |data|) then o == NvMemberOutcome(name, data)
    else o == FileOutcome(name, data, true) || o == FileOutcome(name, data, false)
  }

  function NvMemberOutcome(name: seq<byte>, data: seq<byte>): Outcome
    requires IsNvMember(name, |data|)
  {
    match Xqcn.ScanUnsigned(name[|Xqcn.NV_PREFIX|..])
    case Some(id) => NvOutcome(id, data)
    case None => NvUnnumbered
  }

  function FileOutcome(name: seq<byte>, data: seq<byte>, stored: bool): Outcome {
    if stored then Stored(Xqcn.Absolute(name), data) else Refused(Xqcn.Absolute(name))
  }

  /** Files above this size are written straight from the archive. */
  const SMALL := 2048

  /** How a regular member fares: only the writing of a large file can end the restore. */
  datatype Attempt = Attempt(ok: bool, stored: bool, gets: seq<nat>, answers: seq<int>)

  function FileRun(size: nat, item: bool, available: nat, gets: seq<nat>, answers: seq<int>): Attempt {
    if size <= SMALL then
      var written := Written(size, item, answers);
      Attempt(true, written.ok, gets, written.answers)
    else
      var access := Opened(item, answers);
      if !access.ok then Attempt(true, false, gets, access.answers)
      else
        var run := WriteRun(size, available, gets, access.answers);
        Attempt(run.ok, run.ok, run.gets, run.answers)
  }

  predicate IsItem(name: seq<byte>, mode: nat) {
    Tar.TypeBits(mode) == Tar.EFS_S_IFITM || IsItemPath(Xqcn.Absolute(name))
  }

  /** Restores one regular member whose data starts at `start`. */
  method RestoreFile(file: seq<byte>, start: nat, name: seq<byte>, mode: nat, size: nat, modem: Modem, gets: seq<nat>)
      returns (ok: bool, outcome: Outcome, pos: nat, rest: seq<nat>)
    requires start + size <= |file| && size < WRAP
    modifies modem
    ensures var data := file[start..start + size];
      if IsNvMember(name, size) then ok && outcome == NvMemberOutcome(name, data) && modem.answers == old(modem.answers) && rest == gets
      else
        var run := FileRun(size, IsItem(name, mode), |file| - start, gets, old(modem.answers));
        ok == run.ok && modem.answers == run.answers && rest == run.gets && (ok ==> outcome == FileOutcome(name, data, run.stored))
    ensures ok ==> pos == start + size + Tar.Padding(size)
    ensures !ok ==> size > 2048
  {
    hide Xqcn.ScanUnsigned, Tar.Padding, IsItem, Written, Opened, WriteRun, Used, AllPositive;
    var path := Xqcn.Absolute(name);
    var blocks := (size + 511) / 512;
    Tar.WholeBlocks(size);
    ok, outcome, pos, rest := true, Refused(path), start + blocks * 512, gets;
    if IsNvMember(name, size) {
      var id := Xqcn.ScanUnsigned(name[|Xqcn.NV_PREFIX|..]);
      outcome := if id.Some? then NvOutcome(id.value, file[start..start + size]) else NvUnnumbered;
      return;
    }
    var item := IsItem(name, mode);
    if size <= SMALL {
      var written := WriteFile(file[start..start + size], item, modem);
      if written {
        outcome := Stored(path, modem.bytes);
      }
      return;
    }
    var created := OpenFile(modem, item);
    if created {
      ok, pos, rest := RestoreLarge(file, start, size, modem, gets);
      outcome := Stored(path, modem.bytes);
    }
  }

  // ---- The restore as a whole ----

  datatype Restored = Restored(ok: bool, outcomes: seq<Outcome>)

  /** What a restore makes of archive members, by the counts of the archive's reads and the modem's answers. */
  function Restore(es: seq<Tar.Entry>, gets: seq<nat>, answers: seq<int>): Restored
    requires Tar.AreEntries(es)
  {
    if es == [] then Restored(true, [])
    else
      var f, data := Tar.FieldsOf(Tar.Header(es[0])), es[0].data;
      var name := Trimmed(f.name);
      if !Tar.IsFile(f) then Before(NoFile, Restore(es[1..], gets, answers))
      else if IsNvMember(name, |data|) then Before(NvMemberOutcome(name, data), Restore(es[1..], gets, answers))
      else
        var run := FileRun(|data|, IsItem(name, f.mode), |data|, gets, answers);
        if run.ok then Before(FileOutcome(name, data, run.stored), Restore(es[1..], run.gets, run.answers))
        else Restored(false, [])
  }

  function Before(o: Outcome, r: Restored): Restored {
    Restored(r.ok, [o] + r.outcomes)
  }

  /** A regular member of more than 2048 bytes. */
  ghost predicate IsLarge(e: Tar.Entry)
    requires Tar.IsEntry(e)
  {
    Tar.IsFile(Tar.FieldsOf(Tar.Header(e))) && |e.data| > 2048
  }

  /**
   * Whatever the modem answers, each outcome agrees with its member, and only a large file ends a
   * restore early: everything in front of it is reached.
   */
  lemma {:induction false} RestoreAgrees(es: seq<Tar.Entry>, gets: seq<nat>, answers: seq<int>)
    requires Tar.AreEntries(es)
    ensures var r := Restore(es, gets, answers);
      && (forall i :: 0 <= i < |r.outcomes| ==> i < |es| && Agrees(es[i], r.outcomes[i]))
      && (if r.ok then |r.outcomes| == |es| else |r.outcomes| < |es| && IsLarge(es[|r.outcomes|]))
    decreases |es|
  {
    hide Tar.FieldsOf, Tar.Header, Tar.IsEntry, Tar.IsFile, NvMemberOutcome, IsNvMember, IsItem, Written, Opened, WriteRun;
    if es != [] {
      var f, data := Tar.FieldsOf(Tar.Header(es[0])), es[0].data;
      if !Tar.IsFile(f) || IsNvMember(Trimmed(f.name), |data|) {
        RestoreAgrees(es[1..], gets, answers);
      } else {
        var run := FileRun(|data|, IsItem(Trimmed(f.name), f.mode), |data|, gets, answers);
        if run.ok {
          RestoreAgrees(es[1..], run.gets, run.answers);
        }
      }
    }
  }

  /** A modem that refuses nothing and always takes something ends up with every member. */
  lemma {:induction false} RestoreComplete(es: seq<Tar.Entry>, gets: seq<nat>, answers: seq<int>)
    requires Tar.AreEntries(es) && AllPositive(answers)
    ensures var r := Restore(es, gets, answers);
      r.ok && |r.outcomes| == |es| && forall i :: 0 <= i < |es| ==> !r.outcomes[i].Refused?
    decreases |es|
  {
    hide Tar.FieldsOf, Tar.Header, Tar.IsEntry, Tar.IsFile, IsNvMember, IsItem, AllPositive;
    if es != [] {
      var f, data := Tar.FieldsOf(Tar.Header(es[0])), es[0].data;
      var name := Trimmed(f.name);
      if !Tar.IsFile(f) || IsNvMember(name, |data|) {
        RestoreComplete(es[1..], gets, answers);
      } else {
        var item := IsItem(name, f.mode);
        FilePositive(|data|, item, gets, answers);
        var run := FileRun(|data|, item, |data|, gets, answers);
        RestoreComplete(es[1..], run.gets, run.answers);
      }
    }
  }

  lemma FilePositive(size: nat, item: bool, gets: seq<nat>, answers: seq<int>)
    requires AllPositive(answers)
    ensures var run := FileRun(size, item, size, gets, answers); run.ok && run.stored && AllPositive(run.answers)
  {
    hide Written, Opened, WriteRun, AllPositive;
    PositiveIsWritten(size, size, item, gets, answers);
    PositiveIsWritten(size, size, item, gets, Opened(item, answers).answers);
  }

  /**
   * Restores an archive the tool wrote. The restore ends early only at a regular member of more than
   * 2048 bytes; whatever is stored or sent equals the entry the member was written from, and a modem
   * that refuses nothing is sent or stores every regular member.
   */
  method RestoreArchive(es: seq<Tar.Entry>, file: seq<byte>, modem: Modem, gets: seq<nat>)
      returns (ok: bool, outcomes: seq<Outcome>)
    requires Tar.AreEntries(es) && file == Tar.Archive(es)
    modifies modem
    ensures Restored(ok, outcomes) == Restore(es, gets, old(modem.answers))
    ensures if ok then |outcomes| == |es| else |outcomes| < |es| && IsLarge(es[|outcomes|])
    ensures forall i :: 0 <= i < |outcomes| ==> Agrees(es[i], outcomes[i])
    ensures AllPositive(old(modem.answers)) ==> ok && forall i :: 0 <= i < |es| ==> !outcomes[i].Refused?
  {
    hide Agrees, AtMember, IsLarge, AllPositive, Restore, FileRun, NvMemberOutcome, IsNvMember, IsItem, Tar.Members, Tar.Header, Tar.FieldsOf,
      Tar.IsEntry, Tar.Checksum, Tar.StoredChecksum, Tar.Padding, Trimmed;
    ghost var whole := Restore(es, gets, modem.answers);
    RestoreAgrees(es, gets, modem.answers);
    if AllPositive(modem.answers) {
      RestoreComplete(es, gets, modem.answers);
    }
    ok, outcomes := true, [];
    var pos: nat, rest := 0, gets;
    ghost var todo := es;
    FirstIsAtMember(file, es);
    SoFarStart(whole);
    while true
      invariant Tar.AreEntries(todo) && AtMember(file, pos, todo)
      invariant SoFar(whole, outcomes, Restore(todo, rest, modem.answers))
      decreases |todo|
    {
      HeaderHere(file, pos, todo);
      RestoreStep(todo, rest, modem.answers);
      var header := file[pos..pos + Tar.BLOCK];
      if header == Zeros(Tar.BLOCK) {
        break;
      }
      var sum := Tar.ComputeChecksum(header);
      if sum != Tar.StoredChecksum(header) {
        ok := false;
        break;
      }
      var f := Tar.FieldsOf(header);
      ghost var before, data, answers := rest, todo[0].data, modem.answers;
      var outcome := NoFile;
      if Tar.IsFile(f) {
        ghost var available := |file| - (pos + Tar.BLOCK);
        FileRunAvailable(f.size, IsItem(Trimmed(f.name), f.mode), available, rest, modem.answers);
        ok, outcome, pos, rest := RestoreFile(file, pos + Tar.BLOCK, Trimmed(f.name), f.mode, f.size, modem, rest);
        if !ok {
          break;
        }
      } else {
        pos := pos + Tar.BLOCK;
      }
      SoFarNext(whole, outcomes, outcome, Restore(todo[1..], rest, modem.answers));
      outcomes := outcomes + [outcome];
      todo := todo[1..];
    }
    SoFarEnds(whole, outcomes, ok);
  }

  /** The outcomes so far and those of the remaining members make up the whole. */
  ghost predicate SoFar(whole: Restored, outcomes: seq<Outcome>, rest: Restored) {
    whole.ok == rest.ok && whole.outcomes == outcomes + rest.outcomes
  }

  lemma SoFarStart(whole: Restored)
    ensures SoFar(whole, [], whole)
  {
    assert [] + whole.outcomes == whole.outcomes;
  }

  lemma SoFarNext(whole: Restored, outcomes: seq<Outcome>, o: Outcome, rest: Restored)
    requires SoFar(whole, outcomes, Before(o, rest))
    ensures SoFar(whole, outcomes + [o], rest)
  {
  }

  lemma SoFarEnds(whole: Restored, outcomes: seq<Outcome>, ok: bool)
    requires SoFar(whole, outcomes, Restored(ok, []))
    ensures whole == Restored(ok, outcomes)
  {
    assert outcomes + [] == outcomes;
  }

  lemma RestoreStep(es: seq<Tar.Entry>, gets: seq<nat>, answers: seq<int>)
    requires Tar.AreEntries(es)
    ensures es == [] ==> Restore(es, gets, answers) == Restored(true, [])
    ensures es != [] ==> Tar.IsEntry(es[0]) && Tar.AreEntries(es[1..])
    ensures es != [] ==>
      var f, data := Tar.FieldsOf(Tar.Header(es[0])), es[0].data;
      var name := Trimmed(f.name);
      Restore(es, gets, answers) ==
        if !Tar.IsFile(f) then Before(NoFile, Restore(es[1..], gets, answers))
        else if IsNvMember(name, |data|) then Before(NvMemberOutcome(name, data), Restore(es[1..], gets, answers))
        else
          var run := FileRun(|data|, IsItem(name, f.mode), |data|, gets, answers);
          if run.ok then Before(FileOutcome(name, data, run.stored), Restore(es[1..], run.gets, run.answers))
          else Restored(false, [])
  {
    hide Tar.FieldsOf, Tar.Header, Tar.IsEntry, Tar.IsFile, Trimmed, IsNvMember, NvMemberOutcome, IsItem, FileRun, FileOutcome;
  }

  lemma FileRunAvailable(size: nat, item: bool, available: nat, gets: seq<nat>, answers: seq<int>)
    requires size <= available
    ensures FileRun(size, item, available, gets, answers) == FileRun(size, item, size, gets, answers)
  {
    hide WriteRun, Written;
    EnoughAvailable(size, available, gets, Opened(item, answers).answers);
  }

  /** What a restore makes of the member an NV record was converted to. */
  lemma NvMemberRestored(id: word, record: seq<byte>, o: Outcome)
    requires |record| == Xqcn.NV_DATA
    ensures Tar.IsEntry(Xqcn.NvEntry(id, record))
    ensures Agrees(Xqcn.NvEntry(id, record), o) <==> o == NvOutcome(id, record)
  {
    hide Tar.Header, Tar.FieldsOf, Xqcn.DecText, Xqcn.ScanUnsigned, NvOutcome;
    var name := Xqcn.NvName(id);
    XqcnRoundTrip.NvNameIsName(id);
    Tar.HeaderRoundTrip(Xqcn.NvEntry(id, record));
    Xqcn.ScanRoundTrip(id);
    assert name[|Xqcn.NV_PREFIX|..] == Xqcn.DecText(id, 5) + Xqcn.BIN;
    assert name[|name| - 1] == Xqcn.BIN[|Xqcn.BIN| - 1];
  }

  /** An NV record reaches the item it is numbered for exactly when the number has sixteen bits and is not skipped. */
  lemma NvNumberExactly(id: word, record: seq<byte>)
    requires |record| == Xqcn.NV_DATA
    ensures Tar.IsEntry(Xqcn.NvEntry(id, record))
    ensures Agrees(Xqcn.NvEntry(id, record), NvSent(id, record)) <==> id < 0x1_0000 && id !in NV_EXCLUDED
  {
    hide Agrees, Xqcn.NvEntry;
    NvMemberRestored(id, record, NvSent(id, record));
  }

  /** The record of item 70000 is written to item 4464. */
  lemma NvNumberCut(record: seq<byte>)
    requires |record| == Xqcn.NV_DATA
    ensures Tar.IsEntry(Xqcn.NvEntry(70000, record)) && Agrees(Xqcn.NvEntry(70000, record), NvSent(4464, record))
    ensures !Agrees(Xqcn.NvEntry(70000, record), NvSent(70000, record))
  {
    hide Agrees, Xqcn.NvEntry;
    NvMemberRestored(70000, record, NvSent(4464, record));
    NvNumberExactly(70000, record);
  }

  /** The archive's cursor stands where the remaining entries were written. */
  ghost predicate AtMember(file: seq<byte>, pos: nat, es: seq<Tar.Entry>) {
    Tar.AreEntries(es) && pos <= |file| && file[pos..] == Tar.Archive(es)
  }

  lemma FirstIsAtMember(file: seq<byte>, es: seq<Tar.Entry>)
    requires Tar.AreEntries(es) && file == Tar.Archive(es)
    ensures AtMember(file, 0, es)
  {
    assert file[0..] == file;
  }

  /** What a reader finds at the cursor: the next entry's header and data, or the closing zeros. */
  lemma HeaderHere(file: seq<byte>, pos: nat, es: seq<Tar.Entry>)
    requires AtMember(file, pos, es)
    ensures pos + Tar.BLOCK <= |file|
    ensures es == [] ==> file[pos..pos + Tar.BLOCK] == Zeros(Tar.BLOCK)
    ensures es != [] ==>
      var h, e := file[pos..pos + Tar.BLOCK], es[0];
      && Tar.IsEntry(e) && h == Tar.Header(e) && h != Zeros(Tar.BLOCK) && Tar.Checksum(h) == Tar.StoredChecksum(h)
      && Tar.FieldsOf(h).size == |e.data| < WRAP
      && pos + Tar.BLOCK + |e.data| <= |file| && file[pos + Tar.BLOCK..pos + Tar.BLOCK + |e.data|] == e.data
      && AtMember(file, pos + Tar.BLOCK + |e.data| + Tar.Padding(|e.data|), es[1..])
      && (!Tar.IsFile(Tar.FieldsOf(h)) ==> e.data == [])
  {
    hide Tar.Header, Tar.FieldsOf, Tar.IsEntry, Tar.Checksum, Tar.StoredChecksum, Tar.Padding;
    var rest := file[pos..];
    if es == [] {
      assert rest == Zeros(1024);
      assert file[pos..pos + Tar.BLOCK] == rest[..Tar.BLOCK];
    } else {
      var e := es[0];
      var tail := Zeros(Tar.Padding(|e.data|)) + Tar.Archive(es[1..]);
      assert rest == Tar.Header(e) + e.data + tail;
      Tar.SliceJoin(Tar.Header(e), e.data, tail);
      Tar.HeaderNotZero(e);
      Tar.HeaderChecks(e);
      Tar.HeaderRoundTrip(e);
      Pieces(file, pos, Tar.Header(e), e.data, Zeros(Tar.Padding(|e.data|)), Tar.Archive(es[1..]));
      NoDataNoFile(e);
    }
  }

  lemma NoDataNoFile(e: Tar.Entry)
    requires Tar.IsEntry(e)
    ensures Tar.DeclaredSize(e) == |e.data| < WRAP && (e.kind != Tar.REGULAR ==> e.data == [])
  {
  }

  lemma Pieces(file: seq<byte>, pos: nat, a: seq<byte>, b: seq<byte>, c: seq<byte>, d: seq<byte>)
    requires pos <= |file| && file[pos..] == a + b + (c + d)
    ensures pos + |a| + |b| + |c| <= |file|
    ensures file[pos..pos + |a|] == a && file[pos + |a|..pos + |a| + |b|] == b && file[pos + |a| + |b| + |c|..] == d
  {
    var rest := file[pos..];
    assert file[pos..pos + |a|] == rest[..|a|];
    assert file[pos + |a|..pos + |a| + |b|] == rest[|a|..|a| + |b|];
    assert file[pos + |a| + |b| + |c|..] == rest[|a| + |b| + |c|..];
  }
}
