/**
 * VIP (validated image programming): the digest tables produced by a dry run,
 * and the state machine that sends them in front of the frames they describe.
 *
 * The generator cuts one digest per frame into a signed table of 53 digests and
 * chained tables of 255; every table but the last ends with the hash of the next.
 * The sender counts frames on its own.  `PrefixAccepted` joins the two halves.
 */
module Vip {
  import opened Bytes
  import opened Seqs

  const DIGEST_LENGTH := 32
  const MAX_DIGESTS_PER_SIGNED_FILE := 54
  const MAX_DIGESTS_PER_SIGNED_TABLE := MAX_DIGESTS_PER_SIGNED_FILE - 1
  const MAX_DIGESTS_PER_CHAINED_FILE := 256
  const MAX_DIGESTS_PER_CHAINED_TABLE := MAX_DIGESTS_PER_CHAINED_FILE - 1
  const MAX_DIGESTS_PER_BUF := 16
  const MAX_CHAINED_FILES := 32

  type Digest = d: seq<byte> | |d| == 32 witness seq(32, _ => 0)

  /** The hash is left uninterpreted: every result holds for any function to 32 bytes. */
  type Hash = seq<byte> -> Digest

  datatype FileName = FullTable | ToSign | Chained(index: nat)

  // ------------------------------------------------------------------
  // What the generated files hold
  // ------------------------------------------------------------------

  function Digests(H: Hash, frames: seq<seq<byte>>): (ds: seq<Digest>)
    ensures |ds| == |frames|
    ensures forall i :: 0 <= i < |ds| ==> ds[i] == H(frames[i])
  {
    if frames == [] then [] else Digests(H, frames[..|frames| - 1]) + [H(frames[|frames| - 1])]
  }

  function Flatten(ds: seq<Digest>): (s: seq<byte>)
    ensures |s| == 32 * |ds|
  {
    if ds == [] then [] else Flatten(ds[..|ds| - 1]) + ds[|ds| - 1]
  }

  /** First frame that table `t` (0 = signed) describes. */
  function TableStart(t: nat): nat {
    if t == 0 then 0
    else if t == 1 then MAX_DIGESTS_PER_SIGNED_TABLE
    else TableStart(t - 1) + MAX_DIGESTS_PER_CHAINED_TABLE
  }

  /** One past the last frame that table `t` describes when there are `n` frames. */
  function TableEnd(t: nat, n: nat): nat { Min(TableStart(t + 1), n) }

  /** The index of the table that describes frame `j - 1`. */
  function CurrentTable(j: nat): (t: nat)
    requires j > 0
    ensures TableStart(t) < j <= TableStart(t + 1)
  {
    if j <= MAX_DIGESTS_PER_SIGNED_TABLE then 0
    else if j <= MAX_DIGESTS_PER_SIGNED_TABLE + MAX_DIGESTS_PER_CHAINED_TABLE then 1
    else CurrentTable(j - MAX_DIGESTS_PER_CHAINED_TABLE) + 1
  }

  lemma {:induction false} StartsAscend(s: nat, t: nat)
    requires s < t
    ensures TableStart(s) < TableStart(t)
  {
    if s + 1 < t {
      StartsAscend(s, t - 1);
    }
  }

  lemma CurrentTableUnique(j: nat, t: nat)
    requires TableStart(t) < j <= TableStart(t + 1)
    ensures CurrentTable(j) == t
  {
    var u := CurrentTable(j);
    if u < t {
      if u + 1 < t {
        StartsAscend(u + 1, t);
      }
    } else if t < u && t + 1 < u {
      StartsAscend(t + 1, u);
    }
  }

  lemma CurrentTableAtMost(j: nat, t: nat)
    requires 0 < j <= TableStart(t + 1)
    ensures CurrentTable(j) <= t
  {
    var u := CurrentTable(j);
    if t < u && t + 1 < u {
      StartsAscend(t + 1, u);
    }
  }

  /** Chained tables needed for `n` frames: enough to reach the one describing the last frame. */
  function ChainedCount(n: nat): nat {
    if n == 0 then 0 else CurrentTable(n)
  }

  lemma {:induction false} StartFormula(t: nat)
    requires t > 0
    ensures TableStart(t) == MAX_DIGESTS_PER_SIGNED_TABLE + MAX_DIGESTS_PER_CHAINED_TABLE * (t - 1)
  {
    if t > 1 {
      StartFormula(t - 1);
    }
  }

  lemma ChainedCountIsCeiling(n: nat)
    ensures ChainedCount(n) ==
      if n <= MAX_DIGESTS_PER_SIGNED_TABLE then 0
      else (n - MAX_DIGESTS_PER_SIGNED_TABLE + MAX_DIGESTS_PER_CHAINED_TABLE - 1) / MAX_DIGESTS_PER_CHAINED_TABLE
  {
    var t := ChainedCount(n);
    StartFormula(t + 1);
    if t > 0 {
      StartFormula(t);
    }
  }

  /** Tables up to the last are non-empty, and all but the last are full. */
  lemma TableRange(t: nat, n: nat)
    requires n > 0 && t <= ChainedCount(n)
    ensures TableStart(t) < TableEnd(t, n) <= n
    ensures TableEnd(t, n) == if t < ChainedCount(n) then TableStart(t + 1) else n
  {
    var last := ChainedCount(n);
    if t < last {
      StartsAscend(t, t + 1);
      StartsAscend(t, last);
      if t + 1 < last {
        StartsAscend(t + 1, last);
      }
    }
  }

  /** A table that starts before `n` is needed. */
  lemma TableNeeded(t: nat, n: nat)
    requires TableStart(t) < n
    ensures t <= ChainedCount(n)
    ensures t == ChainedCount(n) <==> n <= TableStart(t + 1)
  {
    var last := ChainedCount(n);
    if last < t && last + 1 < t {
      StartsAscend(last + 1, t);
    }
    if n <= TableStart(t + 1) {
      CurrentTableUnique(n, t);
    }
  }

  /** The bytes of digests `from..to` of a digest file. */
  function Slice(src: seq<byte>, from: nat, to: nat): seq<byte>
    requires from <= to && 32 * to <= |src|
  {
    src[32 * from..32 * to]
  }

  /** Table 0 is the file to sign, table `t > 0` is chained file `t - 1`. */
  function TableName(t: nat): FileName {
    if t == 0 then ToSign else Chained(t - 1)
  }

  /** A table before its link is appended; the last chained one gets a zero byte. */
  function TableBody(src: seq<byte>, n: nat, t: nat): seq<byte>
    requires n > 0 && 32 * n <= |src| && t <= ChainedCount(n)
  {
    TableRange(t, n);
    Slice(src, TableStart(t), TableEnd(t, n)) + (if t > 0 && t == ChainedCount(n) then [0] else [])
  }

  /** The finished table: the body, and unless it is the last one the hash of the next finished table. */
  function TableFile(H: Hash, src: seq<byte>, n: nat, t: nat): seq<byte>
    requires n > 0 && 32 * n <= |src| && t <= ChainedCount(n)
    decreases ChainedCount(n) - t
  {
    TableBody(src, n, t) + (if t == ChainedCount(n) then [] else H(TableFile(H, src, n, t + 1)))
  }

  /** What chained file `i` is, byte by byte. */
  lemma ChainedContents(H: Hash, src: seq<byte>, n: nat, i: nat)
    requires 53 + 255 * i < n && 32 * n <= |src|
    ensures i < ChainedCount(n)
    ensures n <= 53 + 255 * (i + 1) ==>
      && i + 1 == ChainedCount(n)
      && TableFile(H, src, n, i + 1) == src[32 * (53 + 255 * i)..32 * n] + [0]
    ensures n > 53 + 255 * (i + 1) ==>
      && i + 2 <= ChainedCount(n)
      && TableFile(H, src, n, i + 1) ==
         src[32 * (53 + 255 * i)..32 * (53 + 255 * (i + 1))] + H(TableFile(H, src, n, i + 2))
  {
    StartFormula(i + 1);
    StartFormula(i + 2);
    TableNeeded(i + 1, n);
    if n > 53 + 255 * (i + 1) {
      TableNeeded(i + 2, n);
    }
  }

  /** What the file to sign is, byte by byte. */
  lemma SignedContents(H: Hash, src: seq<byte>, n: nat)
    requires 0 < n && 32 * n <= |src|
    ensures n <= 53 ==> ChainedCount(n) == 0 && TableFile(H, src, n, 0) == src[..32 * n]
    ensures n > 53 ==> ChainedCount(n) > 0 && TableFile(H, src, n, 0) == src[..32 * 53] + H(TableFile(H, src, n, 1))
  {
    TableNeeded(0, n);
  }

  /** A last chained file, with its zero byte, is never a multiple of 512 bytes long. */
  lemma NeverWholeSectors(k: nat)
    ensures (32 * k + 1) % 512 != 0 && (32 * k + 1) % 32 == 1
  {
    OddLength(16 * k);
  }

  lemma OddLength(x: nat)
    ensures (2 * x + 1) % 512 != 0
  {
    assert (2 * x + 1) % 2 == 1;
  }

  // ------------------------------------------------------------------
  // The generator
  // ------------------------------------------------------------------

  /** The directory the tables are written to; it may hold files of earlier runs. */
  class Directory {
    var files: map<FileName, seq<byte>>

    constructor (files: map<FileName, seq<byte>>)
      ensures this.files == files
    {
      this.files := files;
    }

    ghost predicate Holds(name: FileName, data: seq<byte>)
      reads this
    {
      name in files && files[name] == data
    }

    method WriteOutputFile(name: FileName, append: bool, data: seq<byte>)
      modifies this
      ensures files == old(files)[name := if append && name in old(files) then old(files)[name] + data else data]
    {
      if append && name in files {
        files := files[name := files[name] + data];
      } else {
        files := files[name := data];
      }
    }

    /** Copies `count` digests in pieces of at most 16, truncating `dest` with the first piece. */
    method WriteDigestsToTable(src: FileName, dest: FileName, start: nat, count: nat) returns (ok: bool)
      requires src != dest
      modifies this
      ensures ok <==> src in old(files) && (count == 0 || 32 * (start + count) <= |old(files)[src]|)
      ensures ok && count > 0 ==> files == old(files)[dest := Slice(old(files)[src], start, start + count)]
      ensures ok && count == 0 ==> files == old(files)
      ensures forall name :: name != dest ==> (name in files <==> name in old(files))
      ensures forall name :: name != dest && name in files ==> files[name] == old(files)[name]
    {
      if src !in files {
        return false;
      }
      var source := files[src];
      var offset := DIGEST_LENGTH * start;
      var written := 0;
      while written < count * DIGEST_LENGTH
        invariant 0 <= written <= count * DIGEST_LENGTH
        invariant written > 0 ==> offset + written <= |source|
        invariant files == if written == 0 then old(files) else old(files)[dest := source[offset..offset + written]]
      {
        var toRead := Min(count * DIGEST_LENGTH - written, MAX_DIGESTS_PER_BUF * DIGEST_LENGTH);
        if offset + written + toRead > |source| {
          return false;
        }
        var buf := source[offset + written..offset + written + toRead];
        assert source[offset..offset + written] + buf == source[offset..offset + written + toRead];
        WriteOutputFile(dest, written != 0, buf);
        written := written + toRead;
      }
      ok := true;
    }

    /** Writes the signed table, then the chained tables, then hashes them backwards. */
    method CreateChainedTables(H: Hash, total: nat) returns (ok: bool)
      requires FullTable in files
      modifies this
      ensures ok <==> 32 * total <= |old(files)[FullTable]|
      ensures total == 0 ==> files == old(files)
      ensures ok && total > 0 ==> forall t: nat :: t <= ChainedCount(total) ==>
        Holds(TableName(t), TableFile(H, old(files)[FullTable], total, t))
      ensures forall i: nat :: i >= ChainedCount(total) && Chained(i) in old(files) ==>
        Holds(Chained(i), old(files)[Chained(i)])
      ensures ok ==> TablesOf(H, old(files)[FullTable], total)
    {
      ghost var src := files[FullTable];
      var toSign := Min(total, MAX_DIGESTS_PER_SIGNED_TABLE);
      ok := WriteDigestsToTable(FullTable, ToSign, 0, toSign);
      if !ok || total == 0 {
        return;
      }
      assert toSign == TableEnd(0, total);
      assert Holds(ToSign, Slice(src, 0, toSign));
      var count := 0;
      if total > MAX_DIGESTS_PER_SIGNED_TABLE {
        ok, count := WriteChainedBodies(total);
        if !ok {
          return;
        }
      }
      ghost var bodies := seq(count + 1, t requires 0 <= t <= count => TableBody(src, total, t));
      ghost var finals := seq(count + 1, t requires 0 <= t <= count => TableFile(H, src, total, t));
      hide TableFile, TableBody;
      forall t | 0 <= t <= count
        ensures finals[t] == bodies[t] + if t == count then [] else H(finals[t + 1])
      {
        TableFileIs(H, src, total, t);
      }
      assert bodies[count] + [] == bodies[count];
      LinkTables(H, count, bodies, finals);
      WrittenTables(H, src, total);
    }

    /**
     * The tables of `n` digests in bytes: 53 digests to sign and 255 to a chained file, each file ending
     * with the hash of the next one, and the last chained one with a zero byte instead.
     */
    ghost predicate TablesOf(H: Hash, src: seq<byte>, n: nat)
      reads this
      requires 32 * n <= |src|
    {
      && (0 < n <= 53 ==> Holds(ToSign, src[..32 * n]))
      && (53 < n ==> Chained(0) in files && Holds(ToSign, src[..32 * 53] + H(files[Chained(0)])))
      && (forall i: nat :: 53 + 255 * i < n ==> ChainedTable(H, src, n, i))
    }

    ghost predicate ChainedTable(H: Hash, src: seq<byte>, n: nat, i: nat)
      reads this
      requires 53 + 255 * i < n && 32 * n <= |src|
    {
      if n <= 53 + 255 * (i + 1) then Holds(Chained(i), src[32 * (53 + 255 * i)..32 * n] + [0])
      else
        && Chained(i + 1) in files
        && Holds(Chained(i), src[32 * (53 + 255 * i)..32 * (53 + 255 * (i + 1))] + H(files[Chained(i + 1)]))
    }

    lemma WrittenTables(H: Hash, src: seq<byte>, n: nat)
      requires 32 * n <= |src|
      requires n > 0 ==> forall t: nat :: t <= ChainedCount(n) ==> Holds(TableName(t), TableFile(H, src, n, t))
      ensures TablesOf(H, src, n)
    {
      hide TableFile, ChainedCount, ChainedTable;
      if n == 0 {
        return;
      }
      SignedContents(H, src, n);
      assert Holds(TableName(0), TableFile(H, src, n, 0));
      if n > 53 {
        assert Holds(TableName(1), TableFile(H, src, n, 1));
      }
      forall i: nat | 53 + 255 * i < n
        ensures ChainedTable(H, src, n, i)
      {
        WrittenTable(H, src, n, i);
      }
    }

    lemma WrittenTable(H: Hash, src: seq<byte>, n: nat, i: nat)
      requires 53 + 255 * i < n && 32 * n <= |src|
      requires forall t: nat :: t <= ChainedCount(n) ==> Holds(TableName(t), TableFile(H, src, n, t))
      ensures ChainedTable(H, src, n, i)
    {
      hide TableFile, ChainedCount;
      ChainedContents(H, src, n, i);
      assert Holds(TableName(i + 1), TableFile(H, src, n, i + 1));
      if n > 53 + 255 * (i + 1) {
        assert Holds(TableName(i + 2), TableFile(H, src, n, i + 2));
      }
    }

    /** The last chained file ends with a zero byte, and its length is never a multiple of 512. */
    lemma LastTableLength(H: Hash, src: seq<byte>, n: nat, i: nat)
      requires 32 * n <= |src| && TablesOf(H, src, n)
      requires 53 + 255 * i < n <= 53 + 255 * (i + 1)
      ensures Chained(i) in files && i + 1 == ChainedCount(n)
      ensures var file := files[Chained(i)];
        |file| == 32 * (n - 53 - 255 * i) + 1 && file[|file| - 1] == 0 && |file| % 512 != 0
    {
      hide TableFile, ChainedCount;
      assert ChainedTable(H, src, n, i);
      ChainedContents(H, src, n, i);
      NeverWholeSectors(n - 53 - 255 * i);
    }

    /** Every other table consists of whole digests. */
    lemma OtherTableLengths(H: Hash, src: seq<byte>, n: nat, i: nat)
      requires 32 * n <= |src| && TablesOf(H, src, n)
      ensures 0 < n ==> ToSign in files && |files[ToSign]| == if n <= 53 then 32 * n else 32 * 54
      ensures 53 + 255 * (i + 1) < n ==> Chained(i) in files && |files[Chained(i)]| == 32 * 256
    {
      if 53 + 255 * i < n {
        assert ChainedTable(H, src, n, i);
      }
    }

    static lemma TableFileIs(H: Hash, src: seq<byte>, n: nat, t: nat)
      requires n > 0 && 32 * n <= |src| && t <= ChainedCount(n)
      ensures TableFile(H, src, n, t) == TableBody(src, n, t) + if t == ChainedCount(n) then [] else H(TableFile(H, src, n, t + 1))
    {
      hide TableBody, ChainedCount;
    }

    /** Cutting table `t` takes min(remaining, 255) digests and leaves none exactly at the last table. */
    static lemma CutStep(total: nat, t: nat)
      requires 0 < t && TableStart(t) < total
      ensures t <= ChainedCount(total)
      ensures TableStart(t) + Min(total - TableStart(t), MAX_DIGESTS_PER_CHAINED_TABLE) == TableEnd(t, total)
      ensures TableEnd(t, total) == total <==> t == ChainedCount(total)
      ensures t < ChainedCount(total) ==> TableEnd(t, total) == TableStart(t + 1) < total
    {
      TableNeeded(t, total);
    }

    method WriteChainedBodies(total: nat) returns (ok: bool, count: nat)
      requires FullTable in files && total > MAX_DIGESTS_PER_SIGNED_TABLE
      modifies this
      ensures Holds(FullTable, old(files)[FullTable])
      ensures ok <==> 32 * total <= |files[FullTable]|
      ensures ok ==> count == ChainedCount(total)
      ensures ok ==> forall i: nat :: i < count ==>
        Holds(Chained(i), TableBody(files[FullTable], total, i + 1))
      ensures forall name: FileName :: (name.Chained? ==> name.index >= ChainedCount(total)) && name in old(files) ==>
        Holds(name, old(files)[name])
    {
      hide TableStart, TableEnd, CurrentTable, ChainedCount;
      StartFormula(1);
      ghost var src := files[FullTable];
      var remaining := total - MAX_DIGESTS_PER_SIGNED_TABLE;
      count := 0;
      TableNeeded(1, total);
      while remaining > 0
        invariant 0 <= remaining
        invariant count <= ChainedCount(total)
        invariant remaining > 0 ==> remaining == total - TableStart(count + 1) && count < ChainedCount(total)
        invariant remaining == 0 ==> count == ChainedCount(total) && 32 * total <= |src|
        invariant Holds(FullTable, src)
        invariant 32 * total <= |src| ==> forall i: nat :: i < count ==> Holds(Chained(i), TableBody(src, total, i + 1))
        invariant forall name: FileName :: (name.Chained? ==> name.index >= ChainedCount(total)) && name in old(files) ==>
          Holds(name, old(files)[name])
      {
        var tableDigests := Min(remaining, MAX_DIGESTS_PER_CHAINED_TABLE);
        CutStep(total, count + 1);
        ok := WriteDigestsToTable(FullTable, Chained(count), total - remaining, tableDigests);
        if !ok {
          return;
        }
        assert Holds(Chained(count), Slice(src, TableStart(count + 1), TableEnd(count + 1, total)));
        remaining := remaining - tableDigests;
        if remaining == 0 {
          WriteOutputFile(Chained(count), true, [0]);
        }
        assert 32 * total <= |src| ==> Holds(Chained(count), TableBody(src, total, count + 1));
        count := count + 1;
      }
      ok := true;
    }

    /**
     * Backwards over the tables: each one's hash goes to the end of the one before.
     * `bodies` are the unlinked files and `finals` the linked ones, the signed table first.
     */
    method LinkTables(H: Hash, count: nat, ghost bodies: seq<seq<byte>>, ghost finals: seq<seq<byte>>)
      requires |bodies| == |finals| == count + 1 && finals[count] == bodies[count]
      requires forall t :: 0 <= t < count ==> finals[t] == bodies[t] + H(finals[t + 1])
      requires forall t :: 0 <= t <= count ==> Holds(TableName(t), bodies[t])
      modifies this
      ensures forall t :: 0 <= t <= count ==> Holds(TableName(t), finals[t])
      ensures forall i: nat :: i >= count && Chained(i) in old(files) ==> Holds(Chained(i), old(files)[Chained(i)])
    {
      var t := count;
      while t > 0
        invariant 0 <= t <= count
        invariant forall u :: t <= u <= count ==> Holds(TableName(u), finals[u])
        invariant forall u :: 0 <= u < t ==> Holds(TableName(u), bodies[u])
        invariant forall i: nat :: i >= count && Chained(i) in old(files) ==> Holds(Chained(i), old(files)[Chained(i)])
      {
        assert Holds(TableName(t), finals[t]) && Holds(TableName(t - 1), bodies[t - 1]);
        WriteOutputFile(TableName(t - 1), true, H(files[TableName(t)]));
        t := t - 1;
      }
    }

    /**
     * A dry run over `frames`: one digest per frame into a fresh full table, then the tables. Without
     * frames no table is written, so a file to sign of an earlier run stays as it is.
     */
    method Generate(H: Hash, frames: seq<seq<byte>>)
      modifies this
      ensures |frames| > 0 ==>
        forall t: nat :: t <= ChainedCount(|frames|) ==>
        Holds(TableName(t), TableFile(H, Flatten(Digests(H, frames)), |frames|, t))
      ensures |frames| == 0 ==> files == old(files)[FullTable := []]
      ensures TablesOf(H, Flatten(Digests(H, frames)), |frames|)
    {
      WriteOutputFile(FullTable, false, []);
      var written := 0;
      while written < |frames|
        invariant 0 <= written <= |frames|
        invariant Holds(FullTable, Flatten(Digests(H, frames[..written])))
        invariant written == 0 ==> files == old(files)[FullTable := []]
      {
        var hash := H(frames[written]);
        assert frames[..written + 1][..written] == frames[..written];
        WriteOutputFile(FullTable, true, hash);
        written := written + 1;
      }
      assert frames[..written] == frames;
      var ok := CreateChainedTables(H, written);
      assert ok;
    }
  }

  // ------------------------------------------------------------------
  // The sender
  // ------------------------------------------------------------------

  datatype VipState = VipDisabled | VipInit | VipSendNextTable | VipSendData

  datatype Message = Table(data: seq<byte>) | Frame(payload: seq<byte>)

  /** The table that goes in front of frame `j`: one at each table boundary, none elsewhere. */
  function TableBefore(signed: seq<byte>, chained: seq<seq<byte>>, j: nat): seq<Message> {
    if j == 0 then [Table(signed)]
    else if j == TableStart(CurrentTable(j) + 1) && CurrentTable(j) < |chained|
    then [Table(chained[CurrentTable(j)])]
    else []
  }

  lemma TableWidth(t: nat)
    ensures TableStart(0) == 0
    ensures TableStart(t + 1) - TableStart(t) ==
      if t == 0 then MAX_DIGESTS_PER_SIGNED_TABLE else MAX_DIGESTS_PER_CHAINED_TABLE
  {
  }

  lemma TableBeforeIs(signed: seq<byte>, chained: seq<seq<byte>>, j: nat, t: nat)
    requires j == 0 || TableStart(t) < j <= TableStart(t + 1)
    ensures TableBefore(signed, chained, j) ==
      if j == 0 then [Table(signed)] else if j == TableStart(t + 1) && t < |chained| then [Table(chained[t])] else []
  {
    hide TableStart;
    if j > 0 {
      CurrentTableUnique(j, t);
    }
  }

  /** A table goes out exactly when the current one is used up. */
  lemma StepTable(j: nat, t: nat, tables: nat)
    requires j == 0 || TableStart(t) < j <= TableStart(t + 1)
    requires t <= tables
    ensures j > 0 ==> CurrentTable(j) == t
    ensures j == 0 || j < TableStart(t + 1) ==> j < TableStart(tables + 1)
    ensures j > 0 && j == TableStart(t + 1) ==> (j < TableStart(tables + 1) <==> t < tables)
  {
    if j > 0 {
      CurrentTableUnique(j, t);
    }
    StartsAscend(0, tables + 1);
    if t < tables {
      StartsAscend(t + 1, tables + 1);
    }
  }

  /** Everything on the wire once `frames` have gone out. */
  function Wire(signed: seq<byte>, chained: seq<seq<byte>>, frames: seq<seq<byte>>): seq<Message> {
    if frames == [] then []
    else
      var j := |frames| - 1;
      Wire(signed, chained, frames[..j]) + TableBefore(signed, chained, j) + [Frame(frames[j])]
  }

  class Transfer {
    var state: VipState
    var framesSent: nat
    var framesLeft: nat
    var chainedCur: nat
    var signedTable: seq<byte>
    var chained: seq<seq<byte>>
    var wire: seq<Message>

    /** The counters after `j` frames: which table is current and how much of it is used. */
    ghost predicate After(j: nat)
      reads this
    {
      if j == 0 then state == VipInit && chainedCur == 0
      else
        chainedCur <= |chained| &&
        TableStart(chainedCur) < j <= TableStart(chainedCur + 1) &&
        framesSent == j - TableStart(chainedCur) &&
        framesLeft == TableStart(chainedCur + 1) - TableStart(chainedCur) &&
        state == if framesSent == framesLeft then VipSendNextTable else VipSendData
    }

    /** The counters when frame `j` may go out: the table that describes it is current. */
    ghost predicate Serving(j: nat)
      reads this
    {
      && state == VipSendData && chainedCur <= |chained|
      && TableStart(chainedCur) <= j < TableStart(chainedCur + 1)
      && framesSent == j - TableStart(chainedCur)
      && framesLeft == TableStart(chainedCur + 1) - TableStart(chainedCur)
    }

    /** Opens the signed table and chained tables 0, 1, ... up to the first missing one, at most 32. */
    constructor (dir: Directory, signed: seq<byte>)
      ensures After(0) && wire == [] && signedTable == signed
      ensures |chained| <= MAX_CHAINED_FILES
      ensures forall i :: 0 <= i < |chained| ==> dir.Holds(Chained(i), chained[i])
      ensures |chained| < MAX_CHAINED_FILES ==> Chained(|chained|) !in dir.files
    {
      state, framesSent, framesLeft, chainedCur := VipInit, 0, 0, 0;
      signedTable, wire := signed, [];
      var tables := [];
      while |tables| < MAX_CHAINED_FILES && Chained(|tables|) in dir.files
        invariant |tables| <= MAX_CHAINED_FILES
        invariant forall i :: 0 <= i < |tables| ==> dir.Holds(Chained(i), tables[i])
        decreases MAX_CHAINED_FILES - |tables|
      {
        tables := tables + [dir.files[Chained(|tables|)]];
      }
      chained := tables;
    }

    method HandleTables(ghost j: nat) returns (ret: int)
      requires state == VipDisabled || After(j)
      modifies this
      ensures signedTable == old(signedTable) && chained == old(chained)
      ensures old(state) == VipDisabled ==> ret == 0 && state == VipDisabled && wire == old(wire)
      ensures old(state) != VipDisabled ==> (ret == 0 <==> j < TableStart(|chained| + 1))
      ensures old(state) != VipDisabled && ret == 0 ==> After(j + 1) && wire == old(wire) + TableBefore(signedTable, chained, j)
      ensures ret != 0 ==> After(j) && wire == old(wire)
    {
      if state == VipDisabled {
        return 0;
      }
      hide TableStart, CurrentTable, TableBefore;
      ret := SendTable(j);
      if ret != 0 {
        return;
      }
      framesSent := framesSent + 1;
      if framesSent >= framesLeft {
        state := VipSendNextTable;
      }
    }

    /** Sends the table that is due, if one is. */
    method SendTable(ghost j: nat) returns (ret: int)
      requires After(j)
      modifies this
      ensures signedTable == old(signedTable) && chained == old(chained)
      ensures ret == 0 <==> j < TableStart(|chained| + 1)
      ensures ret == 0 ==> Serving(j) && wire == old(wire) + TableBefore(signedTable, chained, j)
      ensures ret != 0 ==> After(j) && wire == old(wire)
    {
      hide TableStart, CurrentTable, TableBefore;
      StepTable(j, chainedCur, |chained|);
      TableBeforeIs(signedTable, chained, j, chainedCur);
      TableWidth(chainedCur);
      TableWidth(chainedCur + 1);
      if state == VipInit {
        wire := wire + [Table(signedTable)];
        state, framesSent, framesLeft := VipSendData, 0, MAX_DIGESTS_PER_SIGNED_TABLE;
      }
      if state == VipSendNextTable {
        if chainedCur >= |chained| {
          return -1;
        }
        wire := wire + [Table(chained[chainedCur])];
        state, framesSent, framesLeft := VipSendData, 0, MAX_DIGESTS_PER_CHAINED_TABLE;
        chainedCur := chainedCur + 1;
      }
      ret := 0;
    }

    /** Sends every frame behind the tables it needs; stops at the first missing table. */
    method SendFrames(frames: seq<seq<byte>>) returns (sent: nat)
      requires After(0) && wire == []
      modifies this
      ensures signedTable == old(signedTable) && chained == old(chained)
      ensures sent == Min(|frames|, TableStart(|chained| + 1))
      ensures wire == Wire(signedTable, chained, frames[..sent])
    {
      hide CurrentTable, TableStart, TableBefore;
      sent := 0;
      StartWire(signedTable, chained, frames);
      while sent < |frames|
        invariant 0 <= sent <= |frames| && sent <= TableStart(|chained| + 1)
        invariant signedTable == old(signedTable) && chained == old(chained)
        invariant After(sent)
        invariant wire == Wire(signedTable, chained, frames[..sent])
      {
        var ret := HandleTables(sent);
        if ret != 0 {
          return;
        }
        wire := wire + [Frame(frames[sent])];
        assert frames[..sent + 1][..sent] == frames[..sent];
        sent := sent + 1;
      }
    }
  }

  // ------------------------------------------------------------------
  // A device that checks the chain
  // ------------------------------------------------------------------

  datatype Device =
    | AwaitingSigned
    | Checking(pending: seq<Digest>, link: Option<Digest>)
    | Rejected

  function Unpack(t: seq<byte>, count: nat): (ds: seq<Digest>)
    requires 32 * count <= |t|
    ensures |ds| == count
  {
    if count == 0 then [] else Unpack(t, count - 1) + [t[32 * (count - 1)..32 * count]]
  }

  /** A table with all `capacity` entries present ends with the hash of the next table. */
  function ReadTable(t: seq<byte>, capacity: nat): Device
    requires capacity > 0
  {
    var n := |t| / 32;
    if n > capacity then Rejected
    else if n == capacity then Checking(Unpack(t, n - 1), Some(t[32 * (n - 1)..32 * (n - 1) + 32]))
    else Checking(Unpack(t, n), None)
  }

  function TableCapacity(t: nat): nat {
    if t == 0 then MAX_DIGESTS_PER_SIGNED_FILE else MAX_DIGESTS_PER_CHAINED_FILE
  }

  function DeviceStep(H: Hash, dev: Device, m: Message): Device {
    match (dev, m)
    case (AwaitingSigned, Table(t)) => ReadTable(t, MAX_DIGESTS_PER_SIGNED_FILE)
    case (Checking(pending, link), Table(t)) =>
      if pending == [] && link == Some(H(t)) then ReadTable(t, MAX_DIGESTS_PER_CHAINED_FILE) else Rejected
    case (Checking(pending, link), Frame(f)) =>
      if pending != [] && pending[0] == H(f) then Checking(pending[1..], link) else Rejected
    case _ => Rejected
  }

  function DeviceRun(H: Hash, wire: seq<Message>): Device {
    if wire == [] then AwaitingSigned
    else DeviceStep(H, DeviceRun(H, wire[..|wire| - 1]), wire[|wire| - 1])
  }

  lemma {:induction false} FlattenAt(ds: seq<Digest>, i: nat)
    requires i < |ds|
    ensures Flatten(ds)[32 * i..32 * i + 32] == ds[i]
  {
    var k := |ds| - 1;
    if i < k {
      FlattenAt(ds[..k], i);
      assert Flatten(ds)[32 * i..32 * i + 32] == Flatten(ds[..k])[32 * i..32 * i + 32];
    }
  }

  /** The finished tables of a dry run over `frames`. */
  function Generated(H: Hash, frames: seq<seq<byte>>, t: nat): seq<byte>
    requires |frames| > 0 && t <= ChainedCount(|frames|)
  {
    TableFile(H, Flatten(Digests(H, frames)), |frames|, t)
  }

  /** The device while table `t` is current and the first `j` frames have been checked. */
  function Expecting(H: Hash, frames: seq<seq<byte>>, t: nat, j: nat): Device
    requires |frames| > 0 && t <= ChainedCount(|frames|)
    requires TableStart(t) <= j <= TableEnd(t, |frames|)
  {
    Checking(Digests(H, frames)[j..TableEnd(t, |frames|)],
             if t < ChainedCount(|frames|) then Some(H(Generated(H, frames, t + 1))) else None)
  }

  lemma {:induction false} UnpackSlice(ds: seq<Digest>, from: nat, to: nat, tail: seq<byte>, k: nat)
    requires from + k <= to <= |ds|
    ensures Unpack(Slice(Flatten(ds), from, to) + tail, k) == ds[from..from + k]
  {
    if k > 0 {
      UnpackSlice(ds, from, to, tail, k - 1);
      var body := Slice(Flatten(ds), from, to);
      SliceOfLeft(body, tail, 32 * (k - 1), 32 * k);
      SliceOfSlice(Flatten(ds), 32 * from, 32 * to, 32 * (k - 1), 32 * k);
      FlattenAt(ds, from + k - 1);
    }
  }

  lemma TableSizes(t: nat, n: nat)
    requires n > 0 && t <= ChainedCount(n)
    ensures TableEnd(t, n) - TableStart(t) < TableCapacity(t)
    ensures t < ChainedCount(n) ==> TableEnd(t, n) - TableStart(t) == TableCapacity(t) - 1
  {
    TableRange(t, n);
  }

  /** A generated table is read back by the device as the digests and the link it was made from. */
  lemma ReadGenerated(H: Hash, frames: seq<seq<byte>>, t: nat)
    requires 0 < |frames| && t <= ChainedCount(|frames|)
    ensures TableStart(t) < TableEnd(t, |frames|)
    ensures ReadTable(Generated(H, frames, t), TableCapacity(t)) == Expecting(H, frames, t, TableStart(t))
  {
    hide TableStart, TableEnd, CurrentTable, Unpack, Digests, Flatten;
    var n, ds := |frames|, Digests(H, frames);
    var src := Flatten(ds);
    TableRange(t, n);
    TableSizes(t, n);
    var from, to := TableStart(t), TableEnd(t, n);
    var tail: seq<byte> :=
      if t < ChainedCount(n) then H(Generated(H, frames, t + 1)) else if t == 0 then [] else [0];
    var file := Generated(H, frames, t);
    assert file == Slice(src, from, to) + tail;
    UnpackSlice(ds, from, to, tail, to - from);
    EntryCount(file, to - from, tail);
  }

  lemma EntryCount(file: seq<byte>, count: nat, tail: seq<byte>)
    requires |file| == 32 * count + |tail|
    ensures |tail| < 32 ==> |file| / 32 == count
    ensures |tail| == 32 ==> |file| / 32 == count + 1 && file[32 * count..] == file[32 * count..32 * count + 32]
  {
  }

  lemma RunConcat(H: Hash, wire: seq<Message>, m: Message)
    ensures DeviceRun(H, wire + [m]) == DeviceStep(H, DeviceRun(H, wire), m)
  {
    assert (wire + [m])[..|wire|] == wire;
  }

  lemma StepWire(H: Hash, signed: seq<byte>, chained: seq<seq<byte>>, frames: seq<seq<byte>>, j: nat)
    requires j < |frames|
    ensures var w := Wire(signed, chained, frames[..j]);
      Wire(signed, chained, frames[..j + 1]) == w + TableBefore(signed, chained, j) + [Frame(frames[j])]
  {
    assert frames[..j + 1][..j] == frames[..j];
  }

  lemma StartWire(signed: seq<byte>, chained: seq<seq<byte>>, frames: seq<seq<byte>>)
    ensures Wire(signed, chained, frames[..0]) == []
    ensures TableStart(0) == 0
  {
  }

  lemma FrameAccepted(H: Hash, frames: seq<seq<byte>>, t: nat, j: nat)
    requires |frames| > 0 && t <= ChainedCount(|frames|)
    requires TableStart(t) < j <= TableEnd(t, |frames|)
    ensures DeviceStep(H, Expecting(H, frames, t, j - 1), Frame(frames[j - 1])) == Expecting(H, frames, t, j)
  {
    var ds := Digests(H, frames);
    assert ds[j - 1..TableEnd(t, |frames|)][1..] == ds[j..TableEnd(t, |frames|)];
  }

  lemma TableAccepted(H: Hash, frames: seq<seq<byte>>, t: nat)
    requires |frames| > 0 && t <= ChainedCount(|frames|)
    ensures TableStart(t) < TableEnd(t, |frames|)
    ensures t > 0 ==> TableStart(t - 1) < TableEnd(t - 1, |frames|) == TableStart(t)
    ensures var before := if t == 0 then AwaitingSigned else Expecting(H, frames, t - 1, TableStart(t));
      DeviceStep(H, before, Table(Generated(H, frames, t))) == Expecting(H, frames, t, TableStart(t))
  {
    ReadGenerated(H, frames, t);
    if t > 0 {
      TableRange(t - 1, |frames|);
    }
  }

  /** Frame `j - 1` goes out while the table holding its digest is current, for every `j`. */
  lemma {:induction false} PrefixAccepted(H: Hash, frames: seq<seq<byte>>, signed: seq<byte>, chained: seq<seq<byte>>, j: nat)
    requires 0 < j <= |frames| && CurrentTable(j) <= |chained|
    requires signed == Generated(H, frames, 0)
    requires forall t: nat :: 0 < t <= |chained| && t <= ChainedCount(|frames|) ==> chained[t - 1] == Generated(H, frames, t)
    ensures CurrentTable(j) <= ChainedCount(|frames|)
    ensures TableStart(CurrentTable(j)) <= j <= TableEnd(CurrentTable(j), |frames|)
    ensures DeviceRun(H, Wire(signed, chained, frames[..j])) == Expecting(H, frames, CurrentTable(j), j)
  {
    hide TableStart, TableEnd, CurrentTable, Expecting, Generated, DeviceStep, Wire;
    var t := CurrentTable(j);
    var w0, tables := Wire(signed, chained, frames[..j - 1]), TableBefore(signed, chained, j - 1);
    StepWire(H, signed, chained, frames, j - 1);
    CurrentTableAtMost(j, ChainedCount(|frames|));
    TableRange(t, |frames|);
    StartWire(signed, chained, frames);
    if j > 1 {
      CurrentTableAtMost(j - 1, t);
      PrefixAccepted(H, frames, signed, chained, j - 1);
    }
    if j - 1 == TableStart(t) {
      TableAccepted(H, frames, t);
      if t > 0 {
        CurrentTableUnique(j - 1, t - 1);
      }
      assert tables == [Table(Generated(H, frames, t))];
      RunConcat(H, w0, tables[0]);
    } else {
      CurrentTableUnique(j - 1, t);
      assert w0 + tables == w0;
    }
    FrameAccepted(H, frames, t, j);
    RunConcat(H, w0 + tables, Frame(frames[j - 1]));
  }

  /** Everything has been checked: no digest and no link is left exactly when `j` is the frame count. */
  lemma AllChecked(H: Hash, frames: seq<seq<byte>>, j: nat)
    requires 0 < j <= |frames|
    ensures CurrentTable(j) <= ChainedCount(|frames|)
    ensures TableStart(CurrentTable(j)) <= j <= TableEnd(CurrentTable(j), |frames|)
    ensures Expecting(H, frames, CurrentTable(j), j) == Checking([], None) <==> j == |frames|
  {
    CurrentTableAtMost(j, ChainedCount(|frames|));
    TableRange(CurrentTable(j), |frames|);
  }

  /** The frames on a wire, in order. */
  function FramesOf(wire: seq<Message>): seq<seq<byte>> {
    if wire == [] then []
    else
      var m := wire[|wire| - 1];
      FramesOf(wire[..|wire| - 1]) + (if m.Frame? then [m.payload] else [])
  }

  /** No message on the wire has the hash of a dry-run frame or table while being something else. */
  ghost predicate NoCollision(H: Hash, frames: seq<seq<byte>>, wire: seq<Message>)
    requires |frames| > 0
  {
    && (forall m, f :: m in wire && m.Frame? && f in frames && H(m.payload) == H(f) ==> m.payload == f)
    && (forall m, t: nat :: m in wire && m.Table? && t <= ChainedCount(|frames|) ==>
          H(m.data) == H(Generated(H, frames, t)) ==> m.data == Generated(H, frames, t))
  }

  /**
   * The chain binds: whatever stream a device accepts after the authentic signed table,
   * its frames are the dry run's frames in order, short of a hash collision.
   */
  lemma {:induction false} ChainBinds(H: Hash, frames: seq<seq<byte>>, wire: seq<Message>) returns (t: nat)
    requires |frames| > 0 && wire != [] && wire[0] == Table(Generated(H, frames, 0))
    requires NoCollision(H, frames, wire)
    requires DeviceRun(H, wire) != Rejected
    ensures FramesOf(wire) <= frames
    ensures t <= ChainedCount(|frames|) && TableStart(t) <= |FramesOf(wire)| <= TableEnd(t, |frames|)
    ensures DeviceRun(H, wire) == Expecting(H, frames, t, |FramesOf(wire)|)
  {
    hide TableStart, TableEnd, CurrentTable, Generated, Digests, Expecting, DeviceStep, DeviceRun, FramesOf;
    var before, m := wire[..|wire| - 1], wire[|wire| - 1];
    assert wire == before + [m];
    RunConcat(H, before, m);
    FramesSnoc(before, m);
    if |wire| == 1 {
      RunStart(H);
      TableAccepted(H, frames, 0);
      StartWire([], [], []);
      t := 0;
      return;
    }
    RejectedSticks(H, before, m);
    t := ChainBinds(H, frames, before);
    var j := |FramesOf(before)|;
    assert m in wire;
    match m
    case Frame(f) =>
      NextFrameBinds(H, frames, t, j, f);
      FrameAccepted(H, frames, t, j + 1);
    case Table(data) =>
      NextTableBinds(H, frames, t, j, data);
      TableAccepted(H, frames, t + 1);
      t := t + 1;
  }

  lemma RunStart(H: Hash)
    ensures DeviceRun(H, []) == AwaitingSigned && FramesOf([]) == []
  {
  }

  lemma FramesSnoc(wire: seq<Message>, m: Message)
    ensures FramesOf(wire + [m]) == FramesOf(wire) + if m.Frame? then [m.payload] else []
  {
    assert (wire + [m])[..|wire|] == wire;
  }

  lemma RejectedSticks(H: Hash, wire: seq<Message>, m: Message)
    requires DeviceRun(H, wire + [m]) != Rejected
    ensures DeviceRun(H, wire) != Rejected
  {
    RunConcat(H, wire, m);
  }

  lemma NextFrameBinds(H: Hash, frames: seq<seq<byte>>, t: nat, j: nat, f: seq<byte>)
    requires |frames| > 0 && t <= ChainedCount(|frames|) && TableStart(t) <= j <= TableEnd(t, |frames|)
    requires DeviceStep(H, Expecting(H, frames, t, j), Frame(f)) != Rejected
    ensures j < TableEnd(t, |frames|) <= |frames| && H(f) == H(frames[j])
  {
  }

  lemma NextTableBinds(H: Hash, frames: seq<seq<byte>>, t: nat, j: nat, data: seq<byte>)
    requires |frames| > 0 && t <= ChainedCount(|frames|) && TableStart(t) <= j <= TableEnd(t, |frames|)
    requires DeviceStep(H, Expecting(H, frames, t, j), Table(data)) != Rejected
    ensures t < ChainedCount(|frames|) && j == TableStart(t + 1) && H(data) == H(Generated(H, frames, t + 1))
  {
    TableRange(t, |frames|);
  }

  /**
   * The two halves agree.  After a dry run over `frames` into any directory, sending
   * the same frames reaches the device as a stream it accepts to the end, with every
   * digest used and no link left over - as long as the 32 opened tables are enough.
   * One frame more and the sender stops at exactly the first frame without a table.
   */
  method FlashGenerated(H: Hash, dir: Directory, frames: seq<seq<byte>>) returns (sent: nat, wire: seq<Message>)
    requires |frames| > 0
    modifies dir
    ensures sent == Min(|frames|, 53 + 255 * 32)
    ensures CurrentTable(sent) <= ChainedCount(|frames|) && sent <= TableEnd(CurrentTable(sent), |frames|)
    ensures DeviceRun(H, wire) == Expecting(H, frames, CurrentTable(sent), sent)
    ensures DeviceRun(H, wire) == Checking([], None) <==>
      |frames| <= 53 + 255 * 32
  {
    dir.Generate(H, frames);
    assert dir.Holds(TableName(0), Generated(H, frames, 0));
    var transfer := new Transfer(dir, dir.files[ToSign]);
    OpenedTables(H, dir, frames, transfer.chained);
    sent := transfer.SendFrames(frames);
    wire := transfer.wire;
    StartsAscend(0, |transfer.chained| + 1);
    CurrentTableAtMost(sent, |transfer.chained|);
    PrefixAccepted(H, frames, transfer.signedTable, transfer.chained, sent);
    AllChecked(H, frames, sent);
  }

  /** The sender opens every generated table up to its limit, and possibly stale ones after them. */
  lemma OpenedTables(H: Hash, dir: Directory, frames: seq<seq<byte>>, chained: seq<seq<byte>>)
    requires |frames| > 0
    requires forall t: nat :: t <= ChainedCount(|frames|) ==> dir.Holds(TableName(t), Generated(H, frames, t))
    requires |chained| <= MAX_CHAINED_FILES
    requires forall i :: 0 <= i < |chained| ==> dir.Holds(Chained(i), chained[i])
    requires |chained| < MAX_CHAINED_FILES ==> Chained(|chained|) !in dir.files
    ensures forall t: nat :: 0 < t <= |chained| && t <= ChainedCount(|frames|) ==> chained[t - 1] == Generated(H, frames, t)
    ensures Min(|frames|, TableStart(|chained| + 1)) == Min(|frames|, TableStart(MAX_CHAINED_FILES + 1))
    ensures TableStart(MAX_CHAINED_FILES + 1) == MAX_DIGESTS_PER_SIGNED_TABLE + MAX_DIGESTS_PER_CHAINED_TABLE * MAX_CHAINED_FILES
  {
    hide TableStart, ChainedCount, Generated;
    forall t: nat | 0 < t <= |chained| && t <= ChainedCount(|frames|)
      ensures chained[t - 1] == Generated(H, frames, t)
    {
      assert dir.Holds(TableName(t), Generated(H, frames, t)) && dir.Holds(Chained(t - 1), chained[t - 1]);
    }
    StartFormula(MAX_CHAINED_FILES + 1);
    if |chained| < MAX_CHAINED_FILES {
      AllOpened(H, dir, frames, |chained|);
      EnoughTables(|frames|, |chained|);
      EnoughTables(|frames|, MAX_CHAINED_FILES);
    }
  }

  /** A missing chained file means that no generated one follows. */
  lemma AllOpened(H: Hash, dir: Directory, frames: seq<seq<byte>>, n: nat)
    requires |frames| > 0 && Chained(n) !in dir.files
    requires forall t: nat :: t <= ChainedCount(|frames|) ==> dir.Holds(TableName(t), Generated(H, frames, t))
    ensures ChainedCount(|frames|) <= n
  {
    hide ChainedCount, Generated;
    var next := Min(n + 1, ChainedCount(|frames|));
    assert dir.Holds(TableName(next), Generated(H, frames, next));
  }

  lemma EnoughTables(n: nat, tables: nat)
    requires n > 0 && ChainedCount(n) <= tables
    ensures n <= TableStart(tables + 1)
  {
    if ChainedCount(n) < tables {
      StartsAscend(ChainedCount(n) + 1, tables + 1);
    }
  }
}
