/**
 * The open-addressing set of paths used while collecting EFS files: linear probing from an
 * FNV-1a hash, no removal, and no insertion beyond three quarters of the capacity.
 */
module PathSets {
  import opened Bytes
  import Words

  /** A C string without its terminating NUL. */
  type Path = seq<byte>

  const FNV_OFFSET: bv32 := 2166136261
  const FNV_PRIME: bv32 := 16777619

  function Mix(h: bv32, b: byte): bv32 {
    Stir(h, Words.FromByte(b))
  }

  function Stir(h: bv32, x: bv32): bv32 {
    (h ^ x) * FNV_PRIME
  }

  function PathHash(s: Path): bv32 {
    if s == [] then FNV_OFFSET else Mix(PathHash(s[..|s| - 1]), s[|s| - 1])
  }

  method ComputeHash(s: Path) returns (h: bv32)
    ensures h == PathHash(s)
  {
    hide Mix;
    h := FNV_OFFSET;
    for i := 0 to |s|
      invariant h == PathHash(s[..i])
    {
      assert s[..i + 1][..i] == s[..i];
      h := Mix(h, s[i]);
    }
    assert s[..|s|] == s;
  }

  /** Three of the published values: those of the empty text, "a" and "aa". */
  lemma KnownHashes()
    ensures PathHash([]) == 0x811C9DC5 && PathHash([97]) == 0xE40C292C && PathHash([97, 97]) == 0x4C250437
  {
    hide Stir, Words.FromByte;
    KnownByte();
    KnownStirs();
    assert [97, 97][..1] == [97];
  }

  lemma KnownByte()
    ensures Words.FromByte(97) == 97
  {
    assert Words.BitsOf(6, 4) == 6;
    assert Words.BitsOf(24, 6) == 24;
  }

  lemma KnownStirs()
    ensures Stir(0x811C9DC5, 97) == 0xE40C292C && Stir(0xE40C292C, 97) == 0x4C250437
  {
  }

  type Slots = s: seq<Option<Path>> | |s| > 0 witness [None]

  function Home(p: Path, n: nat): (i: nat)
    requires n > 0
    ensures i < n
  {
    Words.Number(PathHash(p)) % n
  }

  function Slot(home: nat, k: nat, n: nat): (i: nat)
    requires n > 0
    ensures i < n
  {
    (home + k) % n
  }

  lemma SlotReaches(home: nat, i: nat, n: nat) returns (k: nat)
    requires home < n && i < n
    ensures k < n && Slot(home, k, n) == i
  {
    k := if home <= i then i - home else i + n - home;
    Unwrap(home + k, n);
  }

  lemma Unwrap(i: nat, n: nat)
    requires i < n + n && n > 0
    ensures i % n == if i < n then i else i - n
  {
    if i >= n {
      assert i / n == 1;
    }
  }

  /** The slot visited after `k` probes for `p`. */
  function Probe(s: Slots, p: Path, k: nat): (i: nat)
    ensures i < |s|
  {
    Slot(Home(p, |s|), k, |s|)
  }

  /** Path `p` sits `d` probes from its home slot, with no gap before it. */
  ghost predicate At(s: Slots, p: Path, d: nat) {
    d < |s| && s[Probe(s, p, d)] == Some(p) && Filled(s, p, d)
  }

  /** The first `d` slots on the chain of `p` are taken. */
  ghost predicate Filled(s: Slots, p: Path, d: nat) {
    forall k :: 0 <= k < d ==> s[Probe(s, p, k)].Some?
  }

  /** None of the first `d` slots on the chain of `p` holds it. */
  ghost predicate Missed(s: Slots, p: Path, d: nat) {
    forall k :: 0 <= k < d ==> s[Probe(s, p, k)] != Some(p)
  }

  /** The table stands for `members`: each is reachable along its probe chain, and nothing is stored twice. */
  ghost predicate Represents(s: Slots, members: set<Path>) {
    && Reachable(s, members)
    && (forall i :: 0 <= i < |s| && s[i].Some? ==> s[i].value in members)
    && (forall i, j :: 0 <= i < j < |s| && s[i].Some? ==> s[i] != s[j])
  }

  ghost predicate Reachable(s: Slots, members: set<Path>) {
    forall p :: p in members ==> exists d :: At(s, p, d)
  }

  /** A gap on the probe chain of `p`, or a full round without meeting it, means `p` is absent. */
  lemma Absent(s: Slots, members: set<Path>, p: Path, i: nat)
    requires Reachable(s, members) && i <= |s|
    requires Missed(s, p, i)
    requires i == |s| || s[Probe(s, p, i)] == None
    ensures p !in members
  {
    hide Probe;
    forall d | At(s, p, d)
      ensures false
    {
      NotAt(s, p, i, d);
    }
  }

  lemma NotAt(s: Slots, p: Path, i: nat, d: nat)
    requires i <= |s| && Missed(s, p, i)
    requires i == |s| || s[Probe(s, p, i)] == None
    ensures !At(s, p, d)
  {
    hide Probe;
  }

  function Occupants(s: seq<Option<Path>>): set<Path> {
    if s == [] then {} else Occupants(s[1..]) + (if s[0].Some? then {s[0].value} else {})
  }

  lemma {:induction false} OccupantsAre(s: seq<Option<Path>>)
    ensures forall p :: p in Occupants(s) <==> Some(p) in s
  {
    if s != [] {
      OccupantsAre(s[1..]);
      assert s == [s[0]] + s[1..];
    }
  }

  lemma {:induction false} FullTable(s: seq<Option<Path>>)
    requires forall i :: 0 <= i < |s| ==> s[i].Some?
    requires forall i, j :: 0 <= i < j < |s| ==> s[i] != s[j]
    ensures |Occupants(s)| == |s|
  {
    if s != [] {
      FullTable(s[1..]);
      OccupantsAre(s[1..]);
      assert s[0].value !in Occupants(s[1..]);
    }
  }

  /** Fewer members than slots leave a free slot on every probe chain. */
  lemma FreeSlot(s: Slots, members: set<Path>, p: Path) returns (k: nat)
    requires Represents(s, members) && |members| < |s|
    ensures k < |s| && s[Probe(s, p, k)] == None
  {
    if forall i :: 0 <= i < |s| ==> s[i].Some? {
      FullTable(s);
      OccupantsAre(s);
      forall q | q in Occupants(s)
        ensures q in members
      {
        assert Some(q) in s;
      }
      SubsetSize(Occupants(s), members);
      assert false;
    }
    var i :| 0 <= i < |s| && s[i] == None;
    k := SlotReaches(Home(p, |s|), i, |s|);
  }

  lemma SubsetSize(a: set<Path>, b: set<Path>)
    requires a <= b
    ensures |a| <= |b|
  {
    assert b == a + (b - a);
  }

  /** Filling the first gap on the chain of `p` adds exactly `p`. */
  lemma InsertAtGap(s: Slots, members: set<Path>, p: Path, i: nat)
    requires Represents(s, members) && p !in members && i < |s|
    requires Filled(s, p, i) && s[Probe(s, p, i)] == None
    ensures Represents(s[Probe(s, p, i) := Some(p)], members + {p})
  {
    hide Probe, At;
    var t := s[Probe(s, p, i) := Some(p)];
    forall q | q in members + {p}
      ensures exists d :: At(t, q, d)
    {
      if q == p {
        FillsGap(s, p, i);
      } else {
        var d :| At(s, q, d);
        ChainSurvives(s, q, d, Probe(s, p, i), p);
      }
    }
  }

  lemma FillsGap(s: Slots, p: Path, i: nat)
    requires i < |s| && Filled(s, p, i)
    ensures At(s[Probe(s, p, i) := Some(p)], p, i)
  {
    hide Slot, Home;
    var t := s[Probe(s, p, i) := Some(p)];
    forall k | 0 <= k < i
      ensures t[Probe(t, p, k)].Some?
    {
      assert Probe(t, p, k) == Probe(s, p, k);
    }
  }

  lemma ChainSurvives(s: Slots, q: Path, d: nat, slot: nat, p: Path)
    requires At(s, q, d) && slot < |s| && s[slot] == None
    ensures At(s[slot := Some(p)], q, d)
  {
    hide Slot, Home;
    var t := s[slot := Some(p)];
    forall k | 0 <= k < d
      ensures t[Probe(t, q, k)].Some?
    {
      assert Probe(t, q, k) == Probe(s, q, k);
    }
  }

  lemma FilledStart(s: Slots, p: Path)
    ensures Filled(s, p, 0)
  {
  }

  lemma FilledNext(s: Slots, p: Path, i: nat)
    requires Filled(s, p, i) && s[Probe(s, p, i)].Some?
    ensures Filled(s, p, i + 1)
  {
  }

  lemma HomeIs(p: Path, n: nat)
    requires n > 0
    ensures Words.Number(PathHash(p)) % n == Home(p, n)
  {
    hide PathHash, Words.Number;
  }

  lemma SlotIs(home: nat, k: nat, n: nat)
    requires n > 0
    ensures (home + k) % n == Slot(home, k, n)
  {
  }

  function AddUpTo(members: set<Path>, p: Path, limit: nat): set<Path> {
    if p in members || |members| >= limit then members else members + {p}
  }

  class PathSet {
    const entries: array<Option<Path>>
    var count: nat
    ghost var members: set<Path>

    ghost predicate Valid()
      reads this, entries
    {
      entries.Length > 0 && Represents(entries[..], members) && count == |members| && count <= Limit() < entries.Length
    }

    /** At most three quarters of the slots are ever used. */
    function Limit(): nat
      reads this
    {
      entries.Length * 3 / 4
    }

    constructor (capacity: nat)
      requires capacity > 0
      ensures Valid() && fresh(entries) && entries.Length == capacity && members == {}
    {
      entries := new Option<Path>[capacity](_ => None);
      count, members := 0, {};
    }

    method Contains(path: Path) returns (found: bool)
      requires Valid()
      ensures found <==> path in members
    {
      hide Slot, Home, PathHash, Words.Number, At;
      var hash := ComputeHash(path);
      var idx := Words.Number(hash) % entries.Length;
      HomeIs(path, entries.Length);
      ghost var s: Slots := entries[..];
      for i := 0 to entries.Length
        invariant Missed(s, path, i)
      {
        var slot := (idx + i) % entries.Length;
        SlotIs(idx, i, entries.Length);
        if entries[slot] == None {
          Absent(s, members, path, i);
          return false;
        }
        if entries[slot] == Some(path) {
          assert s[slot] == Some(path);
          return true;
        }
        assert s[slot] != Some(path);
      }
      Absent(s, members, path, entries.Length);
      found := false;
    }

    /** Occupies a free slot. */
    method Put(slot: nat, path: Path)
      requires Valid() && slot < entries.Length && path !in members && count < Limit()
      requires Represents(entries[..][slot := Some(path)], members + {path})
      modifies this, entries
      ensures Valid() && members == old(members) + {path}
    {
      hide Represents;
      ghost var t := entries[..][slot := Some(path)];
      entries[slot] := Some(path);
      members := members + {path};
      count := count + 1;
      assert entries[..] == t;
    }

    /** Adds `path` unless it is present or the table is at its limit. */
    method Add(path: Path)
      requires Valid()
      modifies this, entries
      ensures Valid()
      ensures members == AddUpTo(old(members), path, entries.Length * 3 / 4)
    {
      hide Slot, Home, PathHash, Words.Number, Represents, Filled;
      var present := Contains(path);
      if present || count >= Limit() {
        return;
      }
      var hash := ComputeHash(path);
      var idx := Words.Number(hash) % entries.Length;
      HomeIs(path, entries.Length);
      ghost var s: Slots := entries[..];
      ghost var free := FreeSlot(s, members, path);
      FilledStart(s, path);
      for i := 0 to entries.Length
        invariant i <= free && entries[..] == s && Valid() && members == old(members) && count == old(count)
        invariant Filled(s, path, i)
      {
        var slot := (idx + i) % entries.Length;
        SlotIs(idx, i, entries.Length);
        assert slot == Probe(s, path, i);
        if entries[slot] == None {
          InsertAtGap(s, members, path, i);
          Put(slot, path);
          return;
        }
        FilledNext(s, path, i);
      }
    }
  }

  // ---- Whole histories of additions ----

  function Distinct(paths: seq<Path>): set<Path> {
    set p | p in paths
  }

  /** What the table holds after adding `paths` one by one. */
  function Accepted(paths: seq<Path>, limit: nat): set<Path> {
    if paths == [] then {} else AddUpTo(Accepted(paths[..|paths| - 1], limit), paths[|paths| - 1], limit)
  }

  /** `p` occurs for the first time at a moment when fewer than `limit` distinct paths have occurred. */
  ghost predicate InTime(paths: seq<Path>, p: Path, limit: nat) {
    exists i :: 0 <= i < |paths| && FirstAt(paths, p, i) && |Distinct(paths[..i])| < limit
  }

  ghost predicate FirstAt(paths: seq<Path>, p: Path, i: nat) {
    i < |paths| && paths[i] == p && p !in paths[..i]
  }

  lemma DistinctGrows(paths: seq<Path>, p: Path)
    ensures Distinct(paths + [p]) == Distinct(paths) + {p}
  {
  }

  /** Below the limit the table is exact; from then on it stays at the limit. */
  lemma {:induction false} AcceptedSize(paths: seq<Path>, limit: nat)
    ensures Accepted(paths, limit) <= Distinct(paths)
    ensures |Distinct(paths)| <= limit ==> Accepted(paths, limit) == Distinct(paths)
    ensures |Distinct(paths)| >= limit ==> |Accepted(paths, limit)| == limit
  {
    if paths != [] {
      var n := |paths| - 1;
      AcceptedSize(paths[..n], limit);
      DistinctGrows(paths[..n], paths[n]);
      assert paths[..n] + [paths[n]] == paths;
      AddedSize(Accepted(paths[..n], limit), Distinct(paths[..n]), paths[n], limit);
      hide Distinct, AddUpTo;
    }
  }

  lemma AddedSize(members: set<Path>, all: set<Path>, p: Path, limit: nat)
    requires members <= all && (|all| <= limit ==> members == all) && (|all| >= limit ==> |members| == limit)
    ensures var m, a := AddUpTo(members, p, limit), all + {p};
      m <= a && (|a| <= limit ==> m == a) && (|a| >= limit ==> |m| == limit)
  {
    if p in all {
      assert all + {p} == all;
    } else {
      assert |all + {p}| == |all| + 1;
    }
  }

  /** A path is in the table exactly when its first addition came before the limit was reached. */
  lemma {:induction false} AcceptedExactly(paths: seq<Path>, limit: nat, p: Path)
    ensures p in Accepted(paths, limit) <==> InTime(paths, p, limit)
  {
    if paths != [] {
      var n := |paths| - 1;
      var init := paths[..n];
      AcceptedExactly(init, limit, p);
      InTimeStep(paths, p, limit);
      AcceptedSize(init, limit);
    }
  }

  lemma InTimeStep(paths: seq<Path>, p: Path, limit: nat)
    requires paths != []
    ensures var n := |paths| - 1;
      InTime(paths, p, limit)
      <==> InTime(paths[..n], p, limit) || (p == paths[n] && p !in paths[..n] && |Distinct(paths[..n])| < limit)
  {
    hide Distinct;
    var n := |paths| - 1;
    var init := paths[..n];
    assert forall i :: 0 <= i < n ==> init[..i] == paths[..i];
    if InTime(paths, p, limit) {
      var i :| 0 <= i < |paths| && FirstAt(paths, p, i) && |Distinct(paths[..i])| < limit;
      if i < n {
        assert FirstAt(init, p, i);
      }
    }
    if InTime(init, p, limit) {
      var i :| 0 <= i < |init| && FirstAt(init, p, i) && |Distinct(init[..i])| < limit;
      assert FirstAt(paths, p, i);
    }
    if p == paths[n] && p !in init && |Distinct(init)| < limit {
      assert FirstAt(paths, p, n);
    }
  }

  /** Adds a whole list and answers one query: the table agrees with the history. */
  method AddAll(seen: PathSet, paths: seq<Path>, query: Path) returns (found: bool)
    requires seen.Valid() && seen.members == {}
    modifies seen, seen.entries
    ensures seen.Valid() && seen.members == Accepted(paths, seen.entries.Length * 3 / 4)
    ensures found <==> InTime(paths, query, seen.entries.Length * 3 / 4)
  {
    hide InTime, Represents;
    for i := 0 to |paths|
      invariant seen.Valid() && seen.members == Accepted(paths[..i], seen.Limit())
    {
      assert paths[..i + 1][..i] == paths[..i];
      seen.Add(paths[i]);
    }
    assert paths[..|paths|] == paths;
    AcceptedExactly(paths, seen.Limit(), query);
    found := seen.Contains(query);
  }

  // ---- The files collected for a backup ----

  datatype File = File(path: Path, content: seq<byte>)

  /** The regular files a device lets the tool open, with the bytes that its reads deliver. */
  type Device = map<Path, seq<byte>>

  function Readable(device: Device, paths: seq<Path>): seq<Path> {
    if paths == [] then [] else
      var rest := Readable(device, paths[..|paths| - 1]);
      if paths[|paths| - 1] in device then rest + [paths[|paths| - 1]] else rest
  }

  /** The collected list after probing `paths` in order. */
  function Collected(device: Device, paths: seq<Path>, limit: nat): seq<File> {
    if paths == [] then [] else
      var init, p := paths[..|paths| - 1], paths[|paths| - 1];
      var files := Collected(device, init, limit);
      if p in Accepted(Readable(device, init), limit) || p !in device then files else files + [File(p, device[p])]
  }

  function Occurrences(paths: seq<Path>, p: Path): nat {
    if paths == [] then 0 else Occurrences(paths[..|paths| - 1], p) + (if paths[|paths| - 1] == p then 1 else 0)
  }

  function Times(files: seq<File>, p: Path): nat {
    if files == [] then 0 else Times(files[..|files| - 1], p) + (if files[|files| - 1].path == p then 1 else 0)
  }

  class Collection {
    const seen: PathSet
    var files: seq<File>

    constructor (capacity: nat)
      requires capacity > 0
      ensures files == [] && seen.Valid() && seen.members == {} && fresh(seen) && fresh(seen.entries)
      ensures seen.entries.Length == capacity
    {
      seen := new PathSet(capacity);
      files := [];
    }

    /** Reads `path` into the list unless it was recorded as seen. */
    method AddFile(device: Device, path: Path)
      requires seen.Valid()
      modifies this, seen, seen.entries
      ensures seen.Valid()
      ensures path in old(seen.members) || path !in device ==> seen.members == old(seen.members) && files == old(files)
      ensures path !in old(seen.members) && path in device ==>
        seen.members == AddUpTo(old(seen.members), path, seen.Limit()) && files == old(files) + [File(path, device[path])]
    {
      var known := seen.Contains(path);
      if known || path !in device {
        return;
      }
      files := files + [File(path, device[path])];
      seen.Add(path);
    }

    method Collect(device: Device, paths: seq<Path>)
      requires seen.Valid() && seen.members == {} && files == []
      modifies this, seen, seen.entries
      ensures seen.entries.Length == 4096 ==> seen.Limit() == 3072
      ensures files == Collected(device, paths, seen.Limit())
      ensures seen.Valid() && seen.members == Accepted(Readable(device, paths), seen.Limit())
    {
      for i := 0 to |paths|
        invariant seen.Valid() && files == Collected(device, paths[..i], seen.Limit())
        invariant seen.members == Accepted(Readable(device, paths[..i]), seen.Limit())
      {
        hide Collected, Accepted, Readable, AddUpTo, Represents;
        ghost var init := paths[..i + 1];
        assert init[..i] == paths[..i] && init[i] == paths[i];
        AddFile(device, paths[i]);
        CollectedStep(device, init, seen.Limit());
      }
      assert paths[..|paths|] == paths;
    }
  }

  lemma CollectedStep(device: Device, paths: seq<Path>, limit: nat)
    requires paths != []
    ensures var init, p := paths[..|paths| - 1], paths[|paths| - 1];
      var before := Accepted(Readable(device, init), limit);
      var skip := p in before || p !in device;
      && Collected(device, paths, limit)
        == (if skip then Collected(device, init, limit) else Collected(device, init, limit) + [File(p, device[p])])
      && Accepted(Readable(device, paths), limit) == (if skip then before else AddUpTo(before, p, limit))
  {
    var init, p := paths[..|paths| - 1], paths[|paths| - 1];
    if p in device {
      var all := Readable(device, init) + [p];
      assert all[..|all| - 1] == Readable(device, init);
    }
  }

  lemma {:induction false} ReadableAre(device: Device, paths: seq<Path>, p: Path)
    ensures p in Readable(device, paths) <==> p in paths && p in device
  {
    if paths != [] {
      ReadableAre(device, paths[..|paths| - 1], p);
      assert paths == paths[..|paths| - 1] + [paths[|paths| - 1]];
    }
  }

  lemma {:induction false} AbsentNeverOccurs(paths: seq<Path>, p: Path)
    requires p !in paths
    ensures Occurrences(paths, p) == 0
  {
    if paths != [] {
      AbsentNeverOccurs(paths[..|paths| - 1], p);
    }
  }

  /** A recorded path is collected once; a readable path that came too late, as often as it was probed. */
  lemma {:induction false} CollectedTimes(device: Device, paths: seq<Path>, limit: nat, p: Path)
    ensures Times(Collected(device, paths, limit), p)
      == if p !in device then 0 else if p in Accepted(Readable(device, paths), limit) then 1 else Occurrences(paths, p)
  {
    if paths != [] {
      var init, last := paths[..|paths| - 1], paths[|paths| - 1];
      CollectedTimes(device, init, limit, p);
      CollectedStep(device, paths, limit);
      var before := Accepted(Readable(device, init), limit);
      if p in device && p !in before && |before| < limit {
        RoomForNew(device, init, limit, p);
      }
      hide Collected, Readable, Accepted;
      if last in device {
        TimesStep(Collected(device, init, limit), File(last, device[last]), p);
      }
    }
  }

  lemma RoomForNew(device: Device, paths: seq<Path>, limit: nat, p: Path)
    requires p in device && p !in Accepted(Readable(device, paths), limit)
    requires |Accepted(Readable(device, paths), limit)| < limit
    ensures Occurrences(paths, p) == 0
  {
    AcceptedSize(Readable(device, paths), limit);
    ReadableAre(device, paths, p);
    AbsentNeverOccurs(paths, p);
  }

  lemma TimesStep(files: seq<File>, f: File, p: Path)
    ensures Times(files + [f], p) == Times(files, p) + (if f.path == p then 1 else 0)
  {
    assert (files + [f])[..|files|] == files;
  }

  ghost predicate PairwiseDistinct(files: seq<File>) {
    forall p :: Times(files, p) <= 1
  }

  /** No file is collected twice, exactly when no late readable path is probed twice. */
  lemma CollectedDistinct(device: Device, paths: seq<Path>, limit: nat)
    ensures PairwiseDistinct(Collected(device, paths, limit)) <==>
      forall p :: p in device && Occurrences(paths, p) > 1 ==> InTime(Readable(device, paths), p, limit)
  {
    hide InTime, Collected, Readable, Accepted;
    var files := Collected(device, paths, limit);
    forall p
      ensures Times(files, p) <= 1 <==> (p in device && Occurrences(paths, p) > 1 ==> InTime(Readable(device, paths), p, limit))
    {
      CollectedTimes(device, paths, limit, p);
      AcceptedExactly(Readable(device, paths), limit, p);
    }
  }

  /** Below the limit the collection holds every readable probed path exactly once. */
  lemma CollectedBelowLimit(device: Device, paths: seq<Path>, limit: nat, p: Path)
    requires |Distinct(Readable(device, paths))| <= limit
    ensures Times(Collected(device, paths, limit), p) == if p in paths && p in device then 1 else 0
  {
    CollectedTimes(device, paths, limit, p);
    AcceptedSize(Readable(device, paths), limit);
    ReadableAre(device, paths, p);
    if p !in paths {
      AbsentNeverOccurs(paths, p);
    }
  }
}
