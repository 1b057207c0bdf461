/** The two conversion loops, proved against the conversions of module Xqcn. */
module XqcnConvert {
  import opened Bytes
  import Tar
  import Hex
  import opened Xqcn
  import opened XqcnRoundTrip

  // ---- Archive to XQCN ----

  /** `items` gathered so far and those still to come make up all the items of one kind. */
  ghost predicate Gathered(all: seq<Item>, rest: seq<Item>, nv: seq<Item>, backup: seq<Item>, prov: seq<Item>, rfc: seq<Item>) {
    && NvIn(all) == nv + NvIn(rest)
    && FilesIn(all, Backup) == backup + FilesIn(rest, Backup)
    && FilesIn(all, Provisioning) == prov + FilesIn(rest, Provisioning)
    && FilesIn(all, NvFiles) == rfc + FilesIn(rest, NvFiles)
  }

  lemma GatheredStart(all: seq<Item>)
    ensures Gathered(all, all, [], [], [], [])
  {
  }

  lemma FilesStep(items: seq<Item>, section: Section)
    requires items != []
    ensures FilesIn(items, section)
      == if items[0].File? && SectionOf(items[0].path) == section then [items[0]] + FilesIn(items[1..], section) else FilesIn(items[1..], section)
  {
  }

  lemma GatheredNext(all: seq<Item>, item: Item, rest: seq<Item>,
                     nv: seq<Item>, backup: seq<Item>, prov: seq<Item>, rfc: seq<Item>)
    requires Gathered(all, [item] + rest, nv, backup, prov, rfc)
    ensures Gathered(all, rest, if item.Nv? then nv + [item] else nv,
                     if item.File? && SectionOf(item.path) == Backup then backup + [item] else backup,
                     if item.File? && SectionOf(item.path) == Provisioning then prov + [item] else prov,
                     if item.File? && SectionOf(item.path) == NvFiles then rfc + [item] else rfc)
  {
    var items := [item] + rest;
    assert items[1..] == rest;
    FilesStep(items, Backup);
    FilesStep(items, Provisioning);
    FilesStep(items, NvFiles);
    NvInStep(items);
    hide FilesIn, NvIn, SectionOf;
    Shift(nv, item, NvIn(rest));
    Shift(backup, item, FilesIn(rest, Backup));
    Shift(prov, item, FilesIn(rest, Provisioning));
    Shift(rfc, item, FilesIn(rest, NvFiles));
  }

  lemma Shift<T>(a: seq<T>, x: T, b: seq<T>)
    ensures a + ([x] + b) == (a + [x]) + b
  {
  }

  method Collect(file: seq<byte>)
      returns (nv: seq<Item>, backup: seq<Item>, prov: seq<Item>, rfc: seq<Item>)
    ensures Gathered(Items(Tar.ReadArchive(file)), [], nv, backup, prov, rfc)
  {
    hide Tar.Front1, Tar.Behind, Gathered, SectionOf, ItemOf;
    nv, backup, prov, rfc := [], [], [], [];
    var reader := new Tar.Reader(file);
    ghost var all := Items(Tar.ReadArchive(file));
    GatheredStart(all);
    while true
      invariant reader.file == file
      invariant Gathered(all, Items(Tar.ReadArchive(Tar.From(file, reader.pos))), nv, backup, prov, rfc)
      decreases |Tar.From(file, reader.pos)|
    {
      ghost var before := Tar.From(file, reader.pos);
      var m := reader.Next();
      if m == None {
        break;
      }
      var item := ItemOf(m.value);
      ItemsNext(before, m.value);
      GatheredNext(all, item, Items(Tar.ReadArchive(Tar.From(file, reader.pos))), nv, backup, prov, rfc);
      match item {
        case Skipped =>
        case Nv(_, _) => nv := nv + [item];
        case File(path, _) =>
          match SectionOf(path) {
            case Backup => backup := backup + [item];
            case NvFiles => rfc := rfc + [item];
            case Provisioning => prov := prov + [item];
          }
      }
    }
  }

  lemma ItemsNext(a: seq<byte>, m: Tar.Member)
    requires Tar.Front1(a) == Some(m)
    ensures Items(Tar.ReadArchive(a)) == [ItemOf(m)] + Items(Tar.ReadArchive(Tar.From(a, Tar.Behind(m.fields))))
  {
    hide Tar.Front1, Tar.Behind, ItemOf, Tar.From;
  }

  method WriteRecords(items: seq<Item>) returns (text: Text)
    requires AreNv(items)
    ensures text == Hex.Text(Records(items))
  {
    hide Hex.Text, RecordBytes;
    text := [];
    ghost var done: seq<byte> := [];
    Hex.TextEmpty();
    for i := 0 to |items|
      invariant text == Hex.Text(done) && (done == [] <==> i == 0)
      invariant Records(items) == done + Records(items[i..])
    {
      if i > 0 {
        text := text + [Hex.BLANK];
      }
      var record := Hex.Write(RecordBytes(items[i]));
      RecordNotEmpty(items[i]);
      if i > 0 {
        Hex.TextJoin(done, RecordBytes(items[i]));
      } else {
        assert done + RecordBytes(items[i]) == RecordBytes(items[i]);
      }
      text := text + record;
      done := done + RecordBytes(items[i]);
      assert items[i..][1..] == items[i + 1..];
    }
    assert done + [] == done;
  }

  lemma RecordNotEmpty(item: Item)
    requires item.Nv?
    ensures RecordBytes(item) != []
  {
  }

  /** One path stream; the header of a backup entry and its path are written one after the other. */
  method WriteDir(section: Section, mode: nat, path: seq<byte>) returns (text: Text)
    requires ProperPath(path)
    ensures text == Hex.Text(DirBytes(section, mode, path))
  {
    hide Hex.Text, LeBytes;
    match section {
      case Backup =>
        var start := [1, 0, 1, 1] + LeBytes(mode, 4);
        var header := Hex.Write(start);
        var name := Hex.Write(path);
        Hex.TextJoin(start, path);
        text := header + [Hex.BLANK] + name;
      case Provisioning =>
        text := Hex.Write(path + [0]);
      case NvFiles =>
        text := Hex.Write(path);
    }
  }

  method WriteDirs(section: Section, mode: nat, files: seq<Item>) returns (dirs: seq<Text>)
    requires AreFiles(files)
    ensures dirs == Dirs(section, mode, files)
  {
    hide Hex.Text, DirBytes, Dirs, Absolute;
    dirs := [];
    assert files[0..] == files;
    for i := 0 to |files|
      invariant Dirs(section, mode, files) == dirs + Dirs(section, mode, files[i..])
    {
      var text := WriteDir(section, mode, files[i].path);
      DirsNext(section, mode, files, i);
      dirs := dirs + [text];
    }
    DirsEnd(section, mode, files[|files|..]);
  }

  lemma DirsNext(section: Section, mode: nat, files: seq<Item>, i: nat)
    requires AreFiles(files) && i < |files|
    ensures Dirs(section, mode, files[i..])
      == [Hex.Text(DirBytes(section, mode, files[i].path))] + Dirs(section, mode, files[i + 1..])
  {
    hide Hex.Text, DirBytes;
    assert files[i..][1..] == files[i + 1..];
  }

  lemma DirsEnd(section: Section, mode: nat, files: seq<Item>)
    requires files == []
    ensures Dirs(section, mode, files) == []
  {
  }

  method WriteContents(files: seq<Item>) returns (contents: seq<Text>)
    requires AreFiles(files)
    ensures contents == Contents(files)
  {
    hide Hex.Text;
    contents := [];
    assert files[0..] == files;
    for i := 0 to |files|
      invariant Contents(files) == contents + Contents(files[i..])
    {
      var text := Hex.Write(files[i].data);
      assert files[i..][1..] == files[i + 1..];
      contents := contents + [text];
    }
  }

  /** Converts an archive file. */
  method TarToXqcn(file: seq<byte>) returns (x: seq<Storage>)
    requires SmallMembers(file)
    ensures AreItems(Items(Tar.ReadArchive(file)))
    ensures x == ToXqcn(Items(Tar.ReadArchive(file)))
  {
    hide Dirs, Contents, Records, AreFiles, AreNv, AreItems, Items, Tar.ReadArchive, AreSmall;
    FileItems(file);
    SmallAreItems(Items(Tar.ReadArchive(file)));
    PartsAreProper(Items(Tar.ReadArchive(file)));
    var nv, backup, prov, rfc := Collect(file);
    GatheredAll(Items(Tar.ReadArchive(file)), nv, backup, prov, rfc);
    var records := WriteRecords(nv);
    var dirs := WriteDirs(Backup, RFNV_MODE, backup);
    var more := WriteDirs(Backup, 0, rfc);
    var contents := WriteContents(backup);
    var rest := WriteContents(rfc);
    var provDirs := WriteDirs(Provisioning, 0, prov);
    var provContents := WriteContents(prov);
    x := [NvArray(records), Files(Backup, dirs + more, contents + rest), Files(Provisioning, provDirs, provContents)];
    if rfc != [] {
      var rfcDirs := WriteDirs(NvFiles, 0, rfc);
      x := x + [Files(NvFiles, rfcDirs, rest)];
    }
  }

  lemma GatheredAll(all: seq<Item>, nv: seq<Item>, backup: seq<Item>, prov: seq<Item>, rfc: seq<Item>)
    requires Gathered(all, [], nv, backup, prov, rfc)
    ensures nv == NvIn(all) && backup == FilesIn(all, Backup) && prov == FilesIn(all, Provisioning) && rfc == FilesIn(all, NvFiles)
  {
    assert nv + [] == nv && backup + [] == backup && prov + [] == prov && rfc + [] == rfc;
  }

  // ---- XQCN to archive ----

  /** Appends a header, the data and the padding. */
  method WriteMember(e: Tar.Entry) returns (bytes: seq<byte>)
    requires Tar.IsEntry(e)
    ensures bytes == Tar.MemberBytes(e)
  {
    hide Tar.Header;
    var header := Tar.WriteHeader(e);
    bytes := header[..] + e.data;
    if |e.data| % Tar.BLOCK != 0 {
      bytes := bytes + Zeros(Tar.BLOCK - |e.data| % Tar.BLOCK);
    }
  }

  lemma {:induction false} MembersJoin(a: seq<Tar.Entry>, b: seq<Tar.Entry>)
    requires Tar.AreEntries(a + b)
    ensures Tar.AreEntries(a) && Tar.AreEntries(b) && Tar.Members(a + b) == Tar.Members(a) + Tar.Members(b)
  {
    hide Tar.IsEntry, Tar.MemberBytes;
    AreEntriesParts(a, b);
    if a == [] {
      assert a + b == b;
    } else {
      assert (a + b)[1..] == a[1..] + b;
      MembersJoin(a[1..], b);
    }
  }

  lemma AreEntriesParts(a: seq<Tar.Entry>, b: seq<Tar.Entry>)
    requires Tar.AreEntries(a + b)
    ensures Tar.AreEntries(a) && Tar.AreEntries(b)
  {
    hide Tar.IsEntry;
    assert forall i :: 0 <= i < |a| ==> a[i] == (a + b)[i];
    assert forall i :: 0 <= i < |b| ==> b[i] == (a + b)[|a| + i];
  }

  /** Writes out the records of an NV stream; what does not fill a record is dropped. */
  method WriteNvItems(stream: seq<byte>) returns (out: seq<byte>)
    requires Tar.AreEntries(NvEntries(stream))
    ensures out == Tar.Members(NvEntries(stream))
  {
    hide NvEntry, LeWord, Tar.MemberBytes, Tar.IsEntry, Tar.AreEntries;
    out := [];
    var off := 0;
    assert stream[0..] == stream;
    while off + NV_RECORD <= |stream|
      invariant off <= |stream| && Tar.AreEntries(NvEntries(stream[off..]))
      invariant Tar.Members(NvEntries(stream)) == out + Tar.Members(NvEntries(stream[off..]))
    {
      var id := LeWord(stream[off + 4..off + 8]);
      var e := NvEntry(id, stream[off + 8..off + NV_RECORD]);
      NvEntriesNext(stream, off);
      MembersFirst(e, NvEntries(stream[off + NV_RECORD..]));
      var bytes := WriteMember(e);
      out := out + bytes;
      off := off + NV_RECORD;
    }
    NvEntriesEnd(stream[off..]);
  }

  lemma NvEntriesNext(stream: seq<byte>, off: nat)
    requires off + NV_RECORD <= |stream|
    ensures NvEntries(stream[off..])
      == [NvEntry(LeWord(stream[off + 4..off + 8]), stream[off + 8..off + NV_RECORD])] + NvEntries(stream[off + NV_RECORD..])
  {
    hide NvEntry, LeWord;
    var s := stream[off..];
    assert s[4..8] == stream[off + 4..off + 8] && s[8..NV_RECORD] == stream[off + 8..off + NV_RECORD];
    assert s[NV_RECORD..] == stream[off + NV_RECORD..];
  }

  lemma NvEntriesEnd(stream: seq<byte>)
    requires |stream| < NV_RECORD && Tar.AreEntries(NvEntries(stream))
    ensures Tar.Members(NvEntries(stream)) == []
  {
  }

  lemma MembersFirst(e: Tar.Entry, es: seq<Tar.Entry>)
    requires Tar.AreEntries([e] + es)
    ensures Tar.IsEntry(e) && Tar.AreEntries(es) && Tar.Members([e] + es) == Tar.MemberBytes(e) + Tar.Members(es)
  {
    hide Tar.IsEntry, Tar.MemberBytes;
    AreEntriesParts([e], es);
    assert [e][0] == e && ([e] + es)[1..] == es;
  }

  method WritePair(section: Section, dir: Text, content: Text) returns (bytes: seq<byte>)
    requires Tar.AreEntries(PairEntry(section, dir, content))
    ensures bytes == Tar.Members(PairEntry(section, dir, content))
  {
    hide FileEntry, PathOf, Tar.MemberBytes, Tar.IsEntry, Hex.Parsed;
    var raw := Hex.Parse(dir);
    var data := Hex.Parse(content);
    bytes := [];
    if raw.Some? && data.Some? {
      var e := FileEntry(PathOf(section, raw.value), data.value);
      assert PairEntry(section, dir, content) == [e] + [];
      MembersFirst(e, []);
      bytes := WriteMember(e);
    }
  }

  /** Writes out one section, reading path and data streams in parallel. */
  method WriteFiles(section: Section, dirs: seq<Text>, contents: seq<Text>) returns (out: seq<byte>)
    requires Tar.AreEntries(FileEntries(section, dirs, contents))
    ensures out == Tar.Members(FileEntries(section, dirs, contents))
  {
    hide PairEntry, Tar.AreEntries, FileEntries, Tar.Members;
    out := [];
    var i := 0;
    assert [] + Tar.Members(FileEntries(section, dirs, contents)) == Tar.Members(FileEntries(section, dirs, contents));
    assert dirs[0..] == dirs && contents[0..] == contents;
    while i < |dirs| && i < |contents|
      invariant i <= |dirs| && i <= |contents| && Tar.AreEntries(FileEntries(section, dirs[i..], contents[i..]))
      invariant Tar.Members(FileEntries(section, dirs, contents)) == out + Tar.Members(FileEntries(section, dirs[i..], contents[i..]))
    {
      FileEntriesNext(section, dirs, contents, i);
      MembersJoin(PairEntry(section, dirs[i], contents[i]), FileEntries(section, dirs[i + 1..], contents[i + 1..]));
      var bytes := WritePair(section, dirs[i], contents[i]);
      out := out + bytes;
      i := i + 1;
    }
    FileEntriesEnd(section, dirs[i..], contents[i..]);
  }

  lemma FileEntriesNext(section: Section, dirs: seq<Text>, contents: seq<Text>, i: nat)
    requires i < |dirs| && i < |contents|
    ensures FileEntries(section, dirs[i..], contents[i..])
      == PairEntry(section, dirs[i], contents[i]) + FileEntries(section, dirs[i + 1..], contents[i + 1..])
  {
    hide PairEntry;
    assert dirs[i..][1..] == dirs[i + 1..] && contents[i..][1..] == contents[i + 1..];
  }

  lemma FileEntriesEnd(section: Section, dirs: seq<Text>, contents: seq<Text>)
    requires (dirs == [] || contents == []) && Tar.AreEntries(FileEntries(section, dirs, contents))
    ensures Tar.Members(FileEntries(section, dirs, contents)) == []
  {
  }

  /** Converts back: every section in document order, then two zero blocks. */
  method XqcnToTar(x: seq<Storage>) returns (file: seq<byte>)
    requires Tar.AreEntries(ToTar(x))
    ensures file == Tar.Archive(ToTar(x))
  {
    hide StorageEntries, Tar.AreEntries, Tar.IsEntry, Tar.MemberBytes;
    file := [];
    assert x[0..] == x;
    for i := 0 to |x|
      invariant Tar.AreEntries(ToTar(x[i..]))
      invariant Tar.Members(ToTar(x)) == file + Tar.Members(ToTar(x[i..]))
    {
      assert x[i..][1..] == x[i + 1..];
      MembersJoin(StorageEntries(x[i]), ToTar(x[i + 1..]));
      var bytes := WriteStorage(x[i]);
      file := file + bytes;
    }
    file := file + Zeros(1024);
  }

  method WriteStorage(storage: Storage) returns (bytes: seq<byte>)
    requires Tar.AreEntries(StorageEntries(storage))
    ensures bytes == Tar.Members(StorageEntries(storage))
  {
    match storage {
      case NvArray(text) =>
        var stream := Hex.Parse(text);
        if stream.Some? {
          bytes := WriteNvItems(stream.value);
        } else {
          bytes := [];
        }
      case Files(section, dirs, contents) =>
        bytes := WriteFiles(section, dirs, contents);
    }
  }
}
