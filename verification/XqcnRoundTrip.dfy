/** What a conversion from archive to XQCN and back preserves, and exactly what it does not. */
module XqcnRoundTrip {
  import opened Bytes
  import Tar
  import opened Xqcn

  // ---- One file ----

  /** The conditions under which a file comes back under its own path. */
  predicate Kept(path: seq<byte>, data: seq<byte>) {
    && data != []
    && |path| <= 100
    && (|path| > 1 ==> path[1] != SLASH)
    && !StartsWith(path, [SLASH] + NV_PREFIX)
  }

  ghost predicate SmallFile(file: Item) {
    file.File? && ProperPath(file.path) && |file.data| < 0x8000_0000
  }

  /** What a file with contents is read back as. */
  function Image(file: Item): Item
    requires SmallFile(file)
  {
    FileEntryIsEntry(file.path, file.data);
    ItemOf(Tar.Reread(FileEntry(file.path, file.data)))
  }

  lemma FileEntryIsEntry(path: seq<byte>, data: seq<byte>)
    requires ProperPath(path) && |data| < 0x8000_0000
    ensures Tar.IsEntry(FileEntry(path, data)) && 0 !in path[1..]
  {
  }

  function CutName(path: seq<byte>): seq<byte>
    requires |path| > 0
  {
    if |path| <= 100 then path[1..] else path[1..100]
  }

  lemma ImageIs(file: Item)
    requires SmallFile(file)
    ensures Image(file) == ItemOf(Tar.Reread(FileEntry(file.path, file.data)))
    ensures StartsWith(CutName(file.path), NV_PREFIX) ==> !Image(file).File?
    ensures !StartsWith(CutName(file.path), NV_PREFIX) ==> Image(file) == File(Absolute(CutName(file.path)), file.data)
  {
    hide Tar.FieldsOf, Tar.Header, ScanUnsigned;
    var e := FileEntry(file.path, file.data);
    FileEntryIsEntry(file.path, file.data);
    Tar.HeaderRoundTrip(e);
    assert Tar.Reread(e).fields.name == CutName(file.path);
  }

  /** A kept file is read back as itself. */
  lemma KeptComesBack(file: Item)
    requires SmallFile(file) && Kept(file.path, file.data)
    ensures Image(file) == file
  {
    hide Image;
    ImageIs(file);
    PrefixUnder(file.path);
    assert file.path == [SLASH] + file.path[1..];
  }

  lemma PrefixUnder(path: seq<byte>)
    requires |path| > 0 && path[0] == SLASH
    ensures StartsWith(path[1..], NV_PREFIX) <==> StartsWith(path, [SLASH] + NV_PREFIX)
  {
    if StartsWith(path[1..], NV_PREFIX) {
      assert path == [SLASH] + path[1..];
    }
    if StartsWith(path, [SLASH] + NV_PREFIX) {
      assert forall i :: 0 <= i < |NV_PREFIX| ==> path[1..][i] == ([SLASH] + NV_PREFIX)[i + 1];
    }
  }

  /** Any other file with contents comes back under a shorter path, or as no file. */
  lemma LostIsShorter(file: Item)
    requires SmallFile(file) && file.data != [] && !Kept(file.path, file.data)
    ensures Image(file).File? ==> |Image(file).path| < |file.path|
  {
    hide Image;
    ImageIs(file);
    PrefixUnder(file.path);
  }

  // ---- Whole archives ----

  ghost predicate AreSmall(items: seq<Item>) {
    forall i :: 0 <= i < |items| ==> IsItem(items[i]) && (items[i].File? ==> |items[i].data| < 0x8000_0000)
  }

  function FileSet(items: seq<Item>): set<Item> {
    set i | i in items && i.File?
  }

  ghost predicate AllKept(items: seq<Item>) {
    forall i :: i in items && i.File? ==> Kept(i.path, i.data)
  }

  ghost predicate SmallFiles(files: seq<Item>) {
    forall f :: f in files ==> SmallFile(f)
  }

  lemma {:induction false} SelectedFiles(items: seq<Item>, section: Section)
    requires AreSmall(items)
    ensures SmallFiles(FilesIn(items, section)) && AreFiles(FilesIn(items, section))
    ensures forall f :: f in FilesIn(items, section) <==> f in items && f.File? && SectionOf(f.path) == section
  {
    hide SectionOf;
    if items != [] {
      SelectedFiles(items[1..], section);
      assert items == [items[0]] + items[1..];
    }
  }

  lemma {:induction false} SelectedNv(items: seq<Item>)
    requires AreItems(items)
    ensures AreNv(NvIn(items)) && NvIn(NvIn(items)) == NvIn(items)
    ensures forall i :: i in NvIn(items) <==> i in items && i.Nv?
  {
    if items != [] {
      SelectedNv(items[1..]);
      assert items == [items[0]] + items[1..];
    }
  }

  lemma {:induction false} ItemsJoin(a: seq<Tar.Member>, b: seq<Tar.Member>)
    ensures Items(a + b) == Items(a) + Items(b)
  {
    hide ItemOf;
    if a == [] {
      assert a + b == b;
    } else {
      ItemsJoin(a[1..], b);
      ItemsStep(a);
      ItemsStep(a + b);
      assert (a + b)[1..] == a[1..] + b;
      hide Items;
      assert [ItemOf(a[0])] + (Items(a[1..]) + Items(b)) == [ItemOf(a[0])] + Items(a[1..]) + Items(b);
    }
  }

  lemma ItemsStep(a: seq<Tar.Member>)
    requires a != []
    ensures Items(a) == [ItemOf(a[0])] + Items(a[1..])
  {
  }

  lemma {:induction false} NvInJoin(a: seq<Item>, b: seq<Item>)
    ensures NvIn(a + b) == NvIn(a) + NvIn(b)
  {
    if a == [] {
      assert a + b == b;
    } else {
      NvInJoin(a[1..], b);
      NvInStep(a);
      NvInStep(a + b);
      assert (a + b)[1..] == a[1..] + b;
      hide NvIn;
      var t := NvIn(a[1..]) + NvIn(b);
      assert [a[0]] + t == [a[0]] + NvIn(a[1..]) + NvIn(b);
    }
  }

  lemma NvInStep(a: seq<Item>)
    requires a != []
    ensures NvIn(a) == if a[0].Nv? then [a[0]] + NvIn(a[1..]) else NvIn(a[1..])
  {
  }

  lemma {:induction false} RereadJoin(a: seq<Tar.Entry>, b: seq<Tar.Entry>)
    requires Tar.AreEntries(a) && Tar.AreEntries(b)
    ensures Tar.AreEntries(a + b) && Tar.RereadAll(a + b) == Tar.RereadAll(a) + Tar.RereadAll(b)
  {
    hide Tar.IsEntry, Tar.Reread;
    if a == [] {
      assert a + b == b;
    } else {
      RereadJoin(a[1..], b);
      assert (a + b)[1..] == a[1..] + b;
    }
  }

  /** The items read back from the entries of an archive. */
  function Again(es: seq<Tar.Entry>): seq<Item>
    requires Tar.AreEntries(es)
  {
    Items(Tar.RereadAll(es))
  }

  lemma AgainJoin(a: seq<Tar.Entry>, b: seq<Tar.Entry>)
    requires Tar.AreEntries(a) && Tar.AreEntries(b)
    ensures Tar.AreEntries(a + b) && Again(a + b) == Again(a) + Again(b)
  {
    RereadJoin(a, b);
    ItemsJoin(Tar.RereadAll(a), Tar.RereadAll(b));
  }

  lemma {:induction false} AgainFirst(e: Tar.Entry, es: seq<Tar.Entry>)
    requires Tar.IsEntry(e) && Tar.AreEntries(es)
    ensures Tar.AreEntries([e] + es) && Again([e] + es) == [ItemOf(Tar.Reread(e))] + Again(es)
  {
    hide Tar.IsEntry, Tar.Reread, ItemOf;
    assert ([e] + es)[1..] == es;
    assert Tar.RereadAll([e] + es)[1..] == Tar.RereadAll(es);
  }

  lemma NvEntryReads(item: Item)
    requires item.Nv? && |item.record| == NV_DATA
    ensures Tar.IsEntry(NvEntry(item.id, item.record))
    ensures ItemOf(Tar.Reread(NvEntry(item.id, item.record))) == item
  {
    hide Tar.FieldsOf, Tar.Header, ScanUnsigned, DecText;
    var e := NvEntry(item.id, item.record);
    NvNameIsName(item.id);
    Tar.HeaderRoundTrip(e);
    ScanRoundTrip(item.id);
    assert NvName(item.id)[|NV_PREFIX|..] == DecText(item.id, 5) + BIN;
  }

  lemma NvNameIsName(id: word)
    ensures 0 !in NvName(id) && |NvName(id)| < 100 && StartsWith(NvName(id), NV_PREFIX)
  {
    hide DecDigits;
    DecDigitsLength(id);
    DecTextDigits(id, 5);
    assert 0 !in DecText(id, 5);
    assert NvName(id) == NV_PREFIX + (DecText(id, 5) + BIN);
  }

  /** NV items come back unchanged and in order. */
  lemma {:induction false} NvComesBack(items: seq<Item>)
    requires AreNv(items)
    ensures Tar.AreEntries(NvBack(items)) && Again(NvBack(items)) == items
  {
    hide NvEntry, ItemOf, Tar.Reread, Tar.IsEntry, Again;
    if items != [] {
      NvComesBack(items[1..]);
      NvEntryReads(items[0]);
      AgainFirst(NvEntry(items[0].id, items[0].record), NvBack(items[1..]));
      assert items == [items[0]] + items[1..];
    } else {
      AgainNothing();
    }
  }

  ghost predicate HasImage(files: seq<Item>, item: Item)
    requires SmallFiles(files)
  {
    exists f :: f in files && f.data != [] && Image(f) == item
  }

  lemma {:induction false} FilesComeBack(files: seq<Item>)
    requires AreFiles(files) && SmallFiles(files)
    ensures Tar.AreEntries(FilesBack(files))
    ensures forall i :: i in Again(FilesBack(files)) <==> HasImage(files, i)
  {
    hide Image, FileEntry, ItemOf, Tar.Reread, Tar.IsEntry, Again;
    if files != [] {
      FilesComeBack(files[1..]);
      assert files == [files[0]] + files[1..];
      if files[0].data != [] {
        ImageIs(files[0]);
        FileEntryIsEntry(files[0].path, files[0].data);
        AgainFirst(FileEntry(files[0].path, files[0].data), FilesBack(files[1..]));
      }
    } else {
      AgainNothing();
    }
  }

  lemma AgainNothing()
    ensures Tar.AreEntries([]) && Again([]) == []
  {
  }

  lemma SmallAreItems(items: seq<Item>)
    requires AreSmall(items)
    ensures AreItems(items)
  {
  }

  /** The items of the archive that a conversion to XQCN and back leaves. */
  function Back(items: seq<Item>): seq<Item>
    requires AreSmall(items)
  {
    BackEntries(items);
    Again(ToTar(ToXqcn(items)))
  }

  /** The file part of what comes back. */
  function FilesAgain(items: seq<Item>): seq<Item>
    requires AreSmall(items)
  {
    SectionEntries(items, Backup);
    SectionEntries(items, NvFiles);
    SectionEntries(items, Provisioning);
    Again(FilesBack(FilesIn(items, Backup))) + Again(FilesBack(FilesIn(items, NvFiles)))
    + Again(FilesBack(FilesIn(items, Provisioning))) + Again(FilesBack(FilesIn(items, NvFiles)))
  }

  lemma SectionEntries(items: seq<Item>, section: Section)
    requires AreSmall(items)
    ensures AreFiles(FilesIn(items, section)) && Tar.AreEntries(FilesBack(FilesIn(items, section)))
  {
    SelectedFiles(items, section);
    FilesComeBack(FilesIn(items, section));
  }

  /** First the NV items, unchanged; then the files, the /rfc/ ones twice. */
  lemma BackEntries(items: seq<Item>)
    requires AreSmall(items)
    ensures AreItems(items) && Tar.AreEntries(ToTar(ToXqcn(items)))
    ensures Again(ToTar(ToXqcn(items))) == NvIn(items) + FilesAgain(items)
  {
    hide ToTar, ToXqcn, FilesIn, NvIn, FilesBack, NvBack, Again, Tar.AreEntries, AreSmall, AreFiles, AreItems, AreNv;
    SmallAreItems(items);
    SectionEntries(items, Backup);
    SectionEntries(items, NvFiles);
    SectionEntries(items, Provisioning);
    BackAndForth(items);
    NvComesBack(NvIn(items));
    FiveParts(NvBack(NvIn(items)), FilesBack(FilesIn(items, Backup)), FilesBack(FilesIn(items, NvFiles)),
              FilesBack(FilesIn(items, Provisioning)), FilesBack(FilesIn(items, NvFiles)));
  }

  lemma FiveParts(a: seq<Tar.Entry>, b: seq<Tar.Entry>, c: seq<Tar.Entry>, d: seq<Tar.Entry>, e: seq<Tar.Entry>)
    requires Tar.AreEntries(a) && Tar.AreEntries(b) && Tar.AreEntries(c) && Tar.AreEntries(d) && Tar.AreEntries(e)
    ensures Tar.AreEntries(a + b + c + d + e)
    ensures Again(a + b + c + d + e) == Again(a) + (Again(b) + Again(c) + Again(d) + Again(e))
  {
    hide Again, Tar.AreEntries;
    AgainJoin(a, b);
    AgainJoin(a + b, c);
    AgainJoin(a + b + c, d);
    AgainJoin(a + b + c + d, e);
  }

  ghost predicate FromFile(items: seq<Item>, item: Item)
    requires AreSmall(items)
  {
    exists f :: f in items && f.File? && f.data != [] && Image(f) == item
  }

  lemma FilesAgainAre(items: seq<Item>)
    requires AreSmall(items)
    ensures forall i :: i in FilesAgain(items) <==> FromFile(items, i)
  {
    hide AreSmall, Image, FilesIn, FilesBack, Again, SectionOf;
    SelectedFiles(items, Backup);
    SelectedFiles(items, NvFiles);
    SelectedFiles(items, Provisioning);
    FilesComeBack(FilesIn(items, Backup));
    FilesComeBack(FilesIn(items, NvFiles));
    FilesComeBack(FilesIn(items, Provisioning));
    forall s
      ensures SmallFiles(FilesIn(items, s))
    {
      SelectedFiles(items, s);
    }
    forall i
      ensures i in FilesAgain(items) <==> FromFile(items, i)
    {
      AnySection(items, i);
    }
  }

  lemma AnySection(items: seq<Item>, i: Item)
    requires AreSmall(items)
    requires forall s :: SmallFiles(FilesIn(items, s))
    ensures FromFile(items, i) <==>
      HasImage(FilesIn(items, Backup), i) || HasImage(FilesIn(items, NvFiles), i) || HasImage(FilesIn(items, Provisioning), i)
  {
    hide AreSmall, Image, SmallFiles;
    SelectedFiles(items, Backup);
    SelectedFiles(items, NvFiles);
    SelectedFiles(items, Provisioning);
  }

  // ---- Main results ----

  lemma {:induction false} NoNvAmong(items: seq<Item>)
    requires forall i :: i in items ==> i.File?
    ensures NvIn(items) == []
  {
    if items != [] {
      NoNvAmong(items[1..]);
      assert items[0] in items;
    }
  }

  /** When every file is kept, the same files and the same NV items come back. */
  lemma KeptRoundTrip(items: seq<Item>)
    requires AreSmall(items) && AllKept(items)
    ensures FileSet(Back(items)) == FileSet(items)
    ensures NvIn(Back(items)) == NvIn(items)
  {
    hide Image, FilesAgain, Again, ToXqcn, NvIn;
    BackEntries(items);
    FilesAgainAre(items);
    SelectedNv(items);
    forall f | f in items && f.File?
      ensures Image(f) == f
    {
      KeptComesBack(f);
    }
    forall i
      ensures i in FilesAgain(items) <==> i in FileSet(items)
    {
    }
    NoNvAmong(FilesAgain(items));
    NvInJoin(NvIn(items), FilesAgain(items));
    assert NvIn(items) + [] == NvIn(items);
  }

  /** The contents stored under a path: its last member wins, as when an archive is unpacked. */
  function Last(items: seq<Item>, path: seq<byte>): Option<seq<byte>> {
    if items == [] then None
    else if Last(items[1..], path).Some? then Last(items[1..], path)
    else if items[0].File? && items[0].path == path then Some(items[0].data)
    else None
  }

  lemma {:induction false} LastJoin(a: seq<Item>, b: seq<Item>, path: seq<byte>)
    ensures Last(a + b, path) == if Last(b, path).Some? then Last(b, path) else Last(a, path)
  {
    if a == [] {
      assert a + b == b;
    } else {
      LastJoin(a[1..], b, path);
      assert (a + b)[1..] == a[1..] + b;
    }
  }

  lemma {:induction false} LastInSection(items: seq<Item>, section: Section, path: seq<byte>)
    ensures Last(FilesIn(items, section), path) == if SectionOf(path) == section then Last(items, path) else None
  {
    hide SectionOf;
    if items != [] {
      LastInSection(items[1..], section, path);
      var rest := FilesIn(items[1..], section);
      assert ([items[0]] + rest)[1..] == rest;
    }
  }

  lemma {:induction false} LastOfNv(items: seq<Item>, path: seq<byte>)
    ensures Last(NvIn(items), path) == None
  {
    if items != [] {
      LastOfNv(items[1..], path);
      var rest := NvIn(items[1..]);
      assert ([items[0]] + rest)[1..] == rest;
    }
  }

  lemma {:induction false} KeptInOrder(files: seq<Item>)
    requires AreFiles(files) && SmallFiles(files) && AllKept(files)
    ensures Tar.AreEntries(FilesBack(files)) && Again(FilesBack(files)) == files
  {
    hide FileEntry, ItemOf, Tar.Reread, Tar.IsEntry, Again, Image;
    if files != [] {
      KeptInOrder(files[1..]);
      assert files == [files[0]] + files[1..];
      ImageIs(files[0]);
      KeptComesBack(files[0]);
      FileEntryIsEntry(files[0].path, files[0].data);
      AgainFirst(FileEntry(files[0].path, files[0].data), FilesBack(files[1..]));
    } else {
      AgainNothing();
    }
  }

  lemma KeptSection(items: seq<Item>, section: Section)
    requires AreSmall(items) && AllKept(items)
    ensures AreFiles(FilesIn(items, section)) && Tar.AreEntries(FilesBack(FilesIn(items, section)))
    ensures Again(FilesBack(FilesIn(items, section))) == FilesIn(items, section)
  {
    SelectedFiles(items, section);
    hide AreSmall, Kept;
    KeptInOrder(FilesIn(items, section));
  }

  /** When every file is kept, each path has the same contents again. */
  lemma KeptContents(items: seq<Item>, path: seq<byte>)
    requires AreSmall(items) && AllKept(items)
    ensures Last(Back(items), path) == Last(items, path)
  {
    hide Last, FilesIn, Again, FilesBack, NvIn, SectionOf, ToXqcn, ToTar, AreSmall, AllKept;
    BackEntries(items);
    KeptSection(items, Backup);
    KeptSection(items, NvFiles);
    KeptSection(items, Provisioning);
    var b, r, p := FilesIn(items, Backup), FilesIn(items, NvFiles), FilesIn(items, Provisioning);
    LastOfNv(items, path);
    LastInSection(items, Backup, path);
    LastInSection(items, NvFiles, path);
    LastInSection(items, Provisioning, path);
    LastJoin(NvIn(items), b + r + p + r, path);
    LastJoin(b + r + p, r, path);
    LastJoin(b + r, p, path);
    LastJoin(b, r, path);
  }

  /** Among the files that are not kept, one with the longest path. */
  lemma {:induction false} LongestLost(items: seq<Item>) returns (lost: Item)
    requires !AllKept(items)
    ensures lost in items && lost.File? && !Kept(lost.path, lost.data)
    ensures forall i :: i in items && i.File? && !Kept(i.path, i.data) ==> |i.path| <= |lost.path|
  {
    hide Kept;
    var rest := items[1..];
    assert items == [items[0]] + rest;
    if AllKept(rest) {
      lost := items[0];
    } else {
      lost := LongestLost(rest);
      if items[0].File? && !Kept(items[0].path, items[0].data) && |items[0].path| > |lost.path| {
        lost := items[0];
      }
    }
  }

  /** A conversion to XQCN and back preserves the files of an archive exactly when all of them are kept. */
  lemma PreservedExactly(items: seq<Item>)
    requires AreSmall(items)
    ensures FileSet(Back(items)) == FileSet(items) <==> AllKept(items)
  {
    if AllKept(items) {
      KeptRoundTrip(items);
    } else {
      hide Image, FilesAgain, Again, ToXqcn, NvIn, Kept;
      var lost := LongestLost(items);
      BackEntries(items);
      FilesAgainAre(items);
      SelectedNv(items);
      if lost in FileSet(Back(items)) {
        var f :| f in items && f.File? && f.data != [] && Image(f) == lost;
        NotFrom(items, f, lost);
        assert false;
      }
      assert lost in FileSet(items);
    }
  }

  /** A file that is read back as an NV item: below /nv_items/, named by a number, with a whole record in it. */
  predicate TurnsNv(path: seq<byte>, data: seq<byte>)
    requires |path| > 0
  {
    && StartsWith(CutName(path), NV_PREFIX) && |data| >= NV_DATA
    && ScanUnsigned(CutName(path)[|NV_PREFIX|..]).Some?
  }

  lemma NvImage(file: Item)
    requires SmallFile(file)
    ensures Image(file).Nv? <==> TurnsNv(file.path, file.data)
  {
    hide Tar.FieldsOf, Tar.Header, ScanUnsigned;
    var e := FileEntry(file.path, file.data);
    FileEntryIsEntry(file.path, file.data);
    Tar.HeaderRoundTrip(e);
    assert Tar.Reread(e).fields.name == CutName(file.path);
  }

  ghost predicate NoneTurnsNv(items: seq<Item>) {
    forall f :: f in items && f.File? && |f.path| > 0 ==> !TurnsNv(f.path, f.data)
  }

  lemma {:induction false} NoNvExactly(items: seq<Item>)
    ensures NvIn(items) == [] <==> forall i :: i in items ==> !i.Nv?
  {
    if items != [] {
      NoNvExactly(items[1..]);
      assert items == [items[0]] + items[1..];
      assert items[0] in items;
    }
  }

  /** The NV items always come back in front, and no others do exactly when no file turns into one. */
  lemma NvPreservedExactly(items: seq<Item>)
    requires AreSmall(items)
    ensures NvIn(items) <= NvIn(Back(items))
    ensures NvIn(Back(items)) == NvIn(items) <==> NoneTurnsNv(items)
  {
    hide Image, FilesAgain, Again, ToXqcn, NvIn, TurnsNv;
    BackEntries(items);
    FilesAgainAre(items);
    SelectedNv(items);
    NvInJoin(NvIn(items), FilesAgain(items));
    NoNvExactly(FilesAgain(items));
    assert NvIn(items) + NvIn(FilesAgain(items)) == NvIn(items) <==> NvIn(FilesAgain(items)) == [];
    forall f | f in items && f.File?
      ensures f.data != [] && Image(f).Nv? <==> TurnsNv(f.path, f.data)
    {
      NvImage(f);
      TurnsNvNotEmpty(f.path, f.data);
    }
    if NoneTurnsNv(items) {
      assert forall i :: i in FilesAgain(items) ==> !i.Nv?;
    } else {
      var f :| f in items && f.File? && |f.path| > 0 && TurnsNv(f.path, f.data);
      assert FromFile(items, Image(f));
    }
  }

  lemma TurnsNvNotEmpty(path: seq<byte>, data: seq<byte>)
    requires |path| > 0
    ensures TurnsNv(path, data) ==> data != []
  {
    hide ScanUnsigned;
  }

  lemma NotFrom(items: seq<Item>, f: Item, lost: Item)
    requires AreSmall(items) && f in items && f.File? && f.data != [] && lost.File? && !Kept(lost.path, lost.data)
    requires forall i :: i in items && i.File? && !Kept(i.path, i.data) ==> |i.path| <= |lost.path|
    ensures Image(f) != lost
  {
    hide Image, Kept;
    if Kept(f.path, f.data) {
      KeptComesBack(f);
    } else {
      LostIsShorter(f);
    }
  }

  // ---- On files ----

  lemma {:induction false} FieldNames(a: seq<byte>)
    ensures forall m :: m in Tar.ReadArchive(a) ==> 0 !in m.fields.name && |m.fields.name| <= 100
    decreases |a|
  {
    hide Tar.Checksum, Tar.StoredChecksum;
    match Tar.Front1(a)
    case None =>
    case Some(m) =>
      assert a[..Tar.BLOCK][..100] == a[..100];
      CStringShort(a[..100]);
      assert 0 !in m.fields.name && |m.fields.name| <= 100;
      FieldNames(Tar.From(a, Tar.Behind(m.fields)));
  }

  lemma {:induction false} CStringShort(s: seq<byte>)
    ensures 0 !in Tar.CString(s) && |Tar.CString(s)| <= |s|
  {
    if s != [] {
      CStringShort(s[1..]);
    }
  }

  lemma {:induction false} ItemsAre(ms: seq<Tar.Member>)
    requires forall m :: m in ms ==> 0 !in m.fields.name && |m.fields.name| <= 100 && |m.data| < 0x8000_0000
    ensures AreSmall(Items(ms))
  {
    if ms != [] {
      hide ScanUnsigned;
      ItemsAre(ms[1..]);
      assert IsItem(ItemOf(ms[0]));
    }
  }

  ghost predicate SmallMembers(file: seq<byte>) {
    forall m :: m in Tar.ReadArchive(file) ==> |m.data| < 0x8000_0000
  }

  /** The files of an archive file, by absolute path. */
  function FilesOf(file: seq<byte>): set<Item> {
    FileSet(Items(Tar.ReadArchive(file)))
  }

  function NvOf(file: seq<byte>): seq<Item> {
    NvIn(Items(Tar.ReadArchive(file)))
  }

  /** The archive file written back after a conversion of an archive file to XQCN. */
  function Converted(file: seq<byte>): seq<byte>
    requires SmallMembers(file)
  {
    var items := Items(Tar.ReadArchive(file));
    FileItems(file);
    BackEntries(items);
    Tar.Archive(ToTar(ToXqcn(items)))
  }

  lemma FileItems(file: seq<byte>)
    requires SmallMembers(file)
    ensures AreSmall(Items(Tar.ReadArchive(file)))
  {
    FieldNames(file);
    ItemsAre(Tar.ReadArchive(file));
  }

  /** On bytes: the files survive exactly when all are kept, the NV items exactly when no file turns into one. */
  lemma ConversionRoundTrip(file: seq<byte>)
    requires SmallMembers(file)
    ensures FilesOf(Converted(file)) == FilesOf(file) <==> AllKept(Items(Tar.ReadArchive(file)))
    ensures NvOf(file) <= NvOf(Converted(file))
    ensures NvOf(Converted(file)) == NvOf(file) <==> NoneTurnsNv(Items(Tar.ReadArchive(file)))
  {
    hide Items, Tar.ReadArchive, ToXqcn, ToTar, AreSmall, AllKept, NvIn, FileSet, Tar.Archive, Tar.AreEntries, Tar.RereadAll, NoneTurnsNv;
    var items := Items(Tar.ReadArchive(file));
    FileItems(file);
    BackEntries(items);
    Tar.ArchiveRoundTrip(ToTar(ToXqcn(items)));
    PreservedExactly(items);
    NvPreservedExactly(items);
  }
}
