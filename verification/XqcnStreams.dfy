/** Where the files of an archive end up in a backup: which section, in which order, in which bytes. */
module XqcnStreams {
  import opened Bytes
  import Tar
  import Hex
  import opened Xqcn

  /** What a member stands for: regular files other than those below "nv_items/" keep their absolute path. */
  lemma MemberKinds(m: Tar.Member)
    ensures m.fields.kind != 48 && m.fields.kind != 0 ==> ItemOf(m) == Skipped
    ensures [110, 118, 95, 105, 116, 101, 109, 115, 47] <= m.fields.name ==>
      !ItemOf(m).File? && (ItemOf(m).Nv? ==> 128 <= |m.data| && ItemOf(m).record == m.data[..128])
    ensures (m.fields.kind == 48 || m.fields.kind == 0) && !([110, 118, 95, 105, 116, 101, 109, 115, 47] <= m.fields.name) ==>
      ItemOf(m) == File(if [47] <= m.fields.name then m.fields.name else [47] + m.fields.name, m.data)
  {
    hide ScanUnsigned;
  }

  /** The header of a record: 136 bytes, kind 1, and the number in four bytes. */
  lemma RecordHead(item: Item)
    requires item.Nv?
    ensures RecordBytes(item) == [0x88, 0, 1, 0] + LeBytes(item.id, 4) + item.record
  {
    hide LeBytes;
    TwoBytes(NV_RECORD);
    TwoBytes(1);
  }

  lemma TwoBytes(b: byte)
    ensures LeBytes(b, 2) == [b, 0]
  {
    assert LeBytes(0, 1) == [0];
  }

  lemma BackupModes()
    ensures LeBytes(RFNV_MODE, 4) == [0x80, 0x3D, 0xD5, 0x12] && LeBytes(0, 4) == [0, 0, 0, 0]
  {
    assert LeBytes(0x12, 1) == [0x12] && LeBytes(0xD512, 0) == [];
    assert LeBytes(0x12D5, 2) == [0xD5] + LeBytes(0x12, 1);
    assert LeBytes(0x12D53D, 3) == [0x3D] + LeBytes(0x12D5, 2);
    assert LeBytes(0x12D53D80, 4) == [0x80] + LeBytes(0x12D53D, 3);
    assert LeBytes(0, 1) == [0];
    assert LeBytes(0, 2) == [0] + LeBytes(0, 1);
    assert LeBytes(0, 3) == [0] + LeBytes(0, 2);
  }

  /** The places of one section's files among the items, in ascending order. */
  lemma {:induction false} Places(items: seq<Item>, section: Section) returns (at: seq<nat>)
    ensures |at| == |FilesIn(items, section)|
    ensures forall i :: 0 <= i < |at| ==> at[i] < |items| && FilesIn(items, section)[i] == items[at[i]]
    ensures forall i, j :: 0 <= i < j < |at| ==> at[i] < at[j]
    ensures forall k: nat :: k in at <==> k < |items| && items[k].File? && SectionOf(items[k].path) == section
  {
    hide FilesIn, SectionOf;
    if items == [] {
      at := [];
      NoPlaces(section);
    } else {
      var rest := Places(items[1..], section);
      at := NextPlaces(items, section, rest);
    }
  }

  lemma NoPlaces(section: Section)
    ensures FilesIn([], section) == []
  {
  }

  lemma NextPlaces(items: seq<Item>, section: Section, rest: seq<nat>) returns (at: seq<nat>)
    requires items != [] && |rest| == |FilesIn(items[1..], section)|
    requires forall i :: 0 <= i < |rest| ==> rest[i] < |items| - 1 && FilesIn(items[1..], section)[i] == items[1..][rest[i]]
    requires forall i, j :: 0 <= i < j < |rest| ==> rest[i] < rest[j]
    requires forall k: nat :: k in rest <==> k < |items| - 1 && items[1..][k].File? && SectionOf(items[1..][k].path) == section
    ensures |at| == |FilesIn(items, section)|
    ensures forall i :: 0 <= i < |at| ==> at[i] < |items| && FilesIn(items, section)[i] == items[at[i]]
    ensures forall i, j :: 0 <= i < j < |at| ==> at[i] < at[j]
    ensures forall k: nat :: k in at <==> k < |items| && items[k].File? && SectionOf(items[k].path) == section
  {
    hide FilesIn, SectionOf;
    var behind := Shifted(rest);
    PlacesBehind(items, section, rest, behind);
    ItemsBehind(items, FilesIn(items[1..], section), rest, behind);
    at := WithFirst(items, section, behind);
  }

  /** The places behind the first item, and the first where it belongs to the section. */
  lemma WithFirst(items: seq<Item>, section: Section, behind: seq<nat>) returns (at: seq<nat>)
    requires items != [] && |behind| == |FilesIn(items[1..], section)|
    requires forall i :: 0 <= i < |behind| ==> 0 < behind[i] < |items| && FilesIn(items[1..], section)[i] == items[behind[i]]
    requires forall i, j :: 0 <= i < j < |behind| ==> behind[i] < behind[j]
    requires forall k: nat :: k in behind <==> 0 < k < |items| && items[k].File? && SectionOf(items[k].path) == section
    ensures |at| == |FilesIn(items, section)|
    ensures forall i :: 0 <= i < |at| ==> at[i] < |items| && FilesIn(items, section)[i] == items[at[i]]
    ensures forall i, j :: 0 <= i < j < |at| ==> at[i] < at[j]
    ensures forall k: nat :: k in at <==> k < |items| && items[k].File? && SectionOf(items[k].path) == section
  {
    hide FilesIn, SectionOf;
    FilesStep(items, section);
    if items[0].File? && SectionOf(items[0].path) == section {
      at := [0] + behind;
      assert forall i :: 0 < i < |at| ==> at[i] == behind[i - 1];
    } else {
      at := behind;
      assert [] + FilesIn(items[1..], section) == FilesIn(items[1..], section);
    }
  }

  lemma ItemsBehind(items: seq<Item>, files: seq<Item>, rest: seq<nat>, behind: seq<nat>)
    requires items != [] && |rest| == |files| == |behind|
    requires forall i :: 0 <= i < |rest| ==> rest[i] < |items| - 1 && files[i] == items[1..][rest[i]]
    requires forall i :: 0 <= i < |rest| ==> behind[i] == rest[i] + 1
    requires forall i, j :: 0 <= i < j < |rest| ==> rest[i] < rest[j]
    ensures forall i :: 0 <= i < |behind| ==> 0 < behind[i] < |items| && files[i] == items[behind[i]]
    ensures forall i, j :: 0 <= i < j < |behind| ==> behind[i] < behind[j]
  {
  }

  lemma PlacesBehind(items: seq<Item>, section: Section, rest: seq<nat>, behind: seq<nat>)
    requires items != []
    requires forall k: nat :: k in rest <==> k < |items| - 1 && items[1..][k].File? && SectionOf(items[1..][k].path) == section
    requires forall k: nat :: k in behind <==> k > 0 && k - 1 in rest
    ensures forall k: nat :: k in behind <==> 0 < k < |items| && items[k].File? && SectionOf(items[k].path) == section
  {
    hide SectionOf;
    forall k: nat
      ensures k in behind <==> 0 < k < |items| && items[k].File? && SectionOf(items[k].path) == section
    {
      if 0 < k < |items| {
        assert items[1..][k - 1] == items[k];
      }
    }
  }

  lemma FilesStep(items: seq<Item>, section: Section)
    requires items != []
    ensures FilesIn(items, section) ==
      (if items[0].File? && SectionOf(items[0].path) == section then [items[0]] else []) + FilesIn(items[1..], section)
  {
  }

  lemma Shifted(rest: seq<nat>) returns (at: seq<nat>)
    ensures |at| == |rest| && forall i :: 0 <= i < |at| ==> at[i] == rest[i] + 1
    ensures forall k: nat :: k in at <==> k > 0 && k - 1 in rest
  {
    at := seq(|rest|, i requires 0 <= i < |rest| => rest[i] + 1);
    forall k: nat | k > 0 && k - 1 in rest
      ensures k in at
    {
      var i :| 0 <= i < |rest| && rest[i] == k - 1;
      assert at[i] == k;
    }
  }

  lemma {:induction false} DirsAt(section: Section, mode: nat, files: seq<Item>, i: nat)
    requires AreFiles(files) && i < |files|
    ensures |Dirs(section, mode, files)| == |Contents(files)| == |files|
    ensures Hex.Parsed(Dirs(section, mode, files)[i]) == Some(DirBytes(section, mode, files[i].path))
    ensures Hex.Parsed(Contents(files)[i]) == if files[i].data == [] then None else Some(files[i].data)
  {
    hide DirBytes;
    if i == 0 {
      DirNotEmpty(section, mode, files[0].path);
      Hex.RoundTrip(DirBytes(section, mode, files[0].path));
      Hex.RoundTrip(files[0].data);
      NotEmptyText(DirBytes(section, mode, files[0].path));
      NotEmptyText(files[0].data);
      if |files| > 1 {
        DirsAt(section, mode, files[1..], 0);
      }
    } else {
      DirsAt(section, mode, files[1..], i - 1);
    }
  }

  lemma DirNotEmpty(section: Section, mode: nat, path: seq<byte>)
    requires ProperPath(path)
    ensures DirBytes(section, mode, path) != []
  {
  }

  lemma NotEmptyText(data: seq<byte>)
    ensures Hex.Text(data) == [] <==> data == []
  {
  }

  lemma {:induction false} SameLength(section: Section, mode: nat, files: seq<Item>)
    requires AreFiles(files)
    ensures |Dirs(section, mode, files)| == |Contents(files)| == |files|
  {
    if files != [] {
      DirsAt(section, mode, files, 0);
    }
  }

  /** The sections by the first bytes of a path: "/nv/item_files/rfnv/" and "/rfc/" stand out. */
  lemma Sections(path: seq<byte>)
    ensures SectionOf(path) == Backup <==> [47, 110, 118, 47, 105, 116, 101, 109, 95, 102, 105, 108, 101, 115, 47, 114, 102, 110, 118, 47] <= path
    ensures SectionOf(path) == NvFiles <==> [47, 114, 102, 99, 47] <= path
    ensures SectionOf(path) == Provisioning <==> !([47, 110, 118, 47, 105, 116, 101, 109, 95, 102, 105, 108, 101, 115, 47, 114, 102, 110, 118, 47] <= path) && !([47, 114, 102, 99, 47] <= path)
  {
    assert RFNV_PREFIX <= path ==> path[1] == 110;
    assert RFC_PREFIX <= path ==> path[1] == 114;
  }

  /** One path of each kind: "/nv/item_files/rfnv/0", "/rfc/0" and "/nv/item_files/rfn". */
  lemma KnownPaths()
    ensures SectionOf([47, 110, 118, 47, 105, 116, 101, 109, 95, 102, 105, 108, 101, 115, 47, 114, 102, 110, 118, 47, 48]) == Backup
    ensures SectionOf([47, 114, 102, 99, 47, 48]) == NvFiles
    ensures SectionOf([47, 110, 118, 47, 105, 116, 101, 109, 95, 102, 105, 108, 101, 115, 47, 114, 102, 110]) == Provisioning
  {
    Sections([47, 110, 118, 47, 105, 116, 101, 109, 95, 102, 105, 108, 101, 115, 47, 114, 102, 110, 118, 47, 48]);
    Sections([47, 114, 102, 99, 47, 48]);
    Sections([47, 110, 118, 47, 105, 116, 101, 109, 95, 102, 105, 108, 101, 115, 47, 114, 102, 110]);
  }

  /** The eight bytes in front of a path of the backup section. */
  lemma BackupDirs(path: seq<byte>)
    ensures DirBytes(Backup, RFNV_MODE, path) == [1, 0, 1, 1, 0x80, 0x3D, 0xD5, 0x12] + path
    ensures DirBytes(Backup, 0, path) == [1, 0, 1, 1, 0, 0, 0, 0] + path
  {
    hide LeBytes;
    BackupModes();
  }

  /** One section's files, written as one section's streams. */
  lemma SectionStreams(items: seq<Item>, section: Section, written: Section, mode: nat) returns (at: seq<nat>)
    requires AreItems(items)
    ensures AreFiles(FilesIn(items, section))
    ensures forall i :: 0 <= i < |at| ==> at[i] < |items| && items[at[i]].File?
    ensures forall i, j :: 0 <= i < j < |at| ==> at[i] < at[j]
    ensures forall k: nat :: k in at <==> k < |items| && items[k].File? && SectionOf(items[k].path) == section
    ensures FilesIn(items, section) == [] <==> at == []
    ensures |Dirs(written, mode, FilesIn(items, section))| == |Contents(FilesIn(items, section))| == |at|
    ensures forall i :: 0 <= i < |at| ==>
      Hex.Parsed(Dirs(written, mode, FilesIn(items, section))[i]) == Some(DirBytes(written, mode, items[at[i]].path))
    ensures forall i :: 0 <= i < |at| ==>
      Hex.Parsed(Contents(FilesIn(items, section))[i]) == if items[at[i]].data == [] then None else Some(items[at[i]].data)
  {
    hide Dirs, Contents, FilesIn, SectionOf, Hex.Parsed, DirBytes;
    PartsAreProper(items);
    at := Places(items, section);
    var files := FilesIn(items, section);
    SameLength(written, mode, files);
    forall i | 0 <= i < |at|
      ensures Hex.Parsed(Dirs(written, mode, files)[i]) == Some(DirBytes(written, mode, items[at[i]].path))
      ensures Hex.Parsed(Contents(files)[i]) == if items[at[i]].data == [] then None else Some(items[at[i]].data)
    {
      DirsAt(written, mode, files, i);
    }
  }

  /**
   * The backup section: the files below "/nv/item_files/rfnv/" in the order of the archive, each path
   * behind the mode 0x12D53D80, and behind all of them those below "/rfc/" with the mode 0.
   */
  lemma BackupStreams(items: seq<Item>, x: seq<Storage>) returns (rfnv: seq<nat>, rfc: seq<nat>)
    requires AreItems(items) && x == ToXqcn(items)
    ensures forall i :: 0 <= i < |rfnv| ==> rfnv[i] < |items| && items[rfnv[i]].File?
    ensures forall i :: 0 <= i < |rfc| ==> rfc[i] < |items| && items[rfc[i]].File?
    ensures forall i, j :: 0 <= i < j < |rfnv| ==> rfnv[i] < rfnv[j]
    ensures forall i, j :: 0 <= i < j < |rfc| ==> rfc[i] < rfc[j]
    ensures forall k: nat | k < |items| && items[k].File? :: k in rfnv <==>
      [47, 110, 118, 47, 105, 116, 101, 109, 95, 102, 105, 108, 101, 115, 47, 114, 102, 110, 118, 47] <= items[k].path
    ensures forall k: nat | k < |items| && items[k].File? :: k in rfc <==> [47, 114, 102, 99, 47] <= items[k].path
    ensures |x| >= 3 && x[1].Files? && x[1].section == Backup && |x[1].dirs| == |x[1].contents| == |rfnv| + |rfc|
    ensures forall i :: 0 <= i < |rfnv| ==>
      Hex.Parsed(x[1].dirs[i]) == Some([1, 0, 1, 1, 0x80, 0x3D, 0xD5, 0x12] + items[rfnv[i]].path)
    ensures forall i :: 0 <= i < |rfc| ==>
      Hex.Parsed(x[1].dirs[|rfnv| + i]) == Some([1, 0, 1, 1, 0, 0, 0, 0] + items[rfc[i]].path)
    ensures forall i :: 0 <= i < |rfnv| ==>
      Hex.Parsed(x[1].contents[i]) == if items[rfnv[i]].data == [] then None else Some(items[rfnv[i]].data)
    ensures forall i :: 0 <= i < |rfc| ==>
      Hex.Parsed(x[1].contents[|rfnv| + i]) == if items[rfc[i]].data == [] then None else Some(items[rfc[i]].data)
  {
    hide Dirs, Contents, Records, FilesIn, Hex.Parsed, SectionOf, DirBytes, AreFiles, AreItems;
    rfnv := SectionStreams(items, Backup, Backup, RFNV_MODE);
    rfc := SectionStreams(items, NvFiles, Backup, 0);
    AllSections(items);
    BackupStorage(items, x);
    forall i | 0 <= i < |rfnv|
      ensures Hex.Parsed(Dirs(Backup, RFNV_MODE, FilesIn(items, Backup))[i]) ==
        Some([1, 0, 1, 1, 0x80, 0x3D, 0xD5, 0x12] + items[rfnv[i]].path)
    {
      BackupDirs(items[rfnv[i]].path);
    }
    forall i | 0 <= i < |rfc|
      ensures Hex.Parsed(Dirs(Backup, 0, FilesIn(items, NvFiles))[i]) ==
        Some([1, 0, 1, 1, 0, 0, 0, 0] + items[rfc[i]].path)
    {
      BackupDirs(items[rfc[i]].path);
    }
  }

  lemma BackupStorage(items: seq<Item>, x: seq<Storage>)
    requires AreItems(items) && x == ToXqcn(items)
    ensures |x| >= 3 && AreFiles(FilesIn(items, Backup)) && AreFiles(FilesIn(items, NvFiles))
    ensures x[1] == Files(Backup, Dirs(Backup, RFNV_MODE, FilesIn(items, Backup)) + Dirs(Backup, 0, FilesIn(items, NvFiles)),
                          Contents(FilesIn(items, Backup)) + Contents(FilesIn(items, NvFiles)))
  {
    hide Dirs, Contents, Records, FilesIn, NvIn, AreFiles, AreItems;
    PartsAreProper(items);
  }

  lemma AllSections(items: seq<Item>)
    ensures forall k: nat | k < |items| && items[k].File? :: SectionOf(items[k].path) == Backup <==>
      [47, 110, 118, 47, 105, 116, 101, 109, 95, 102, 105, 108, 101, 115, 47, 114, 102, 110, 118, 47] <= items[k].path
    ensures forall k: nat | k < |items| && items[k].File? :: SectionOf(items[k].path) == NvFiles <==> [47, 114, 102, 99, 47] <= items[k].path
    ensures forall k: nat | k < |items| && items[k].File? :: SectionOf(items[k].path) == Provisioning <==>
      !([47, 110, 118, 47, 105, 116, 101, 109, 95, 102, 105, 108, 101, 115, 47, 114, 102, 110, 118, 47] <= items[k].path) && !([47, 114, 102, 99, 47] <= items[k].path)
  {
    forall k: nat | k < |items| && items[k].File?
      ensures SectionOf(items[k].path) == Backup <==>
        [47, 110, 118, 47, 105, 116, 101, 109, 95, 102, 105, 108, 101, 115, 47, 114, 102, 110, 118, 47] <= items[k].path
      ensures SectionOf(items[k].path) == NvFiles <==> [47, 114, 102, 99, 47] <= items[k].path
    {
      Sections(items[k].path);
    }
  }

  /** The provisioning section: every other file, its path with a NUL behind it. */
  lemma ProvisioningStreams(items: seq<Item>, x: seq<Storage>) returns (prov: seq<nat>)
    requires AreItems(items) && x == ToXqcn(items)
    ensures forall i :: 0 <= i < |prov| ==> prov[i] < |items| && items[prov[i]].File?
    ensures forall i, j :: 0 <= i < j < |prov| ==> prov[i] < prov[j]
    ensures forall k: nat | k < |items| && items[k].File? :: k in prov <==>
      !([47, 110, 118, 47, 105, 116, 101, 109, 95, 102, 105, 108, 101, 115, 47, 114, 102, 110, 118, 47] <= items[k].path) && !([47, 114, 102, 99, 47] <= items[k].path)
    ensures |x| >= 3 && x[2].Files? && x[2].section == Provisioning && |x[2].dirs| == |x[2].contents| == |prov|
    ensures forall i :: 0 <= i < |prov| ==> Hex.Parsed(x[2].dirs[i]) == Some(items[prov[i]].path + [0])
    ensures forall i :: 0 <= i < |prov| ==>
      Hex.Parsed(x[2].contents[i]) == if items[prov[i]].data == [] then None else Some(items[prov[i]].data)
  {
    hide Dirs, Contents, Records, FilesIn, Hex.Parsed, SectionOf;
    PartsAreProper(items);
    prov := SectionStreams(items, Provisioning, Provisioning, 0);
    AllSections(items);
  }

  /** The last section, there only for files below "/rfc/": their bare paths. */
  lemma NvFileStreams(items: seq<Item>, x: seq<Storage>) returns (rfc: seq<nat>)
    requires AreItems(items) && x == ToXqcn(items)
    ensures forall i :: 0 <= i < |rfc| ==> rfc[i] < |items| && items[rfc[i]].File?
    ensures forall i, j :: 0 <= i < j < |rfc| ==> rfc[i] < rfc[j]
    ensures forall k: nat | k < |items| && items[k].File? :: k in rfc <==> [47, 114, 102, 99, 47] <= items[k].path
    ensures |x| == if rfc == [] then 3 else 4
    ensures rfc != [] ==> x[3].Files? && x[3].section == NvFiles && |x[3].dirs| == |x[3].contents| == |rfc|
    ensures forall i :: 0 <= i < |rfc| ==> Hex.Parsed(x[3].dirs[i]) == Some(items[rfc[i]].path)
    ensures forall i :: 0 <= i < |rfc| ==>
      Hex.Parsed(x[3].contents[i]) == if items[rfc[i]].data == [] then None else Some(items[rfc[i]].data)
  {
    hide Dirs, Contents, Records, FilesIn, Hex.Parsed, SectionOf;
    PartsAreProper(items);
    rfc := SectionStreams(items, NvFiles, NvFiles, 0);
    AllSections(items);
  }

  /** The first section: one record after the other, in the order of the archive. */
  lemma RecordStream(items: seq<Item>, x: seq<Storage>)
    requires AreItems(items) && x == ToXqcn(items)
    ensures AreNv(NvIn(items)) && |x| >= 3 && x[0].NvArray?
    ensures Hex.Parsed(x[0].stream) == if NvIn(items) == [] then None else Some(Records(NvIn(items)))
  {
    hide Dirs, Contents, FilesIn, RecordBytes;
    PartsAreProper(items);
    Hex.RoundTrip(Records(NvIn(items)));
    NotEmptyText(Records(NvIn(items)));
    if NvIn(items) != [] {
      RecordHead(NvIn(items)[0]);
    }
  }
}
