/**
 * Offline conversion between file system archives and XQCN backups: numbered NV items are records
 * of one stream, files are pairs of a path stream and a data stream in up to three sections.
 */
module Xqcn {
  import opened Bytes
  import Tar
  import Hex

  const SLASH: byte := 47
  const NV_DATA := 128
  const NV_RECORD := 136
  const RFNV_MODE := 0x12D53D80
  /** "nv_items/" */
  const NV_PREFIX: seq<byte> := [110, 118, 95, 105, 116, 101, 109, 115, 47]
  /** "/nv/item_files/rfnv/" */
  const RFNV_PREFIX: seq<byte> := [47, 110, 118, 47, 105, 116, 101, 109, 95, 102, 105, 108, 101, 115, 47, 114, 102, 110, 118, 47]
  /** "/rfc/" */
  const RFC_PREFIX: seq<byte> := [47, 114, 102, 99, 47]
  /** ".bin" */
  const BIN: seq<byte> := [46, 98, 105, 110]

  predicate StartsWith(s: seq<byte>, prefix: seq<byte>) {
    prefix <= s
  }

  // ---- Decimal numbers ----

  function DecDigits(v: nat): (s: seq<byte>)
    ensures |s| > 0
  {
    if v < 10 then [48 + v] else DecDigits(v / 10) + [48 + v % 10]
  }

  function DecText(v: nat, width: nat): (s: seq<byte>)
    ensures |s| > 0
  {
    var digits := DecDigits(v);
    if |digits| < width then Tar.Fill(48, width - |digits|) + digits else digits
  }

  predicate IsDigit(c: byte) {
    48 <= c < 58
  }

  function LeadingDigits(s: seq<byte>): seq<byte> {
    if s != [] && IsDigit(s[0]) then [s[0]] + LeadingDigits(s[1..]) else []
  }

  function DecValue(s: seq<byte>): nat {
    if s == [] then 0 else 10 * DecValue(s[..|s| - 1]) + (if s[|s| - 1] >= 48 then s[|s| - 1] - 48 else 0)
  }

  function SkipBlanks(s: seq<byte>): seq<byte> {
    if s != [] && (s[0] == 32 || 9 <= s[0] < 14) then SkipBlanks(s[1..]) else s
  }

  /** An unsigned 32-bit number scanned from the front of a text. */
  function ScanUnsigned(s: seq<byte>): Option<word> {
    var t := SkipBlanks(s);
    var minus := t != [] && t[0] == 45;
    var digits := LeadingDigits(if t != [] && (t[0] == 43 || t[0] == 45) then t[1..] else t);
    if digits == [] then None else
      var v := DecValue(digits);
      var long :=
        if v > 0xFFFF_FFFF_FFFF_FFFF then 0xFFFF_FFFF_FFFF_FFFF
        else if minus && v > 0 then 0x1_0000_0000_0000_0000 - v
        else v;
      Some(long % 0x1_0000_0000)
  }

  lemma {:induction false} DecDigitsValue(v: nat)
    ensures DecValue(DecDigits(v)) == v
    ensures forall i :: 0 <= i < |DecDigits(v)| ==> IsDigit(DecDigits(v)[i])
  {
    if v < 10 {
      assert DecDigits(v)[..0] == [];
    } else {
      DecDigitsValue(v / 10);
      assert DecDigits(v)[..|DecDigits(v)| - 1] == DecDigits(v / 10);
    }
  }

  lemma {:induction false} DecDigitsLength(v: nat)
    requires v < 10000000000
    ensures |DecDigits(v)| <= 10
  {
    DecDigitsShort(v, 10);
  }

  function Pow10(n: nat): nat {
    if n == 0 then 1 else 10 * Pow10(n - 1)
  }

  lemma {:induction false} DecDigitsShort(v: nat, n: nat)
    requires n > 0 && v < Pow10(n)
    ensures |DecDigits(v)| <= n
  {
    if v >= 10 {
      DecDigitsShort(v / 10, n - 1);
    }
  }

  lemma {:induction false} LeadingZeros(n: nat, s: seq<byte>)
    ensures DecValue(Tar.Fill(48, n) + s) == DecValue(s)
  {
    var zeros := Tar.Fill(48, n);
    if s != [] {
      LeadingZeros(n, s[..|s| - 1]);
      assert (zeros + s)[..|zeros + s| - 1] == zeros + s[..|s| - 1];
    } else {
      ZerosValue(n);
      assert zeros + s == zeros;
    }
  }

  lemma {:induction false} ZerosValue(n: nat)
    ensures DecValue(Tar.Fill(48, n)) == 0
  {
    if n > 0 {
      ZerosValue(n - 1);
      assert Tar.Fill(48, n)[..n - 1] == Tar.Fill(48, n - 1);
    }
  }

  lemma {:induction false} DigitsLead(s: seq<byte>, rest: seq<byte>)
    requires forall i :: 0 <= i < |s| ==> IsDigit(s[i])
    requires rest == [] || !IsDigit(rest[0])
    ensures LeadingDigits(s + rest) == s
  {
    if s != [] {
      DigitsLead(s[1..], rest);
      assert (s + rest)[1..] == s[1..] + rest;
      assert s == [s[0]] + s[1..];
    } else {
      assert s + rest == rest;
    }
  }

  lemma DecTextDigits(v: nat, width: nat)
    ensures forall i :: 0 <= i < |DecText(v, width)| ==> IsDigit(DecText(v, width)[i])
    ensures DecValue(DecText(v, width)) == v
  {
    hide DecDigits, DecValue;
    var digits := DecDigits(v);
    DecDigitsValue(v);
    if |digits| < width {
      Tar.FillIs(48, width - |digits|);
      LeadingZeros(width - |digits|, digits);
    }
  }

  /** A zero-padded number followed by the file name's extension is scanned back. */
  lemma ScanRoundTrip(v: word)
    ensures ScanUnsigned(DecText(v, 5) + BIN) == Some(v)
  {
    hide DecText, DecValue, LeadingDigits;
    var s := DecText(v, 5) + BIN;
    DecTextDigits(v, 5);
    assert IsDigit(s[0]);
    assert SkipBlanks(s) == s;
    DigitsLead(DecText(v, 5), BIN);
  }

  // ---- What an archive member means ----

  datatype Section = Backup | Provisioning | NvFiles

  datatype Item = Skipped | Nv(id: word, record: seq<byte>) | File(path: seq<byte>, data: seq<byte>)

  /** The absolute form of a member's name. */
  function Absolute(name: seq<byte>): (p: seq<byte>)
    ensures |p| > 0 && p[0] == SLASH && |p| <= |name| + 1
  {
    if name != [] && name[0] == SLASH then name else [SLASH] + name
  }

  function SectionOf(path: seq<byte>): Section {
    if StartsWith(path, RFNV_PREFIX) then Backup
    else if StartsWith(path, RFC_PREFIX) then NvFiles
    else Provisioning
  }

  function ItemOf(m: Tar.Member): Item {
    var name := m.fields.name;
    if !Tar.IsFile(m.fields) then Skipped
    else if StartsWith(name, NV_PREFIX) then
      var id := ScanUnsigned(name[|NV_PREFIX|..]);
      if id.Some? && |m.data| >= NV_DATA then Nv(id.value, m.data[..NV_DATA]) else Skipped
    else File(Absolute(name), m.data)
  }

  function Items(ms: seq<Tar.Member>): seq<Item> {
    if ms == [] then [] else [ItemOf(ms[0])] + Items(ms[1..])
  }

  /** The files of one section, in order. */
  function FilesIn(items: seq<Item>, section: Section): seq<Item> {
    if items == [] then []
    else if items[0].File? && SectionOf(items[0].path) == section then [items[0]] + FilesIn(items[1..], section)
    else FilesIn(items[1..], section)
  }

  function NvIn(items: seq<Item>): seq<Item> {
    if items == [] then []
    else if items[0].Nv? then [items[0]] + NvIn(items[1..])
    else NvIn(items[1..])
  }

  // ---- Archive to XQCN ----

  type Text = seq<byte>

  datatype Storage = NvArray(stream: Text) | Files(section: Section, dirs: seq<Text>, contents: seq<Text>)

  /** An NV record: its size, its kind, the item's number and 128 bytes. */
  function RecordBytes(item: Item): seq<byte>
    requires item.Nv?
  {
    LeBytes(NV_RECORD, 2) + LeBytes(1, 2) + LeBytes(item.id, 4) + item.record
  }

  ghost predicate AreNv(items: seq<Item>) {
    forall i :: 0 <= i < |items| ==> items[i].Nv? && |items[i].record| == NV_DATA
  }

  ghost predicate AreFiles(items: seq<Item>) {
    forall i :: 0 <= i < |items| ==> items[i].File? && ProperPath(items[i].path)
  }

  ghost predicate ProperPath(path: seq<byte>) {
    0 < |path| <= 101 && path[0] == SLASH && 0 !in path
  }

  function Records(items: seq<Item>): seq<byte>
    requires AreNv(items)
  {
    if items == [] then [] else RecordBytes(items[0]) + Records(items[1..])
  }

  /** A path stream: with an 8-byte header in a backup section, NUL-terminated in a provisioning one. */
  function DirBytes(section: Section, mode: nat, path: seq<byte>): seq<byte> {
    match section
    case Backup => [1, 0, 1, 1] + LeBytes(mode, 4) + path
    case Provisioning => path + [0]
    case NvFiles => path
  }

  function Dirs(section: Section, mode: nat, files: seq<Item>): seq<Text>
    requires AreFiles(files)
  {
    if files == [] then [] else [Hex.Text(DirBytes(section, mode, files[0].path))] + Dirs(section, mode, files[1..])
  }

  function Contents(files: seq<Item>): seq<Text>
    requires AreFiles(files)
  {
    if files == [] then [] else [Hex.Text(files[0].data)] + Contents(files[1..])
  }

  ghost predicate AreItems(items: seq<Item>) {
    forall i :: 0 <= i < |items| ==> IsItem(items[i])
  }

  ghost predicate IsItem(item: Item) {
    && (item.Nv? ==> |item.record| == NV_DATA)
    && (item.File? ==> ProperPath(item.path))
  }

  lemma {:induction false} PartsAreProper(items: seq<Item>)
    requires AreItems(items)
    ensures AreNv(NvIn(items)) && forall s :: AreFiles(FilesIn(items, s))
  {
    if items != [] {
      PartsAreProper(items[1..]);
    }
  }

  /** The sections every file has. */
  function Always(nv: seq<Item>, backup: seq<Item>, prov: seq<Item>, rfc: seq<Item>): seq<Storage>
    requires AreNv(nv) && AreFiles(backup) && AreFiles(prov) && AreFiles(rfc)
  {
    [ NvArray(Hex.Text(Records(nv))),
      Files(Backup, Dirs(Backup, RFNV_MODE, backup) + Dirs(Backup, 0, rfc), Contents(backup) + Contents(rfc)),
      Files(Provisioning, Dirs(Provisioning, 0, prov), Contents(prov)) ]
  }

  function ToXqcn(items: seq<Item>): seq<Storage>
    requires AreItems(items)
  {
    PartsAreProper(items);
    var rfc := FilesIn(items, NvFiles);
    Always(NvIn(items), FilesIn(items, Backup), FilesIn(items, Provisioning), rfc)
    + if rfc == [] then [] else [Files(NvFiles, Dirs(NvFiles, 0, rfc), Contents(rfc))]
  }

  // ---- XQCN to archive ----

  /** "nv_items/NNNNN.bin" */
  function NvName(id: word): seq<byte> {
    NV_PREFIX + DecText(id, 5) + BIN
  }

  function NvEntries(stream: seq<byte>): seq<Tar.Entry> {
    if |stream| < NV_RECORD then []
    else [NvEntry(LeWord(stream[4..8]), stream[8..NV_RECORD])] + NvEntries(stream[NV_RECORD..])
  }

  function NvEntry(id: word, record: seq<byte>): Tar.Entry {
    Tar.Entry(NvName(id), 33188, 0, Tar.REGULAR, [], record)
  }

  /** The path a path stream stands for, at most 511 bytes of it. */
  function PathOf(section: Section, raw: seq<byte>): seq<byte> {
    var path := Tar.CString(if section == Backup && |raw| > 8 then raw[8..] else raw);
    if |path| > 511 then path[..511] else path
  }

  function Relative(path: seq<byte>): seq<byte> {
    if path != [] && path[0] == SLASH then path[1..] else path
  }

  function FileEntry(path: seq<byte>, data: seq<byte>): Tar.Entry {
    Tar.Entry(Relative(path), 33188, 0, Tar.REGULAR, [], data)
  }

  /** One pair of streams; an empty stream drops the pair. */
  function PairEntry(section: Section, dir: Text, content: Text): seq<Tar.Entry> {
    match (Hex.Parsed(dir), Hex.Parsed(content))
    case (Some(raw), Some(data)) => [FileEntry(PathOf(section, raw), data)]
    case _ => []
  }

  function FileEntries(section: Section, dirs: seq<Text>, contents: seq<Text>): seq<Tar.Entry> {
    if dirs == [] || contents == [] then []
    else PairEntry(section, dirs[0], contents[0]) + FileEntries(section, dirs[1..], contents[1..])
  }

  function StorageEntries(storage: Storage): seq<Tar.Entry> {
    match storage
    case NvArray(stream) => if Hex.Parsed(stream).Some? then NvEntries(Hex.Parsed(stream).value) else []
    case Files(section, dirs, contents) => FileEntries(section, dirs, contents)
  }

  function ToTar(storages: seq<Storage>): seq<Tar.Entry> {
    if storages == [] then [] else StorageEntries(storages[0]) + ToTar(storages[1..])
  }

  /** Two file names: "nv_items/00005.bin" and "nv_items/70000.bin". */
  lemma KnownNames()
    ensures NvName(5) == [110, 118, 95, 105, 116, 101, 109, 115, 47, 48, 48, 48, 48, 53, 46, 98, 105, 110]
    ensures NvName(70000) == [110, 118, 95, 105, 116, 101, 109, 115, 47, 55, 48, 48, 48, 48, 46, 98, 105, 110]
  {
    hide DecText;
    ShortNumber();
    LongNumber();
  }

  lemma ShortNumber()
    ensures DecText(5, 5) == [48, 48, 48, 48, 53]
  {
    Tar.FillIs(48, 4);
    hide Tar.Fill;
    assert DecDigits(5) == [53];
    assert Tar.Fill(48, 4) == [48, 48, 48, 48];
  }

  lemma LongNumber()
    ensures DecText(70000, 5) == [55, 48, 48, 48, 48]
  {
    assert DecDigits(70) == [55, 48];
    assert DecDigits(7000) == [55, 48, 48, 48];
    assert DecDigits(70000) == [55, 48, 48, 48, 48];
  }

  // ---- What one conversion emits ----

  function NvBack(items: seq<Item>): seq<Tar.Entry>
    requires AreNv(items)
  {
    if items == [] then [] else [NvEntry(items[0].id, items[0].record)] + NvBack(items[1..])
  }

  function FilesBack(files: seq<Item>): seq<Tar.Entry>
    requires AreFiles(files)
  {
    if files == [] then []
    else if files[0].data == [] then FilesBack(files[1..])
    else [FileEntry(files[0].path, files[0].data)] + FilesBack(files[1..])
  }

  lemma RecordParts(item: Item, rest: seq<byte>)
    requires item.Nv? && |item.record| == NV_DATA
    ensures var s := RecordBytes(item) + rest;
      |s| >= NV_RECORD && LeWord(s[4..8]) == item.id && s[8..NV_RECORD] == item.record && s[NV_RECORD..] == rest
  {
    hide LeBytes, LeWord;
    LeWordRoundTrip(item.id);
    var s := RecordBytes(item) + rest;
    assert s[4..8] == LeBytes(item.id, 4);
  }

  lemma {:induction false} RecordsRead(items: seq<Item>)
    requires AreNv(items)
    ensures NvEntries(Records(items)) == NvBack(items)
  {
    if items != [] {
      hide RecordBytes, NvEntry, LeWord;
      RecordParts(items[0], Records(items[1..]));
      RecordsRead(items[1..]);
    }
  }

  lemma DirRead(section: Section, mode: nat, path: seq<byte>)
    requires ProperPath(path)
    ensures Hex.Parsed(Hex.Text(DirBytes(section, mode, path))).Some?
    ensures PathOf(section, Hex.Parsed(Hex.Text(DirBytes(section, mode, path))).value) == path
  {
    hide Tar.CString;
    var raw := DirBytes(section, mode, path);
    Hex.RoundTrip(raw);
    assert raw != [];
    if section == Backup {
      assert raw[8..] == path;
    }
    Tar.CStringOf(path, []);
    Tar.CStringOf(path, [0]);
    assert path + [] == path;
  }

  lemma {:induction false} FilesRead(section: Section, mode: nat, files: seq<Item>)
    requires AreFiles(files)
    ensures |Dirs(section, mode, files)| == |Contents(files)|
    ensures FileEntries(section, Dirs(section, mode, files), Contents(files)) == FilesBack(files)
  {
    if files != [] {
      FilesRead(section, mode, files[1..]);
      DirRead(section, mode, files[0].path);
      Hex.RoundTrip(files[0].data);
      hide PathOf, DirBytes, FileEntry;
      assert Hex.Text(files[0].data) == [] <==> files[0].data == [];
    }
  }

  lemma {:induction false} FileEntriesJoin(section: Section, d: seq<Text>, e: seq<Text>, c: seq<Text>, f: seq<Text>)
    requires |d| == |c|
    ensures FileEntries(section, d + e, c + f) == FileEntries(section, d, c) + FileEntries(section, e, f)
  {
    hide PairEntry;
    if d == [] {
      assert d + e == e && c + f == f;
    } else {
      FileEntriesJoin(section, d[1..], e, c[1..], f);
      FileEntriesStep(section, d, c);
      FileEntriesStep(section, d + e, c + f);
      hide FileEntries;
      assert (d + e)[1..] == d[1..] + e && (c + f)[1..] == c[1..] + f;
    }
  }

  lemma FileEntriesStep(section: Section, dirs: seq<Text>, contents: seq<Text>)
    requires dirs != [] && contents != []
    ensures FileEntries(section, dirs, contents)
      == PairEntry(section, dirs[0], contents[0]) + FileEntries(section, dirs[1..], contents[1..])
  {
    hide PairEntry;
  }

  /** Everything a conversion to XQCN and back emits; the /rfc/ files come twice. */
  lemma BackAndForth(items: seq<Item>)
    requires AreItems(items)
    ensures AreNv(NvIn(items)) && forall s :: AreFiles(FilesIn(items, s))
    ensures ToTar(ToXqcn(items))
      == NvBack(NvIn(items)) + FilesBack(FilesIn(items, Backup)) + FilesBack(FilesIn(items, NvFiles))
       + FilesBack(FilesIn(items, Provisioning)) + FilesBack(FilesIn(items, NvFiles))
  {
    PartsAreProper(items);
    var backup, prov, rfc := FilesIn(items, Backup), FilesIn(items, Provisioning), FilesIn(items, NvFiles);
    hide Dirs, Contents, FilesBack, NvIn, FilesIn, NvBack, AreFiles, AreNv, StorageEntries, Always, ToTar;
    AlwaysBack(NvIn(items), backup, prov, rfc);
    var always := Always(NvIn(items), backup, prov, rfc);
    if rfc == [] {
      NoFiles(rfc);
      assert ToXqcn(items) == always;
      assert ToTar(always) + [] == ToTar(always);
    } else {
      FilesStorage(NvFiles, rfc);
      var last := Files(NvFiles, Dirs(NvFiles, 0, rfc), Contents(rfc));
      JoinTars(always, last);
      assert ToXqcn(items) == always + [last];
    }
  }

  lemma AlwaysBack(nv: seq<Item>, backup: seq<Item>, prov: seq<Item>, rfc: seq<Item>)
    requires AreNv(nv) && AreFiles(backup) && AreFiles(prov) && AreFiles(rfc)
    ensures ToTar(Always(nv, backup, prov, rfc)) == NvBack(nv) + FilesBack(backup) + FilesBack(rfc) + FilesBack(prov)
  {
    hide Dirs, Contents, FilesBack, NvBack, AreFiles, AreNv, StorageEntries, Records, ToTar;
    NvStorage(nv);
    BackupStorage(backup, rfc);
    FilesStorage(Provisioning, prov);
    var x := Always(nv, backup, prov, rfc);
    Three(x[0], x[1], x[2]);
  }

  lemma BackupStorage(backup: seq<Item>, rfc: seq<Item>)
    requires AreFiles(backup) && AreFiles(rfc)
    ensures StorageEntries(Files(Backup, Dirs(Backup, RFNV_MODE, backup) + Dirs(Backup, 0, rfc), Contents(backup) + Contents(rfc)))
      == FilesBack(backup) + FilesBack(rfc)
  {
    hide FileEntries, Dirs, Contents, FilesBack, AreFiles;
    FilesRead(Backup, RFNV_MODE, backup);
    FilesRead(Backup, 0, rfc);
    FileEntriesJoin(Backup, Dirs(Backup, RFNV_MODE, backup), Dirs(Backup, 0, rfc), Contents(backup), Contents(rfc));
  }

  lemma FilesStorage(section: Section, files: seq<Item>)
    requires AreFiles(files)
    ensures StorageEntries(Files(section, Dirs(section, 0, files), Contents(files))) == FilesBack(files)
  {
    FilesRead(section, 0, files);
  }

  lemma NvStorage(items: seq<Item>)
    requires AreNv(items)
    ensures StorageEntries(NvArray(Hex.Text(Records(items)))) == NvBack(items)
  {
    RecordsRead(items);
    Hex.RoundTrip(Records(items));
    assert Hex.Text(Records(items)) == [] ==> Records(items) == [];
  }

  lemma NoFiles(files: seq<Item>)
    requires AreFiles(files)
    ensures files == [] ==> FilesBack(files) == []
  {
  }

  lemma {:induction false} JoinTars(x: seq<Storage>, last: Storage)
    ensures ToTar(x + [last]) == ToTar(x) + StorageEntries(last)
  {
    hide StorageEntries;
    if x == [] {
      assert [last][1..] == [];
    } else {
      JoinTars(x[1..], last);
      assert (x + [last])[1..] == x[1..] + [last];
    }
  }

  lemma Three(a: Storage, b: Storage, c: Storage)
    ensures ToTar([a, b, c]) == StorageEntries(a) + StorageEntries(b) + StorageEntries(c)
  {
    hide StorageEntries;
    JoinTars([], a);
    JoinTars([a], b);
    JoinTars([a, b], c);
    assert [] + [a] == [a] && [a] + [b] == [a, b] && [a, b] + [c] == [a, b, c];
    assert ToTar([]) == [];
  }
}
