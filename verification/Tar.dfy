/**
 * The ustar archives that file system backups are kept in: octal number fields, the header checksum,
 * and members padded to 512-byte blocks.
 */
module Tar {
  import opened Answers
  import opened Bytes
  import Seqs

  const BLOCK := 512
  const REGULAR: byte := 48
  const SPACE: byte := 32

  /** The characters of a C string kept in a buffer. */
  function CString(s: seq<byte>): seq<byte> {
    if s == [] || s[0] == 0 then [] else [s[0]] + CString(s[1..])
  }

  function Fill(b: byte, n: nat): (s: seq<byte>)
    ensures |s| == n
  {
    if n == 0 then [] else Fill(b, n - 1) + [b]
  }

  // ---- Octal fields ----

  function OctDigits(v: nat): (s: seq<byte>)
    ensures |s| > 0
  {
    if v < 8 then [48 + v] else OctDigits(v / 8) + [48 + v % 8]
  }

  /** The number in zero-padded octal, at least `width` digits. */
  function OctText(v: nat, width: nat): (s: seq<byte>)
    ensures |s| >= width
  {
    var digits := OctDigits(v);
    if |digits| < width then Fill(48, width - |digits|) + digits else digits
  }

  /** The text cut to the field, whose last byte is NUL. */
  function OctField(v: nat, size: nat): (s: seq<byte>)
    requires size > 0
    ensures |s| == size
  {
    OctText(v, size - 1)[..size - 1] + [0]
  }

  /** The number a text stands for when other characters are skipped. */
  function OctValue(s: seq<byte>): nat {
    if s == [] then 0
    else if 48 <= s[|s| - 1] < 56 then 8 * OctValue(s[..|s| - 1]) + (s[|s| - 1] - 48)
    else OctValue(s[..|s| - 1])
  }

  function Pow8(n: nat): (r: nat)
    ensures r > 0
  {
    if n == 0 then 1 else 8 * Pow8(n - 1)
  }

  lemma {:induction false} DigitsValue(v: nat)
    ensures OctValue(OctDigits(v)) == v
    ensures forall i :: 0 <= i < |OctDigits(v)| ==> 48 <= OctDigits(v)[i] < 56
  {
    if v < 8 {
      assert OctDigits(v)[..0] == [];
    } else {
      DigitsValue(v / 8);
      assert OctDigits(v)[..|OctDigits(v)| - 1] == OctDigits(v / 8);
    }
  }

  lemma {:induction false} DigitsFit(v: nat, width: nat)
    requires width > 0
    ensures |OctDigits(v)| <= width <==> v < Pow8(width)
  {
    if v >= 8 && width > 1 {
      DigitsFit(v / 8, width - 1);
      OctaveBound(v, Pow8(width - 1));
    } else if v < 8 {
      assert Pow8(width) == 8 * Pow8(width - 1);
    } else {
      assert Pow8(1) == 8 * Pow8(0);
    }
  }

  lemma OctaveBound(v: nat, p: nat)
    ensures v / 8 < p <==> v < 8 * p
  {
  }

  lemma {:induction false} FillValue(n: nat, s: seq<byte>)
    ensures OctValue(Fill(48, n) + s) == OctValue(s)
  {
    var zeros := Fill(48, n);
    if s != [] {
      FillValue(n, s[..|s| - 1]);
      assert (zeros + s)[..|zeros + s| - 1] == zeros + s[..|s| - 1];
    } else {
      ZerosValue(n);
      assert zeros + s == zeros;
    }
  }

  lemma {:induction false} ZerosValue(n: nat)
    ensures OctValue(Fill(48, n)) == 0
  {
    if n > 0 {
      ZerosValue(n - 1);
      assert Fill(48, n)[..n - 1] == Fill(48, n - 1);
    }
  }

  lemma {:induction false} FillIs(b: byte, n: nat)
    ensures forall i :: 0 <= i < n ==> Fill(b, n)[i] == b
  {
    if n > 0 {
      FillIs(b, n - 1);
    }
  }

  lemma {:induction false} CStringOf(s: seq<byte>, rest: seq<byte>)
    requires 0 !in s && (rest == [] || rest[0] == 0)
    ensures CString(s + rest) == s
  {
    if s != [] {
      CStringOf(s[1..], rest);
      assert (s + rest)[1..] == s[1..] + rest;
      assert s == [s[0]] + s[1..];
    } else {
      assert s + rest == rest;
    }
  }

  /** A number below 8^(size-1) is read back from its field, whatever follows the field. */
  lemma OctRoundTrip(v: nat, size: nat, rest: seq<byte>)
    requires size > 1 && v < Pow8(size - 1)
    ensures OctValue(CString(OctField(v, size) + rest)) == v
  {
    hide OctDigits, OctValue, CString, Fill, Pow8;
    var digits := OctDigits(v);
    DigitsFit(v, size - 1);
    DigitsValue(v);
    var pad := Fill(48, size - 1 - |digits|);
    FillIs(48, size - 1 - |digits|);
    FillValue(size - 1 - |digits|, digits);
    assert OctText(v, size - 1) == pad + digits;
    assert OctField(v, size) + rest == (pad + digits) + ([0] + rest);
    CStringOf(pad + digits, [0] + rest);
  }

  /** Reading stops at a NUL or the field's end and skips what is not an octal digit; the result is 64 bits wide. */
  method ParseOctal(buf: seq<byte>) returns (val: nat)
    ensures val == OctValue(CString(buf)) % 0x1_0000_0000_0000_0000
  {
    hide CString, OctValue;
    var i := 0;
    val := 0;
    OctEmpty(buf);
    while i < |buf| && buf[i] != 0
      invariant i <= |buf| && CString(buf) == buf[..i] + CString(buf[i..])
      invariant val == OctValue(buf[..i]) % 0x1_0000_0000_0000_0000
    {
      OctNext(buf, i);
      if 48 <= buf[i] < 56 {
        ShiftModulo(OctValue(buf[..i]), buf[i] - 48);
        val := (val * 8 + (buf[i] - 48)) % 0x1_0000_0000_0000_0000;
      }
      i := i + 1;
    }
    OctEnd(buf[i..]);
    assert CString(buf) == buf[..i];
  }

  lemma OctEmpty(buf: seq<byte>)
    ensures OctValue(buf[..0]) == 0 && CString(buf) == buf[..0] + CString(buf[0..])
  {
    assert buf[0..] == buf;
  }

  lemma OctEnd(s: seq<byte>)
    requires s == [] || s[0] == 0
    ensures CString(s) == []
  {
  }

  lemma OctNext(buf: seq<byte>, i: nat)
    requires i < |buf| && buf[i] != 0
    ensures buf[..i] + CString(buf[i..]) == buf[..i + 1] + CString(buf[i + 1..])
    ensures OctValue(buf[..i + 1])
      == if 48 <= buf[i] < 56 then 8 * OctValue(buf[..i]) + (buf[i] - 48) else OctValue(buf[..i])
  {
    assert buf[..i + 1][..i] == buf[..i];
    assert buf[i..][1..] == buf[i + 1..];
  }

  lemma ShiftModulo(v: nat, d: nat)
    ensures (v % 0x1_0000_0000_0000_0000 * 8 + d) % 0x1_0000_0000_0000_0000 == (v * 8 + d) % 0x1_0000_0000_0000_0000
  {
  }

  // ---- Headers ----

  datatype Entry = Entry(name: seq<byte>, mode: int, mtime: int, kind: byte, link: seq<byte>, data: seq<byte>)

  /** A signed 32-bit value cast to a 64-bit unsigned one. */
  function AsUnsignedLong(x: int): nat
    requires -0x8000_0000 <= x < 0x8000_0000
  {
    if x < 0 then x + 0x1_0000_0000_0000_0000 else x
  }

  /** A string copied into a field of `size` bytes and cut so that a NUL remains. */
  function TextField(s: seq<byte>, size: nat): (f: seq<byte>)
    requires size > 0
    ensures |f| == size
  {
    if |s| < size then s + Zeros(size - |s|) else s[..size - 1] + [0]
  }

  function DeclaredSize(e: Entry): nat {
    if e.kind == REGULAR then |e.data| else 0
  }

  ghost predicate IsEntry(e: Entry) {
    && 0 !in e.name && 0 !in e.link
    && -0x8000_0000 <= e.mode < 0x8000_0000 && -0x8000_0000 <= e.mtime < 0x8000_0000
    && |e.data| < 0x8000_0000 && (e.kind == REGULAR || e.data == [])
  }

  function Owner(e: Entry): (s: seq<byte>)
    ensures |s| == 124
  {
    TextField(e.name, 100) + OctField(e.mode % 4096, 8) + OctField(0, 8) + OctField(0, 8)
  }

  function Front(e: Entry): (s: seq<byte>)
    requires IsEntry(e)
    ensures |s| == 148
  {
    Owner(e) + (OctField(DeclaredSize(e), 12) + OctField(AsUnsignedLong(e.mtime), 12))
  }

  const MAGIC: seq<byte> := [117, 115, 116, 97, 114, 0, 48, 48]

  function Back(e: Entry): (s: seq<byte>)
    ensures |s| == 356
  {
    [e.kind] + (TextField(e.link, 100) + (MAGIC + Zeros(247)))
  }

  function Sum(s: seq<byte>): nat {
    if s == [] then 0 else Sum(s[..|s| - 1]) + s[|s| - 1]
  }

  /** The sum of a header's bytes, its checksum field counted as blanks. */
  function Checksum(header: seq<byte>): nat
    requires |header| == BLOCK
  {
    Sum(header[..148]) + 8 * SPACE + Sum(header[156..])
  }

  function Header(e: Entry): (s: seq<byte>)
    requires IsEntry(e)
    ensures |s| == BLOCK
  {
    Front(e) + (OctField(Sum(Front(e)) + 8 * SPACE + Sum(Back(e)), 7) + [SPACE]) + Back(e)
  }

  lemma {:induction false} SumBound(s: seq<byte>)
    ensures Sum(s) <= 255 * |s|
  {
    if s != [] {
      SumBound(s[..|s| - 1]);
    }
  }

  /** The total over bytes, checksum field as blanks, computed the way the header is scanned. */
  method ComputeChecksum(header: seq<byte>) returns (sum: nat)
    requires |header| == BLOCK
    ensures sum == Checksum(header)
  {
    hide Sum;
    sum := 0;
    SumEmpty(header, 0);
    for i := 0 to BLOCK
      invariant i <= 148 ==> sum == Sum(header[..i])
      invariant 148 <= i <= 156 ==> sum == Sum(header[..148]) + SPACE * (i - 148)
      invariant 156 <= i ==> sum == Sum(header[..148]) + 8 * SPACE + Sum(header[156..i])
    {
      if 148 <= i < 156 {
        sum := sum + SPACE;
        SumEmpty(header, 156);
      } else {
        sum := sum + header[i];
        SumNext(header, if i < 148 then 0 else 156, i);
      }
    }
    assert header[156..BLOCK] == header[156..];
  }

  lemma SumEmpty(s: seq<byte>, a: nat)
    requires a <= |s|
    ensures Sum(s[a..a]) == 0 && (a == 0 ==> s[..a] == s[a..a])
  {
  }

  lemma SumNext(s: seq<byte>, a: nat, i: nat)
    requires a <= i < |s|
    ensures Sum(s[a..i + 1]) == Sum(s[a..i]) + s[i] && (a == 0 ==> s[..i] == s[a..i] && s[..i + 1] == s[a..i + 1])
  {
    assert s[a..i + 1][..i - a] == s[a..i];
  }

  datatype Fields = Fields(name: seq<byte>, mode: nat, size: nat, mtime: nat, kind: byte, link: seq<byte>)

  function FieldsOf(h: seq<byte>): Fields
    requires |h| == BLOCK
  {
    Fields(CString(h[..100]), OctValue(CString(h[100..108])), OctValue(CString(h[124..136])),
           OctValue(CString(h[136..148])), h[156], CString(h[157..257]))
  }

  function StoredChecksum(h: seq<byte>): nat
    requires |h| == BLOCK
  {
    OctValue(CString(h[148..156]))
  }

  lemma SliceJoin(a: seq<byte>, b: seq<byte>, c: seq<byte>)
    ensures (a + b + c)[..|a|] == a && (a + b + c)[|a|..|a| + |b|] == b && (a + b + c)[|a| + |b|..] == c
  {
  }

  lemma {:induction false} TextFieldReads(s: seq<byte>, size: nat)
    requires size > 0 && 0 !in s
    ensures CString(TextField(s, size)) == if |s| < size then s else s[..size - 1]
  {
    if |s| < size {
      CStringOf(s, Zeros(size - |s|));
    } else {
      CStringOf(s[..size - 1], [0]);
    }
  }

  lemma OwnerFields(e: Entry)
    requires 0 !in e.name
    ensures CString(Owner(e)[..100]) == if |e.name| < 100 then e.name else e.name[..99]
    ensures OctValue(CString(Owner(e)[100..108])) == e.mode % 4096
  {
    hide OctField, CString, OctValue, TextField;
    TextFieldReads(e.name, 100);
    var name, mode, rest := TextField(e.name, 100), OctField(e.mode % 4096, 8), OctField(0, 8) + OctField(0, 8);
    assert Owner(e) == name + mode + rest;
    SliceJoin(name, mode, rest);
    assert Pow8(7) > 4096 by { Pow8Values(); }
    OctRoundTrip(e.mode % 4096, 8, []);
    assert mode + [] == mode;
  }

  lemma Pow8Values()
    ensures Pow8(6) == 262144 && Pow8(7) == 2097152 && Pow8(11) == 8589934592
  {
    assert Pow8(3) == 512;
    assert Pow8(9) == 8 * 8 * 8 * Pow8(6);
  }

  lemma FrontFields(e: Entry)
    requires IsEntry(e)
    ensures Front(e)[..124] == Owner(e)
    ensures OctValue(CString(Front(e)[124..136])) == DeclaredSize(e)
    ensures e.mtime >= 0 ==> OctValue(CString(Front(e)[136..148])) == e.mtime
  {
    hide OctField, CString, OctValue, Owner, Pow8;
    var size, mtime := OctField(DeclaredSize(e), 12), OctField(AsUnsignedLong(e.mtime), 12);
    SliceJoin(Owner(e), size, mtime);
    assert Front(e) == Owner(e) + size + mtime;
    assert Front(e)[136..] == Front(e)[136..148];
    Pow8Values();
    OctRoundTrip(DeclaredSize(e), 12, []);
    assert size + [] == size && mtime + [] == mtime;
    if e.mtime >= 0 {
      OctRoundTrip(e.mtime, 12, []);
    }
  }

  lemma BackFields(e: Entry)
    requires 0 !in e.link
    ensures Back(e)[0] == e.kind
    ensures CString(Back(e)[1..101]) == if |e.link| < 100 then e.link else e.link[..99]
  {
    hide CString, TextField;
    TextFieldReads(e.link, 100);
    var link := TextField(e.link, 100);
    SliceJoin([e.kind], link, MAGIC + Zeros(247));
    assert Back(e) == [e.kind] + link + (MAGIC + Zeros(247));
  }

  /** The three parts of a header, with the total the checksum field holds. */
  lemma HeaderParts(e: Entry)
    requires IsEntry(e)
    ensures Header(e)[..148] == Front(e) && Header(e)[156..] == Back(e)
    ensures Header(e)[148..156] == OctField(Checksum(Header(e)), 7) + [SPACE]
  {
    hide OctField, Front, Back, Sum;
    var total := Sum(Front(e)) + 8 * SPACE + Sum(Back(e));
    SliceJoin(Front(e), OctField(total, 7) + [SPACE], Back(e));
  }

  /** Six octal digits hold any checksum, so every written header passes its test. */
  lemma HeaderChecks(e: Entry)
    requires IsEntry(e)
    ensures Checksum(Header(e)) == StoredChecksum(Header(e))
  {
    hide OctField, OctValue, CString, Sum, Pow8, Header;
    var h := Header(e);
    HeaderParts(e);
    SumBound(h[..148]);
    SumBound(h[156..]);
    Pow8Values();
    OctRoundTrip(Checksum(h), 7, [SPACE]);
  }

  /** Every field of a written header is read back; names and links are cut to 99 bytes. */
  lemma HeaderRoundTrip(e: Entry)
    requires IsEntry(e)
    ensures var f := FieldsOf(Header(e));
      && f.name == (if |e.name| < 100 then e.name else e.name[..99])
      && f.mode == e.mode % 4096 && f.size == DeclaredSize(e) && f.kind == e.kind
      && f.link == (if |e.link| < 100 then e.link else e.link[..99])
      && (f.mtime == e.mtime <==> e.mtime >= 0)
  {
    hide OctValue, CString, Sum, Header, Owner, Front, Back;
    var h := Header(e);
    HeaderParts(e);
    FrontFields(e);
    OwnerFields(e);
    BackFields(e);
    Seqs.SliceOfSlice(h, 0, 148, 124, 136);
    Seqs.SliceOfSlice(h, 0, 148, 136, 148);
    Seqs.SliceOfSlice(h, 0, 148, 0, 124);
    Seqs.SliceOfSlice(h, 0, 124, 0, 100);
    Seqs.SliceOfSlice(h, 0, 124, 100, 108);
    Seqs.SliceOfSlice(h, 156, 512, 1, 101);
    assert h[156..512] == h[156..] && h[0..148] == h[..148] && h[0..124] == h[..148][..124] && h[0..100] == h[..100];
    assert h[156..][0] == h[156];
  }

  // ---- The layout of a header ----

  /** Digit `k` of a number from the right, in octal. */
  function OctDigit(v: nat, k: nat): (d: nat)
    ensures d < 8
  {
    if k == 0 then v % 8 else OctDigit(v / 8, k - 1)
  }

  lemma {:induction false} DigitAt(v: nat, k: nat)
    requires k < |OctDigits(v)|
    ensures OctDigits(v)[|OctDigits(v)| - 1 - k] == 48 + OctDigit(v, k)
  {
    if v >= 8 && k > 0 {
      DigitAt(v / 8, k - 1);
    }
  }

  lemma {:induction false} NoDigit(v: nat, k: nat)
    requires k >= |OctDigits(v)|
    ensures OctDigit(v, k) == 0
  {
    if v >= 8 {
      NoDigit(v / 8, k - 1);
    } else {
      ZeroDigit(k - 1);
    }
  }

  lemma {:induction false} ZeroDigit(k: nat)
    ensures OctDigit(0, k) == 0
  {
    if k > 0 {
      ZeroDigit(k - 1);
    }
  }

  /** A field holds the octal digits of its number from the left, with zeros in front and a NUL at the end. */
  lemma OctFieldDigits(v: nat, size: nat, k: nat)
    requires size > 1 && v < Pow8(size - 1) && k < size - 1
    ensures OctField(v, size)[size - 1] == 0 && OctField(v, size)[size - 2 - k] == 48 + OctDigit(v, k)
  {
    hide OctDigits, Fill, Pow8, OctDigit;
    DigitsFit(v, size - 1);
    var digits := OctDigits(v);
    FillIs(48, size - 1 - |digits|);
    if k < |digits| {
      DigitAt(v, k);
    } else {
      NoDigit(v, k);
    }
    assert OctText(v, size - 1) == Fill(48, size - 1 - |digits|) + digits;
  }

  /**
   * Where each field of a header stands: name, mode, owner and group, size, time, checksum, kind,
   * link, and "ustar" with version "00".
   */
  lemma HeaderLayout(e: Entry)
    requires IsEntry(e)
    ensures var h := Header(e);
      && h[0..100] == TextField(e.name, 100) && h[100..108] == OctField(e.mode % 4096, 8)
      && h[108..116] == OctField(0, 8) && h[116..124] == OctField(0, 8)
      && h[124..136] == OctField(if e.kind == 48 then |e.data| else 0, 12)
      && h[136..148] == OctField(if e.mtime < 0 then e.mtime + 0x1_0000_0000_0000_0000 else e.mtime, 12)
      && h[148..155] == OctField(Checksum(h), 7) && h[155] == 32
      && h[156] == e.kind && h[157..257] == TextField(e.link, 100)
      && h[257..265] == [117, 115, 116, 97, 114, 0, 48, 48] && h[265..512] == Zeros(247)
  {
    hide OctField, TextField, Sum, Header, Front, Back, Checksum;
    var h := Header(e);
    HeaderParts(e);
    FrontLayout(e);
    BackLayout(e);
    var f, b := Front(e), Back(e);
    assert h[0..148] == f && h[156..512] == b;
    Seqs.SliceOfSlice(h, 0, 148, 0, 100);
    Seqs.SliceOfSlice(h, 0, 148, 100, 108);
    Seqs.SliceOfSlice(h, 0, 148, 108, 116);
    Seqs.SliceOfSlice(h, 0, 148, 116, 124);
    Seqs.SliceOfSlice(h, 0, 148, 124, 136);
    Seqs.SliceOfSlice(h, 0, 148, 136, 148);
    Seqs.SliceOfSlice(h, 156, 512, 1, 101);
    Seqs.SliceOfSlice(h, 156, 512, 101, 109);
    Seqs.SliceOfSlice(h, 156, 512, 109, 356);
    Seqs.SliceOfSlice(h, 148, 156, 0, 7);
    assert h[156..512][0] == h[156] && h[148..156][7] == h[155];
  }

  lemma FrontLayout(e: Entry)
    requires IsEntry(e)
    ensures var f := Front(e);
      && f[0..100] == TextField(e.name, 100) && f[100..108] == OctField(e.mode % 4096, 8)
      && f[108..116] == OctField(0, 8) && f[116..124] == OctField(0, 8)
      && f[124..136] == OctField(if e.kind == 48 then |e.data| else 0, 12)
      && f[136..148] == OctField(if e.mtime < 0 then e.mtime + 0x1_0000_0000_0000_0000 else e.mtime, 12)
  {
    hide OctField, TextField;
    var o := Owner(e);
    var n, m, z := TextField(e.name, 100), OctField(e.mode % 4096, 8), OctField(0, 8);
    SliceJoin(n, m, z + z);
    assert o == n + m + (z + z);
    assert o[108..116] == z && o[116..124] == z && o[0..100] == n;
    var size, mtime := OctField(DeclaredSize(e), 12), OctField(AsUnsignedLong(e.mtime), 12);
    SliceJoin(o, size, mtime);
    var f := Front(e);
    assert f == o + size + mtime;
    assert f[0..124] == o && f[136..148] == f[136..];
    Seqs.SliceOfSlice(f, 0, 124, 0, 100);
    Seqs.SliceOfSlice(f, 0, 124, 100, 108);
    Seqs.SliceOfSlice(f, 0, 124, 108, 116);
    Seqs.SliceOfSlice(f, 0, 124, 116, 124);
  }

  lemma BackLayout(e: Entry)
    ensures var b := Back(e);
      && b[0] == e.kind && b[1..101] == TextField(e.link, 100)
      && b[101..109] == [117, 115, 116, 97, 114, 0, 48, 48] && b[109..356] == Zeros(247)
  {
    hide TextField;
    var link := TextField(e.link, 100);
    SliceJoin([e.kind], link, MAGIC + Zeros(247));
    var b := Back(e);
    assert b == [e.kind] + link + (MAGIC + Zeros(247));
    assert b[101..109] == MAGIC && b[109..356] == Zeros(247);
  }

  lemma {:induction false} SumChange(s: seq<byte>, k: nat, b: byte)
    requires k < |s|
    ensures Sum(s[k := b]) + s[k] == Sum(s) + b
  {
    var n := |s| - 1;
    var t := s[k := b];
    if k == n {
      assert t[..n] == s[..n];
    } else {
      SumChange(s[..n], k, b);
      assert t[..n] == s[..n][k := b];
    }
  }

  lemma {:induction false} SumOfZeros(n: nat)
    ensures Sum(Zeros(n)) == 0
  {
    if n > 0 {
      SumOfZeros(n - 1);
      assert Zeros(n)[..n - 1] == Zeros(n - 1);
    }
  }

  /** The checksum counts every byte once, except the eight of its own field, which count as blanks. */
  lemma ChecksumCounts(h: seq<byte>, k: nat, b: byte)
    requires |h| == 512 && k < 512
    ensures 148 <= k < 156 ==> Checksum(h[k := b]) == Checksum(h)
    ensures k < 148 || 156 <= k ==> Checksum(h[k := b]) + h[k] == Checksum(h) + b
    ensures Checksum(Zeros(512)) == 8 * 32
  {
    hide Sum;
    var t := h[k := b];
    if k < 148 {
      SumChange(h[..148], k, b);
      assert t[..148] == h[..148][k := b] && t[156..] == h[156..];
    } else if k < 156 {
      assert t[..148] == h[..148] && t[156..] == h[156..];
    } else {
      SumChange(h[156..], k - 156, b);
      assert t[..148] == h[..148] && t[156..] == h[156..][k - 156 := b];
    }
    SumOfZeros(148);
    SumOfZeros(356);
    assert Zeros(512)[..148] == Zeros(148) && Zeros(512)[156..] == Zeros(356);
  }

  /** What a text field holds, byte by byte. */
  lemma TextFieldBytes(s: seq<byte>, size: nat, k: nat)
    requires k < size
    ensures TextField(s, size)[k] == if k < |s| && k + 1 < size then s[k] else 0
  {
  }

  const EFS_S_IFITM := 0xE000

  /** The bits of a mode that tell the type of a file. */
  function TypeBits(mode: nat): nat {
    mode / 0x1000 % 0x10 * 0x1000
  }

  /** A written header keeps no type bits, so its member is never recognised as an item file by its mode. */
  lemma TypeBitsLost(e: Entry)
    requires IsEntry(e)
    ensures TypeBits(FieldsOf(Header(e)).mode) != EFS_S_IFITM
  {
    hide FieldsOf, Header;
    HeaderRoundTrip(e);
  }

  /** Overwrites part of a buffer. */
  method Store(buffer: array<byte>, at: nat, field: seq<byte>)
    requires at + |field| <= buffer.Length
    modifies buffer
    ensures buffer[..] == old(buffer[..at]) + field + old(buffer[at + |field|..])
  {
    ghost var before := buffer[..];
    for i := 0 to |field|
      invariant forall k :: 0 <= k < i ==> buffer[at + k] == field[k]
      invariant forall k :: 0 <= k < at || at + i <= k < buffer.Length ==> buffer[k] == before[k]
    {
      buffer[at + i] := field[i];
    }
    Stored(before, at, field, buffer[..]);
  }

  lemma Stored(before: seq<byte>, at: nat, field: seq<byte>, after: seq<byte>)
    requires |before| == |after| && at + |field| <= |before|
    requires forall k :: 0 <= k < |field| ==> after[at + k] == field[k]
    requires forall k :: 0 <= k < at || at + |field| <= k < |before| ==> after[k] == before[k]
    ensures after == before[..at] + field + before[at + |field|..]
  {
    var want := before[..at] + field + before[at + |field|..];
    forall k | 0 <= k < |after|
      ensures after[k] == want[k]
    {
      if at <= k < at + |field| {
        assert after[at + (k - at)] == field[k - at];
      }
    }
  }

  /** Writing the next field of a cleared buffer. */
  lemma StoredNext(before: seq<byte>, field: seq<byte>, n: nat)
    requires |field| <= n
    ensures var all := before + Zeros(n);
      all[..|before|] + field + all[|before| + |field|..] == before + field + Zeros(n - |field|)
  {
  }

  /** Fills a cleared 512-byte block field by field and its checksum last. */
  method WriteHeader(e: Entry) returns (header: array<byte>)
    requires IsEntry(e)
    ensures fresh(header) && header[..] == Header(e)
  {
    hide OctField, TextField, Sum, AsUnsignedLong, DeclaredSize, Checksum;
    header := new byte[BLOCK](_ => 0);
    assert header[..] == [] + Zeros(BLOCK);
    var front := WriteFront(header, e);
    assert front + Zeros(364) == (front + Zeros(8)) + Zeros(356);
    WriteBack(header, front + Zeros(8), e);
    var sum := ComputeChecksum(header[..]);
    ChecksumOf(front, Zeros(8), Back(e));
    Store(header, 148, OctField(sum, 7));
    ghost var total := OctField(sum, 7);
    BlanksReplaced(front, Back(e), total);
    LastBlank(front, Back(e), total);
    Store(header, 155, [SPACE]);
  }

  lemma LastBlank(front: seq<byte>, back: seq<byte>, total: seq<byte>)
    requires |front| == 148 && |back| == 356 && |total| == 7
    ensures var all := front + total + (Zeros(1) + back);
      all[..155] + [SPACE] + all[156..] == front + (total + [SPACE]) + back
  {
  }

  /** The checksum does not depend on the bytes of its own field. */
  lemma ChecksumOf(front: seq<byte>, field: seq<byte>, back: seq<byte>)
    requires |front| == 148 && |field| == 8 && |back| == 356
    ensures Checksum(front + field + back) == Sum(front) + 8 * SPACE + Sum(back)
  {
    SliceJoin(front, field, back);
  }

  lemma BlanksReplaced(front: seq<byte>, back: seq<byte>, total: seq<byte>)
    requires |front| == 148 && |back| == 356 && |total| == 7
    ensures var all := front + Zeros(8) + back;
      all[..148] + total + all[155..] == front + total + (Zeros(1) + back)
  {
  }

  method WriteFront(header: array<byte>, e: Entry) returns (front: seq<byte>)
    requires IsEntry(e) && header.Length == BLOCK && header[..] == [] + Zeros(BLOCK)
    modifies header
    ensures front == Front(e) && header[..] == front + Zeros(364)
  {
    hide OctField, TextField, AsUnsignedLong, DeclaredSize, Zeros, Owner;
    front := [];
    front := PutField(header, front, TextField(e.name, 100), 512);
    front := PutField(header, front, OctField(e.mode % 4096, 8), 412);
    front := PutField(header, front, OctField(0, 8), 404);
    front := PutField(header, front, OctField(0, 8), 396);
    OwnerIs(e);
    front := PutField(header, front, OctField(DeclaredSize(e), 12), 388);
    front := PutField(header, front, OctField(AsUnsignedLong(e.mtime), 12), 376);
    FrontIs(e);
  }

  lemma OwnerIs(e: Entry)
    ensures Owner(e) == [] + TextField(e.name, 100) + OctField(e.mode % 4096, 8) + OctField(0, 8) + OctField(0, 8)
  {
    hide TextField, OctField;
  }

  lemma FrontIs(e: Entry)
    requires IsEntry(e)
    ensures Front(e) == Owner(e) + OctField(DeclaredSize(e), 12) + OctField(AsUnsignedLong(e.mtime), 12)
  {
    hide Owner, OctField;
  }

  lemma BackIs(e: Entry)
    ensures Back(e) + Zeros(0) == [e.kind] + TextField(e.link, 100) + MAGIC + Zeros(247)
  {
    hide TextField;
  }

  /** Puts a field right behind the part already written. */
  method PutField(header: array<byte>, before: seq<byte>, field: seq<byte>, n: nat) returns (after: seq<byte>)
    requires |before| + n == header.Length && |field| <= n && header[..] == before + Zeros(n)
    modifies header
    ensures after == before + field && header[..] == after + Zeros(n - |field|)
  {
    StoredNext(before, field, n);
    ghost var all := header[..];
    assert all[..|before|] == header[..|before|] && all[|before| + |field|..] == header[|before| + |field|..];
    Store(header, |before|, field);
    after := before + field;
  }

  method WriteBack(header: array<byte>, before: seq<byte>, e: Entry)
    requires |before| == 156 && header.Length == BLOCK && header[..] == before + Zeros(356)
    modifies header
    ensures header[..] == before + Back(e)
  {
    hide TextField, Zeros;
    var at := PutField(header, before, [e.kind], 356);
    at := PutField(header, at, TextField(e.link, 100), 355);
    at := PutField(header, at, MAGIC, 255);
    BackIs(e);
    assert before + Back(e) == before + (Back(e) + Zeros(0));
    assert at + Zeros(247) == before + ([e.kind] + TextField(e.link, 100) + MAGIC + Zeros(247));
  }

  // ---- Archives ----

  function Padding(size: nat): (n: nat)
    ensures n < BLOCK && (size + n) % BLOCK == 0
  {
    if size % BLOCK == 0 then 0 else BLOCK - size % BLOCK
  }

  function MemberBytes(e: Entry): (s: seq<byte>)
    requires IsEntry(e)
    ensures |s| == BLOCK + |e.data| + Padding(|e.data|)
  {
    Header(e) + e.data + Zeros(Padding(|e.data|))
  }

  ghost predicate AreEntries(es: seq<Entry>) {
    forall i :: 0 <= i < |es| ==> IsEntry(es[i])
  }

  function Members(es: seq<Entry>): seq<byte>
    requires AreEntries(es)
  {
    if es == [] then [] else MemberBytes(es[0]) + Members(es[1..])
  }

  /** The members, then two blocks of zeros. */
  function Archive(es: seq<Entry>): seq<byte>
    requires AreEntries(es)
  {
    Members(es) + Zeros(1024)
  }

  datatype Member = Member(fields: Fields, data: seq<byte>)

  predicate IsFile(f: Fields) {
    f.kind == REGULAR || f.kind == 0
  }

  function From(a: seq<byte>, at: nat): (s: seq<byte>)
    ensures |s| <= |a| && (0 < at && a != [] ==> |s| < |a|)
  {
    if at <= |a| then a[at..] else []
  }

  /**
   * What a reader gets from the front of an archive: None at a short read, a zero block, a wrong
   * checksum or a member whose data is cut off. A member that is no regular file yields no data.
   */
  function Front1(a: seq<byte>): (r: Option<Member>)
    ensures r.Some? ==> a != []
  {
    if |a| < BLOCK then None else
      var h := a[..BLOCK];
      if h == Zeros(BLOCK) || Checksum(h) != StoredChecksum(h) then None else
        var f := FieldsOf(h);
        if !IsFile(f) then Some(Member(f, []))
        else if |a| - BLOCK < f.size then None
        else Some(Member(f, a[BLOCK..BLOCK + f.size]))
  }

  /** Where the header after a member begins. */
  function Behind(f: Fields): (n: nat)
    ensures n >= BLOCK
  {
    BLOCK + f.size + Padding(f.size)
  }

  function ReadArchive(a: seq<byte>): seq<Member>
    decreases |a|
  {
    match Front1(a)
    case None => []
    case Some(m) => [m] + ReadArchive(From(a, Behind(m.fields)))
  }

  /** What a written entry is read back as. */
  function Reread(e: Entry): Member
    requires IsEntry(e)
  {
    Member(FieldsOf(Header(e)), e.data)
  }

  function RereadAll(es: seq<Entry>): seq<Member>
    requires AreEntries(es)
  {
    if es == [] then [] else [Reread(es[0])] + RereadAll(es[1..])
  }

  lemma HeaderNotZero(e: Entry)
    requires IsEntry(e)
    ensures Header(e) != Zeros(BLOCK)
  {
    hide OctField, Header;
    HeaderParts(e);
    assert Header(e)[148..156][7] == SPACE;
  }

  lemma FirstMember(e: Entry, rest: seq<byte>)
    requires IsEntry(e)
    ensures Front1(MemberBytes(e) + rest) == Some(Reread(e))
    ensures Behind(Reread(e).fields) == |MemberBytes(e)|
  {
    hide Header, FieldsOf, Checksum, StoredChecksum;
    var h, pad := Header(e), Zeros(Padding(|e.data|));
    var a := MemberBytes(e) + rest;
    assert a == h + e.data + (pad + rest);
    SliceJoin(h, e.data, pad + rest);
    HeaderNotZero(e);
    HeaderChecks(e);
    HeaderRoundTrip(e);
  }

  /** Reading a written archive gives back its members, in order. */
  lemma {:induction false} ArchiveRoundTrip(es: seq<Entry>)
    requires AreEntries(es)
    ensures ReadArchive(Archive(es)) == RereadAll(es)
  {
    if es == [] {
      assert Archive(es)[..BLOCK] == Zeros(BLOCK);
    } else {
      hide MemberBytes, Reread, Front1, Behind;
      var rest := Archive(es[1..]);
      assert Archive(es) == MemberBytes(es[0]) + rest;
      FirstMember(es[0], rest);
      assert (MemberBytes(es[0]) + rest)[|MemberBytes(es[0])|..] == rest;
      ArchiveRoundTrip(es[1..]);
    }
  }

  /** A reader's file cursor; seeking may leave it behind the end. */
  class Reader {
    const file: seq<byte>
    var pos: nat

    constructor (file: seq<byte>)
      ensures this.file == file && pos == 0
    {
      this.file := file;
      pos := 0;
    }

    /** Reads one header and, for a regular file, its data; moves to the next header. */
    method Next() returns (m: Option<Member>)
      modifies this
      ensures m == Front1(From(file, old(pos)))
      ensures m.Some? ==> From(file, pos) == From(From(file, old(pos)), Behind(m.value.fields))
    {
      hide FieldsOf, Checksum, StoredChecksum, Zeros, Padding, From;
      FromEnd(file, pos);
      ghost var rest := From(file, pos);
      m := None;
      if pos > |file| || |file| - pos < BLOCK {
        return;
      }
      var header := file[pos..pos + BLOCK];
      HeaderInRest(file, pos);
      pos := pos + BLOCK;
      var sum := ComputeChecksum(header);
      if header == Zeros(BLOCK) || sum != StoredChecksum(header) {
        return;
      }
      var f := FieldsOf(header);
      var data := [];
      if IsFile(f) {
        if |file| - pos < f.size {
          return;
        }
        data := file[pos..pos + f.size];
        DataInRest(file, pos - BLOCK, f.size);
      }
      var blocks := (f.size + 511) / 512;
      WholeBlocks(f.size);
      pos := pos + blocks * BLOCK;
      FromFrom(file, old(pos), Behind(f));
      m := Some(Member(f, data));
    }
  }

  lemma FromEnd(file: seq<byte>, pos: nat)
    ensures |From(file, pos)| == if pos <= |file| then |file| - pos else 0
  {
  }

  lemma HeaderInRest(file: seq<byte>, pos: nat)
    requires pos + BLOCK <= |file|
    ensures file[pos..pos + BLOCK] == From(file, pos)[..BLOCK] && |From(file, pos)| == |file| - pos
  {
  }

  lemma DataInRest(file: seq<byte>, pos: nat, size: nat)
    requires pos + BLOCK + size <= |file|
    ensures file[pos + BLOCK..pos + BLOCK + size] == From(file, pos)[BLOCK..BLOCK + size]
  {
    Seqs.SliceOfSlice(file, pos, |file|, BLOCK, BLOCK + size);
    assert file[pos..|file|] == file[pos..];
  }

  lemma FromFrom(file: seq<byte>, pos: nat, n: nat)
    ensures From(file, pos + n) == From(From(file, pos), n)
  {
  }

  lemma WholeBlocks(size: nat)
    ensures (size + 511) / 512 * BLOCK == size + Padding(size)
  {
  }

  method ReadAll(file: seq<byte>) returns (ms: seq<Member>)
    ensures ms == ReadArchive(file)
  {
    hide Front1, Behind, ReadArchive, From;
    var reader := new Reader(file);
    ms := [];
    FromStart(file);
    while true
      invariant reader.file == file
      invariant ReadArchive(file) == ms + ReadArchive(From(file, reader.pos))
      decreases |From(file, reader.pos)|
    {
      ReadStep(From(file, reader.pos));
      var m := reader.Next();
      if m == None {
        assert ms + [] == ms;
        break;
      }
      ms := ms + [m.value];
    }
  }

  lemma FromStart(file: seq<byte>)
    ensures From(file, 0) == file
  {
  }

  lemma ReadStep(a: seq<byte>)
    ensures Front1(a) == None ==> ReadArchive(a) == []
    ensures Front1(a).Some? ==>
      var rest := From(a, Behind(Front1(a).value.fields));
      ReadArchive(a) == [Front1(a).value] + ReadArchive(rest) && |rest| < |a|
  {
    hide Front1, Behind;
  }

  // ---- Backing up one device file ----

  const MAX_READ := 1024

  /** What a backup leaves in the archive when only `got` bytes of the data and `pad` of the padding are written. */
  function PartialMember(e: Entry, got: nat, pad: nat): seq<byte>
    requires IsEntry(e) && got <= |e.data|
  {
    Header(e) + e.data[..got] + Zeros(pad)
  }

  /** How many of `n` bytes a write puts into the archive; behind the last answer, all of them. */
  function Put(puts: seq<int>, n: nat): (w: nat)
    ensures w <= n
  {
    if puts == [] || puts[0] > n then n else if puts[0] < 0 then 0 else puts[0]
  }

  /** How many of `chunk` bytes a read of the device delivers; behind the last answer, all of them. */
  function Delivered(counts: seq<int>, chunk: nat): (n: int)
    ensures n <= chunk
  {
    if counts == [] || counts[0] > chunk then chunk else counts[0]
  }

  function Chunk(left: nat): nat {
    if left > MAX_READ then MAX_READ else left
  }

  /** How many bytes of a file get into the archive, and the answers left for the padding. */
  datatype Copied = Copied(got: nat, puts: seq<int>)

  /** Copies `left` bytes up to the first read that delivers nothing or the first write that is short. */
  function CopyRun(left: nat, counts: seq<int>, puts: seq<int>): (c: Copied)
    ensures c.got <= left
  {
    if left == 0 then Copied(0, puts)
    else
      var n := Delivered(counts, Chunk(left));
      if n <= 0 then Copied(0, puts)
      else if Put(puts, n) < n then Copied(Put(puts, n), Later(puts))
      else
        var rest := CopyRun(left - n, Later(counts), Later(puts));
        Copied(n + rest.got, rest.puts)
  }

  /** Every read made for `left` bytes delivers something, and every write, that of the padding included, is whole. */
  ghost predicate AllWhole(left: nat, counts: seq<int>, puts: seq<int>, padding: nat) {
    if left == 0 then Put(puts, padding) == padding
    else
      var n := Delivered(counts, Chunk(left));
      n > 0 && Put(puts, n) == n && AllWhole(left - n, Later(counts), Later(puts), padding)
  }

  lemma {:induction false} CopiedExactly(left: nat, counts: seq<int>, puts: seq<int>, padding: nat)
    ensures var c := CopyRun(left, counts, puts);
      c.got == left && Put(c.puts, padding) == padding <==> AllWhole(left, counts, puts, padding)
  {
    hide Put, Delivered;
    if left > 0 {
      var n := Delivered(counts, Chunk(left));
      if n > 0 && Put(puts, n) == n {
        CopiedExactly(left - n, Later(counts), Later(puts), padding);
      }
    }
  }

  /** A read that delivers one byte and a next one that fails leave a member one byte long. */
  lemma CopyCut(left: nat)
    requires left > 1
    ensures CopyRun(left, [1, -1], []) == Copied(1, []) && !AllWhole(left, [1, -1], [], Padding(left))
  {
    var counts: seq<int> := [1, -1];
    assert counts[1..] == [-1];
    assert CopyRun(left - 1, [-1], []) == Copied(0, []);
    CopiedExactly(left, counts, [], Padding(left));
  }

  /**
   * Copies a device file in pieces. `counts` are the device's answers and `puts` those of the archive.
   * The copy ends at the first read that delivers nothing and at the first write that is short, and
   * the padding follows in every case.
   */
  method BackupFile(e: Entry, counts: seq<int>, puts: seq<int>) returns (out: seq<byte>, got: nat, pad: nat)
    requires IsEntry(e) && e.kind == REGULAR
    ensures var c := CopyRun(|e.data|, counts, puts); got == c.got && pad == Put(c.puts, Padding(|e.data|))
    ensures out == PartialMember(e, got, pad)
    ensures out == MemberBytes(e) <==> AllWhole(|e.data|, counts, puts, Padding(|e.data|))
  {
    hide Header, Padding, Put, Delivered, CopyRun, AllWhole, IsEntry, Zeros, MemberBytes;
    var header := WriteHeader(e);
    out := header[..];
    var offset, remaining := 0, |e.data|;
    var gets, answers := counts, puts;
    ghost var run := CopyRun(|e.data|, counts, puts);
    CopiedExactly(|e.data|, counts, puts, Padding(|e.data|));
    got := 0;
    var whole := true;
    while remaining > 0
      invariant 0 <= offset <= |e.data| && remaining == |e.data| - offset && got == offset
      invariant out == Header(e) + e.data[..got]
      invariant CopyFrom(run, got, CopyRun(remaining, gets, answers))
    {
      CopyStep(remaining, gets, answers);
      var chunk := if remaining > MAX_READ then MAX_READ else remaining;
      var n := Delivered(gets, chunk);
      gets := Later(gets);
      if n <= 0 {
        whole := false;
        break;
      }
      var w := Put(answers, n);
      answers := Later(answers);
      out := out + e.data[offset..offset + n][..w];
      PieceOfData(e.data, offset, n, w);
      got := offset + w;
      if w != n {
        whole := false;
        break;
      }
      offset := offset + n;
      remaining := remaining - n;
    }
    if whole {
      CopyEnds(gets, answers);
    }
    pad := Put(answers, Padding(|e.data|));
    out := out + Zeros(Padding(|e.data|))[..pad];
    ZerosStart(Padding(|e.data|), pad);
    WholeMember(e, got, pad);
  }

  lemma ZerosStart(n: nat, pad: nat)
    requires pad <= n
    ensures Zeros(n)[..pad] == Zeros(pad)
  {
  }

  ghost predicate CopyFrom(run: Copied, got: nat, rest: Copied) {
    run == Copied(got + rest.got, rest.puts)
  }

  lemma CopyStep(left: nat, counts: seq<int>, puts: seq<int>)
    requires left > 0
    ensures var n := Delivered(counts, Chunk(left));
      CopyRun(left, counts, puts) ==
        if n <= 0 then Copied(0, puts)
        else if Put(puts, n) < n then Copied(Put(puts, n), Later(puts))
        else
          var rest := CopyRun(left - n, Later(counts), Later(puts));
          Copied(n + rest.got, rest.puts)
  {
    hide Put, Delivered;
  }

  lemma CopyEnds(counts: seq<int>, puts: seq<int>)
    ensures CopyRun(0, counts, puts) == Copied(0, puts)
  {
  }

  /** A member that is not whole is shorter. */
  lemma WholeMember(e: Entry, got: nat, pad: nat)
    requires IsEntry(e) && e.kind == REGULAR && got <= |e.data| && pad <= Padding(|e.data|)
    ensures PartialMember(e, got, pad) == MemberBytes(e) <==> got == |e.data| && pad == Padding(|e.data|)
  {
    hide Header, Padding;
    assert e.data[..|e.data|] == e.data;
  }

  lemma PieceOfData(data: seq<byte>, offset: nat, n: nat, w: nat)
    requires offset + n <= |data| && w <= n
    ensures data[..offset] + data[offset..offset + n][..w] == data[..offset + w]
  {
  }

  /** After a partial copy a reader looks for the next header as many bytes too far on as were not written. */
  lemma PartialMemberShifts(e: Entry, got: nat, pad: nat)
    requires IsEntry(e) && e.kind == REGULAR && got <= |e.data|
    ensures Behind(Reread(e).fields) == |PartialMember(e, got, pad)| + (|e.data| - got) + (Padding(|e.data|) - pad)
  {
    HeaderRoundTrip(e);
  }
}
