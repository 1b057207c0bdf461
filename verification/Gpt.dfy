/**
 * The partition table: names converted from UTF-16 to UTF-8, and the place in a sector where
 * each entry is looked for.
 */
module Gpt {
  import opened Bytes
  import Seqs

  // ---- Names ----

  type unit16 = u: int | 0 <= u < 0x10000

  const REPLACEMENT := 0xFFFD

  predicate IsHigh(u: unit16) {
    0xD800 <= u <= 0xDBFF
  }

  predicate IsLow(u: unit16) {
    0xDC00 <= u <= 0xDFFF
  }

  type scalar = c: int | 0 <= c < 0xD800 || 0xE000 <= c < 0x110000 witness 0

  /** One scalar value in UTF-16. */
  function Utf16(c: scalar): (s: seq<unit16>)
    ensures 1 <= |s| <= 2
  {
    if c < 0x10000 then [c] else [0xD800 + (c - 0x10000) / 0x400, 0xDC00 + (c - 0x10000) % 0x400]
  }

  /** One scalar value in UTF-8, section 3 of RFC 3629. */
  function Utf8(c: scalar): (s: seq<byte>)
    ensures 1 <= |s| <= 4
  {
    if c < 0x80 then [c]
    else if c < 0x800 then [0xC0 + c / 0x40, 0x80 + c % 0x40]
    else if c < 0x10000 then [0xE0 + c / 0x1000, 0x80 + c / 0x40 % 0x40, 0x80 + c % 0x40]
    else [0xF0 + c / 0x40000, 0x80 + c / 0x1000 % 0x40, 0x80 + c / 0x40 % 0x40, 0x80 + c % 0x40]
  }

  function Utf16Text(s: seq<scalar>): seq<unit16> {
    if s == [] then [] else Utf16(s[0]) + Utf16Text(s[1..])
  }

  function Utf8Text(s: seq<scalar>): seq<byte> {
    if s == [] then [] else Utf8(s[0]) + Utf8Text(s[1..])
  }

  /**
   * The scalar values a name is read as, up to the first NUL. A high surrogate without its partner
   * becomes a replacement character together with the unit behind it.
   */
  function Scalars(units: seq<unit16>): seq<scalar>
  {
    if units == [] then []
    else if IsHigh(units[0]) then
      if |units| == 1 then [REPLACEMENT]
      else if IsLow(units[1]) then
        [(units[0] - 0xD800) * 0x400 + (units[1] - 0xDC00) + 0x10000] + Scalars(units[2..])
      else [REPLACEMENT] + Scalars(units[2..])
    else if IsLow(units[0]) then [REPLACEMENT] + Scalars(units[1..])
    else if units[0] == 0 then []
    else [units[0]] + Scalars(units[1..])
  }

  /** The name ends in front of a unit that would be read beyond the field. */
  predicate EndsWell(units: seq<unit16>) {
    if units == [] then true
    else if IsHigh(units[0]) then |units| > 1 && EndsWell(units[2..])
    else units[0] == 0 || EndsWell(units[1..])
  }

  /** What the loop body makes of the units at the front: a value and how many units it took. */
  function Front(units: seq<unit16>): (r: (scalar, nat))
    requires units != [] && EndsWell(units)
    ensures 1 <= r.1 <= 2 && r.1 <= |units|
  {
    var w := units[0];
    if IsHigh(w) then
      if IsLow(units[1]) then ((w as int - 0xD800) * 0x400 + (units[1] as int - 0xDC00) + 0x10000, 2) else (REPLACEMENT, 2)
    else if IsLow(w) then (REPLACEMENT, 1)
    else (w, 1)
  }

  lemma FrontStep(units: seq<unit16>)
    requires units != [] && EndsWell(units)
    ensures var (c, n) := Front(units);
      && (c == 0 ==> Scalars(units) == [])
      && (c != 0 ==> Scalars(units) == [c] + Scalars(units[n..]) && EndsWell(units[n..]))
      && |Utf8(c)| <= 3 * n
  {
  }

  /** The units the loop goes through: a high surrogate at the end takes one more from behind the field. */
  function Reached(units: seq<unit16>, behind: unit16): (all: seq<unit16>)
    ensures EndsWell(all)
  {
    OneMoreEndsWell(units, behind);
    if EndsWell(units) then units else units + [behind]
  }

  lemma {:induction false} OneMoreEndsWell(units: seq<unit16>, behind: unit16)
    ensures EndsWell(units) || EndsWell(units + [behind])
  {
    if units != [] && !EndsWell(units) {
      if IsHigh(units[0]) {
        if |units| > 1 {
          OneMoreEndsWell(units[2..], behind);
          assert (units + [behind])[2..] == units[2..] + [behind];
        }
      } else {
        OneMoreEndsWell(units[1..], behind);
        assert (units + [behind])[1..] == units[1..] + [behind];
      }
    }
  }

  /** The loop stands in front of a unit of the field, or has gone through all it reaches. */
  ghost predicate At(units: seq<unit16>, behind: unit16, i: nat) {
    && i <= |Reached(units, behind)| && EndsWell(Reached(units, behind)[i..])
    && (i < |units| ==> (EndsWell(units[i..]) <==> EndsWell(units)))
    && (i >= |units| ==> i == |Reached(units, behind)|)
  }

  lemma AtStart(units: seq<unit16>, behind: unit16)
    ensures At(units, behind, 0) && Reached(units, behind)[0..] == Reached(units, behind)
  {
    assert units[0..] == units;
  }

  lemma AtNext(units: seq<unit16>, behind: unit16, i: nat)
    requires i < |units| && At(units, behind, i)
    ensures var rest := Reached(units, behind)[i..];
      var (c, n) := Front(rest);
      && n == (if IsHigh(units[i]) then 2 else 1) && rest[0] == units[i]
      && (n == 2 ==> rest[1] == if i + 1 < |units| then units[i + 1] else behind)
      && (c != 0 ==> At(units, behind, i + n) && rest[n..] == Reached(units, behind)[i + n..])
      && i + n <= |units| + 1
  {
    var all := Reached(units, behind);
    var n := if IsHigh(units[i]) then 2 else 1;
    assert all[i..][n..] == all[i + n..];
    if i + n < |units| {
      assert units[i..][n..] == units[i + n..];
    } else if i + n == |units| {
      var u: seq<unit16> := units[i..];
      assert if n == 2 then u[2..] == [] else u[1..] == [];
      assert EndsWell(u);
    } else {
      assert units[i..] == [units[i]];
    }
  }

  /**
   * Converts a name; an output buffer of three bytes a unit, and three more, never cuts it short.
   * `behind` is what lies behind the field in memory.
   */
  method Utf16leToUtf8(units: seq<unit16>, behind: unit16, size: nat) returns (out: seq<byte>)
    requires size > 0
    ensures |out| < size
    ensures 3 * (|units| + 1) < size ==> out == Utf8Text(Scalars(Reached(units, behind)))
  {
    hide EndsWell, Front, Scalars, Utf8, Utf8Text, At, Reached;
    out := [];
    var i := 0;
    ghost var all := Reached(units, behind);
    AtStart(units, behind);
    while i < |units|
      invariant 0 <= i <= |units| + 1 && At(units, behind, i)
      invariant |out| < size && |out| <= 3 * i && i <= |all| && EndsWell(all[i..]) && (i >= |units| ==> i == |all|)
      invariant out + Utf8Text(Scalars(all[i..])) == Utf8Text(Scalars(all))
    {
      ghost var rest := all[i..];
      AtNext(units, behind, i);
      FrontStep(rest);
      var codepoint := NextCodepoint(units, behind, i);
      if codepoint == 0 {
        TextEmpty();
        return;
      }
      if |out| + |Utf8(codepoint)| >= size {
        return;
      }
      TextCons(codepoint, Scalars(rest[Front(rest).1..]));
      out := out + Utf8(codepoint);
      i := i + (if IsHigh(units[i]) then 2 else 1);
      AtIs(units, behind, i);
    }
    TextEmpty();
    assert all[i..] == [];
    assert Scalars([]) == [] by { ScalarsEmpty(); }
  }

  lemma AtIs(units: seq<unit16>, behind: unit16, i: nat)
    requires At(units, behind, i)
    ensures i <= |Reached(units, behind)| && EndsWell(Reached(units, behind)[i..])
    ensures i >= |units| ==> i == |Reached(units, behind)|
  {
  }

  method NextCodepoint(units: seq<unit16>, behind: unit16, i: nat) returns (codepoint: scalar)
    requires i < |units| && At(units, behind, i)
    ensures codepoint == Front(Reached(units, behind)[i..]).0
  {
    hide EndsWell, At, Reached;
    AtIs(units, behind, i);
    AtNext(units, behind, i);
    var w := units[i];
    if IsHigh(w) {
      var high: int := w - 0xD800;
      w := if i + 1 < |units| then units[i + 1] else behind;
      if IsLow(w) {
        codepoint := high * 0x400 + (w as int - 0xDC00) + 0x10000;
      } else {
        codepoint := REPLACEMENT;
      }
    } else if IsLow(w) {
      codepoint := REPLACEMENT;
    } else {
      codepoint := w;
    }
  }

  lemma TextEmpty()
    ensures Utf8Text([]) == []
  {
  }

  lemma ScalarsEmpty()
    ensures Scalars([]) == []
  {
  }

  lemma TextCons(c: scalar, rest: seq<scalar>)
    ensures Utf8Text([c] + rest) == Utf8(c) + Utf8Text(rest)
  {
    assert ([c] + rest)[1..] == rest;
  }

  // ---- The names are the standard's ----

  lemma Utf16Reads(c: scalar, rest: seq<unit16>)
    requires c != 0
    ensures Scalars(Utf16(c) + rest) == [c] + Scalars(rest)
  {
    var units := Utf16(c) + rest;
    if c < 0x10000 {
      assert units[1..] == rest;
    } else {
      assert units[2..] == rest;
    }
  }

  /** A well-formed name is read as its scalar values, whatever follows its NUL. */
  lemma {:induction false} NameIsRead(s: seq<scalar>, behind: seq<unit16>)
    requires 0 !in s && (behind == [] || behind[0] == 0)
    ensures Scalars(Utf16Text(s) + behind) == s && EndsWell(Utf16Text(s) + behind)
  {
    if s != [] {
      NameIsRead(s[1..], behind);
      var rest := Utf16Text(s[1..]) + behind;
      assert Utf16Text(s) + behind == Utf16(s[0]) + rest;
      Utf16Reads(s[0], rest);
      EndsWellCons(s[0], rest);
      hide Scalars, EndsWell, Utf16;
      assert s == [s[0]] + s[1..];
    } else {
      assert Utf16Text(s) + behind == behind;
    }
  }

  lemma EndsWellCons(c: scalar, rest: seq<unit16>)
    requires EndsWell(rest)
    ensures EndsWell(Utf16(c) + rest)
  {
    var units := Utf16(c) + rest;
    if c < 0x10000 {
      assert units[1..] == rest;
    } else {
      assert units[2..] == rest;
    }
  }

  /** The 36 units of an entry, with a NUL where the name is shorter, give the UTF-8 form of the name. */
  method PartitionName(s: seq<scalar>, behind: seq<unit16>, after: unit16) returns (name: seq<byte>)
    requires 0 !in s && (behind == [] || behind[0] == 0) && |Utf16Text(s) + behind| == 36
    ensures name == Utf8Text(s)
  {
    hide Scalars, EndsWell, Utf8Text, Utf16Text;
    NameIsRead(s, behind);
    name := Utf16leToUtf8(Utf16Text(s) + behind, after, 144);
  }

  function Tail6(t: seq<byte>, k: nat): int
    requires k < |t|
  {
    t[k] as int - 0x80
  }

  /** The value at the front of a UTF-8 text. */
  function Decode8(t: seq<byte>): (c: int)
    requires t != [] && (t[0] >= 0xC0 ==> |t| > 1) && (t[0] >= 0xE0 ==> |t| > 2) && (t[0] >= 0xF0 ==> |t| > 3)
  {
    var head: int := t[0];
    if head < 0x80 then head
    else if head < 0xC0 then -1
    else if head < 0xE0 then (head - 0xC0) * 0x40 + Tail6(t, 1)
    else if head < 0xF0 then (head - 0xE0) * 0x1000 + Tail6(t, 1) * 0x40 + Tail6(t, 2)
    else (head - 0xF0) * 0x40000 + Tail6(t, 1) * 0x1000 + Tail6(t, 2) * 0x40 + Tail6(t, 3)
  }

  lemma Utf8Front(c: scalar, rest: seq<byte>)
    ensures var t := Utf8(c) + rest;
      t != [] && (t[0] >= 0xC0 ==> |t| > 1) && (t[0] >= 0xE0 ==> |t| > 2) && (t[0] >= 0xF0 ==> |t| > 3) && Decode8(t) == c
  {
    SixBits(c);
  }

  lemma SixBits(c: nat)
    ensures c == c / 0x40 * 0x40 + c % 0x40
    ensures c / 0x40 == c / 0x1000 * 0x40 + c / 0x40 % 0x40
    ensures c / 0x1000 == c / 0x40000 * 0x40 + c / 0x1000 % 0x40
  {
  }

  /** The table of section 3 of RFC 3629: the shortest form, its bytes in their ranges, and the value they spell. */
  lemma Utf8Forms(c: scalar)
    ensures |Utf8(c)| == if c <= 0x7F then 1 else if c <= 0x7FF then 2 else if c <= 0xFFFF then 3 else 4
    ensures c <= 0x7F ==> Utf8(c)[0] == c
    ensures 0x7F < c <= 0x7FF ==> 0xC2 <= Utf8(c)[0] <= 0xDF
    ensures 0x7FF < c <= 0xFFFF ==> 0xE0 <= Utf8(c)[0] <= 0xEF && (Utf8(c)[0] == 0xE0 ==> Utf8(c)[1] >= 0xA0)
    ensures 0xFFFF < c ==> 0xF0 <= Utf8(c)[0] <= 0xF4 && (Utf8(c)[0] == 0xF0 ==> Utf8(c)[1] >= 0x90)
    ensures forall k :: 1 <= k < |Utf8(c)| ==> 0x80 <= Utf8(c)[k] <= 0xBF
  {
    SixBits(c);
  }

  /** What becomes of a high surrogate: the unit behind it is taken with it, also when it is no partner. */
  lemma HighSurrogate(high: unit16, unit: unit16, rest: seq<unit16>)
    requires 0xD800 <= high <= 0xDBFF
    ensures 0xDC00 <= unit <= 0xDFFF ==>
      Scalars([high, unit] + rest) == [0x10000 + 0x400 * (high as int - 0xD800) + (unit as int - 0xDC00)] + Scalars(rest)
    ensures !(0xDC00 <= unit <= 0xDFFF) ==> Scalars([high, unit] + rest) == [0xFFFD] + Scalars(rest)
    ensures Scalars([high]) == [0xFFFD]
  {
    var units := [high, unit] + rest;
    assert units[0] == high && units[1] == unit && units[2..] == rest;
  }

  /** A low one alone is replaced, and a NUL ends the name. */
  lemma LowSurrogate(low: unit16, rest: seq<unit16>)
    requires 0xDC00 <= low <= 0xDFFF
    ensures Scalars([low] + rest) == [0xFFFD] + Scalars(rest) && Scalars([0] + rest) == []
  {
    assert ([low] + rest)[1..] == rest;
  }

  /** Different names stay different. */
  lemma {:induction false} NamesDistinct(a: seq<scalar>, b: seq<scalar>)
    requires Utf8Text(a) == Utf8Text(b)
    ensures a == b
  {
    if a != [] && b != [] {
      Utf8Front(a[0], Utf8Text(a[1..]));
      Utf8Front(b[0], Utf8Text(b[1..]));
      assert Utf8Text(a)[|Utf8(a[0])|..] == Utf8Text(a[1..]);
      assert Utf8Text(b)[|Utf8(b[0])|..] == Utf8Text(b[1..]);
      NamesDistinct(a[1..], b[1..]);
      assert a == [a[0]] + a[1..] && b == [b[0]] + b[1..];
    }
  }

  // ---- Where entries are looked for ----

  /** The sector in the buffer when entry `i` is looked at: the one last begun exactly at an entry. */
  function LoadedSector(i: nat, entry: nat, sector: nat): nat
    requires sector > 0
  {
    if i * entry % sector == 0 then i * entry / sector
    else if i == 0 then 0
    else LoadedSector(i - 1, entry, sector)
  }

  /** The whole entry is where it is looked for. */
  ghost predicate Placed(i: nat, entry: nat, sector: nat)
    requires sector > 0
  {
    LoadedSector(i, entry, sector) == i * entry / sector && i * entry % sector + entry <= sector
  }

  predicate Regular(n: nat, entry: nat, sector: nat) {
    (entry > 0 && sector % entry == 0) || n * entry <= sector
  }

  lemma DivModOf(a: nat, x: nat, sector: nat)
    requires x < sector
    ensures (a * sector + x) / sector == a && (a * sector + x) % sector == x
  {
    var y := a * sector + x;
    DivModUnique(y / sector, y % sector, a, x, sector);
  }

  lemma DivModUnique(a: int, x: int, b: int, y: int, sector: nat)
    requires 0 <= x < sector && 0 <= y < sector && a * sector + x == b * sector + y
    ensures a == b && x == y
  {
    Difference(a, b, sector);
    Difference(b, a, sector);
    if a < b {
      Multiply(b - a, sector);
    } else if a > b {
      Multiply(a - b, sector);
    }
  }

  lemma Difference(a: int, b: int, sector: nat)
    ensures (a - b) * sector == a * sector - b * sector
  {
  }

  lemma Multiply(k: int, sector: nat)
    requires k >= 1
    ensures k * sector >= sector
  {
  }

  lemma LessTimes(i: nat, k: nat, entry: nat)
    requires i < k
    ensures i * entry + entry <= k * entry
  {
    assert k * entry == i * entry + (k - i) * entry;
    Multiply(k - i, entry);
  }

  lemma {:induction false} LoadedFirst(i: nat, entry: nat, sector: nat)
    requires i * entry < sector
    ensures LoadedSector(i, entry, sector) == 0 && i * entry / sector == 0 && i * entry % sector == i * entry
  {
    DivModOf(0, i * entry, sector);
    if i > 0 {
      LessTimes(i - 1, i, entry);
      LoadedFirst(i - 1, entry, sector);
    }
  }

  lemma {:induction false} LoadedInside(a: nat, r: nat, per: nat, entry: nat, sector: nat)
    requires entry > 0 && sector == per * entry && r < per
    ensures LoadedSector(a * per + r, entry, sector) == a && Placed(a * per + r, entry, sector)
  {
    var i := a * per + r;
    LessTimes(r, per, entry);
    Spread(a, per, r, entry);
    DivModOf(a, r * entry, sector);
    if r > 0 {
      LoadedInside(a, r - 1, per, entry, sector);
      Positive(r, entry);
    }
  }

  lemma Positive(r: nat, entry: nat)
    requires r > 0 && entry > 0
    ensures r * entry > 0
  {
  }

  lemma Spread(a: nat, per: nat, r: nat, entry: nat)
    ensures (a * per + r) * entry == a * (per * entry) + r * entry
  {
  }

  /** Every one of `n` entries is found, exactly when entries fill sectors evenly or all lie in the first. */
  lemma AddressedExactly(n: nat, entry: nat, sector: nat)
    requires sector > 0 && entry <= sector
    ensures (forall i :: 0 <= i < n ==> Placed(i, entry, sector)) <==> Regular(n, entry, sector)
  {
    hide LoadedSector, Placed;
    if Regular(n, entry, sector) {
      forall i | 0 <= i < n
        ensures Placed(i, entry, sector)
      {
        RegularPlaced(i, n, entry, sector);
      }
    } else {
      Straddles(n, entry, sector);
    }
  }

  lemma RegularPlaced(i: nat, n: nat, entry: nat, sector: nat)
    requires sector > 0 && entry <= sector && Regular(n, entry, sector) && i < n
    ensures Placed(i, entry, sector)
  {
    hide LoadedSector, Placed;
    if entry > 0 && sector % entry == 0 {
      InsidePlaced(i, entry, sector);
    } else {
      LessTimes(i, n, entry);
      if entry == 0 {
        assert i * entry == 0;
      }
      FirstPlaced(i, entry, sector);
    }
  }

  lemma FirstPlaced(i: nat, entry: nat, sector: nat)
    requires sector > 0 && entry <= sector && i * entry + entry <= sector && (entry == 0 ==> i * entry == 0)
    ensures Placed(i, entry, sector)
  {
    LoadedFirst(i, entry, sector);
  }

  lemma InsidePlaced(i: nat, entry: nat, sector: nat)
    requires 0 < entry <= sector && sector % entry == 0
    ensures Placed(i, entry, sector)
  {
    hide LoadedSector, Placed;
    var per := sector / entry;
    DivModIdentity(sector, entry);
    PerPositive(entry, sector);
    DivModIdentity(i, per);
    LoadedInside(i / per, i % per, per, entry, sector);
  }

  lemma PerPositive(entry: nat, sector: nat)
    requires 0 < entry <= sector
    ensures sector / entry > 0
  {
  }

  lemma DivModIdentity(a: nat, b: nat)
    requires b > 0
    ensures a == a / b * b + a % b
  {
  }

  lemma Straddles(n: nat, entry: nat, sector: nat)
    requires sector > 0 && entry <= sector && !Regular(n, entry, sector)
    ensures entry > 0 && sector / entry < n && !Placed(sector / entry, entry, sector)
  {
    assert entry == 0 ==> n * entry == 0;
    var k := sector / entry;
    DivModIdentity(sector, entry);
    LoadedFirst(k, entry, sector);
    if n <= k {
      if n < k {
        LessTimes(n, k, entry);
      }
    }
  }

  /** One sector, in a cleared buffer. */
  function Buffer(table: seq<byte>, at: nat, sector: nat): (b: seq<byte>)
    requires (at + 1) * sector <= |table| && sector <= 4096
    ensures |b| == 4096
  {
    Sized(at, sector);
    table[at * sector..(at + 1) * sector] + Zeros(4096 - sector)
  }

  lemma Sized(at: nat, sector: nat)
    ensures (at + 1) * sector == at * sector + sector
  {
  }

  /**
   * Reads the entries of a table that begins on a sector boundary, a sector at a time. When the
   * sizes are regular, they are the entries of the table in order.
   */
  method LoadEntries(table: seq<byte>, n: nat, entry: nat, sector: nat) returns (entries: seq<seq<byte>>)
    requires 0 < sector <= 4096 && entry <= sector && (n * entry / sector + 1) * sector <= |table|
    ensures |entries| == n
    ensures Regular(n, entry, sector) ==> forall i :: 0 <= i < n ==> EntryIs(table, i, entry, entries[i])
  {
    hide LoadedSector, Regular, EntryIs, Buffer;
    entries := [];
    FirstSector(n, entry, sector, |table|);
    var buf := Buffer(table, 0, sector);
    ghost var loaded: nat := 0;
    for i := 0 to n
      invariant |entries| == i
      invariant (loaded + 1) * sector <= |table| && buf == Buffer(table, loaded, sector)
      invariant i > 0 ==> loaded == LoadedSector(i - 1, entry, sector)
      invariant Regular(n, entry, sector) ==> forall k :: 0 <= k < i ==> EntryIs(table, k, entry, entries[k])
    {
      var offset := i * entry % sector;
      if offset == 0 {
        SectorExists(i, n, entry, sector, |table|);
        loaded := i * entry / sector;
        buf := Buffer(table, i * entry / sector, sector);
      }
      LoadedNow(i, entry, sector);
      var end := if offset + entry <= 4096 then offset + entry else 4096;
      if Regular(n, entry, sector) {
        RegularPlaced(i, n, entry, sector);
        EntryFound(table, i, entry, sector);
      }
      entries := entries + [buf[offset..end]];
    }
  }

  /** Entry `i` of a table, as its size and position define it. */
  ghost predicate EntryIs(table: seq<byte>, i: nat, entry: nat, bytes: seq<byte>) {
    |bytes| == entry && i * entry + entry <= |table| && bytes == table[i * entry..i * entry + entry]
  }

  lemma FirstSector(n: nat, entry: nat, sector: nat, size: nat)
    requires sector > 0 && (n * entry / sector + 1) * sector <= size
    ensures (0 + 1) * sector <= size
  {
    Sized(n * entry / sector, sector);
  }

  lemma LoadedNow(i: nat, entry: nat, sector: nat)
    requires sector > 0
    ensures i * entry % sector == 0 ==> LoadedSector(i, entry, sector) == i * entry / sector
    ensures i * entry % sector != 0 && i > 0 ==> LoadedSector(i, entry, sector) == LoadedSector(i - 1, entry, sector)
    ensures i == 0 ==> i * entry % sector == 0
  {
    if i == 0 {
      DivModOf(0, 0, sector);
    }
  }

  lemma SectorExists(i: nat, n: nat, entry: nat, sector: nat, size: nat)
    requires i < n && sector > 0 && (n * entry / sector + 1) * sector <= size
    ensures (i * entry / sector + 1) * sector <= size
  {
    LessTimes(i, n, entry);
    DivMonotone(i * entry, n * entry, sector);
    Sized(i * entry / sector, sector);
    Sized(n * entry / sector, sector);
    TimesMonotone(i * entry / sector, n * entry / sector, sector);
  }

  lemma DivMonotone(a: nat, b: nat, sector: nat)
    requires a <= b && sector > 0
    ensures a / sector <= b / sector
  {
    DivModIdentity(a, sector);
    DivModIdentity(b, sector);
    if b / sector < a / sector {
      LessTimes(b / sector, a / sector, sector);
    }
  }

  lemma TimesMonotone(a: nat, b: nat, sector: nat)
    requires a <= b
    ensures a * sector <= b * sector
  {
  }

  lemma EntryFound(table: seq<byte>, i: nat, entry: nat, sector: nat)
    requires 0 < sector <= 4096 && Placed(i, entry, sector)
    requires (LoadedSector(i, entry, sector) + 1) * sector <= |table|
    ensures var offset := i * entry % sector;
      && offset + entry <= 4096
      && EntryIs(table, i, entry, Buffer(table, LoadedSector(i, entry, sector), sector)[offset..offset + entry])
  {
    hide LoadedSector;
    var at, offset := LoadedSector(i, entry, sector), i * entry % sector;
    DivModIdentity(i * entry, sector);
    Sized(at, sector);
    var whole := table[at * sector..(at + 1) * sector];
    Seqs.SliceOfLeft(whole, Zeros(4096 - sector), offset, offset + entry);
    Seqs.SliceOfSlice(table, at * sector, (at + 1) * sector, offset, offset + entry);
  }
}
