/**
 * Cutting one device read into XML documents: several may arrive together, with stray bytes in
 * between, and the last may switch to raw mode and be followed by binary data.
 */
module Fragments {
  import opened Bytes
  import Seqs

  const OPEN: byte := 60
  /** "<?xml" */
  const HEAD: seq<byte> := [60, 63, 120, 109, 108]
  /** "</data>" */
  const TAIL: seq<byte> := [60, 47, 100, 97, 116, 97, 62]

  predicate Occurs(hay: seq<byte>, needle: seq<byte>, i: nat) {
    i + |needle| <= |hay| && hay[i..i + |needle|] == needle
  }

  ghost predicate FirstOccurrence(hay: seq<byte>, needle: seq<byte>, at: Option<nat>) {
    match at
    case Some(i) => Occurs(hay, needle, i) && forall k :: 0 <= k < i ==> !Occurs(hay, needle, k)
    case None => forall k :: 0 <= k <= |hay| ==> !Occurs(hay, needle, k)
  }

  /** Searches memory for a text, which may contain any bytes. */
  method FindInMemory(hay: seq<byte>, needle: seq<byte>) returns (at: Option<nat>)
    requires needle != []
    ensures FirstOccurrence(hay, needle, at)
  {
    if |needle| > |hay| {
      return None;
    }
    var i := 0;
    while i <= |hay| - |needle|
      invariant 0 <= i && forall k :: 0 <= k < i ==> !Occurs(hay, needle, k)
    {
      if hay[i] == needle[0] && hay[i..i + |needle|] == needle {
        return Some(i);
      }
      i := i + 1;
    }
    at := None;
  }

  /** The same search as a function. */
  function Find(hay: seq<byte>, needle: seq<byte>): (at: Option<nat>)
    requires needle != []
    ensures FirstOccurrence(hay, needle, at)
    decreases |hay|
  {
    if |needle| > |hay| then None
    else if hay[..|needle|] == needle then Some(0)
    else
      var rest := Find(hay[1..], needle);
      FindShift(hay, needle, rest);
      if rest == None then None else Some(rest.value + 1)
  }

  lemma FindShift(hay: seq<byte>, needle: seq<byte>, rest: Option<nat>)
    requires needle != [] && |needle| <= |hay| && hay[..|needle|] != needle
    requires FirstOccurrence(hay[1..], needle, rest)
    ensures FirstOccurrence(hay, needle, if rest == None then None else Some(rest.value + 1))
  {
    forall k | 0 < k <= |hay| && Occurs(hay, needle, k)
      ensures Occurs(hay[1..], needle, k - 1)
    {
      Seqs.SliceOfSlice(hay, 1, |hay|, k - 1, k - 1 + |needle|);
      assert hay[1..|hay|] == hay[1..];
    }
    if rest.Some? {
      Seqs.SliceOfSlice(hay, 1, |hay|, rest.value, rest.value + |needle|);
      assert hay[1..|hay|] == hay[1..];
    }
    assert hay[0..|needle|] == hay[..|needle|];
  }

  lemma FindUnique(hay: seq<byte>, needle: seq<byte>, a: Option<nat>, b: Option<nat>)
    requires needle != [] && FirstOccurrence(hay, needle, a) && FirstOccurrence(hay, needle, b)
    ensures a == b
  {
    if a.Some? {
      assert Occurs(hay, needle, a.value);
    }
    if b.Some? {
      assert Occurs(hay, needle, b.value);
    }
  }

  // ---- Cutting a read ----

  function SkipToOpen(b: seq<byte>): (s: seq<byte>)
    ensures |s| <= |b| && (s != [] ==> s[0] == OPEN)
  {
    if b == [] || b[0] == OPEN then b else SkipToOpen(b[1..])
  }

  /** Where the next document begins, behind the first byte. */
  function NextHead(b: seq<byte>): (next: Option<nat>)
    ensures next.Some? ==> 0 < next.value < |b|
  {
    if |b| <= 5 then None
    else
      match Find(b[1..], HEAD)
      case Some(i) => Some(i + 1)
      case None => None
  }

  /** The length of the document at the front: up to its closing tag, or all of the fragment. */
  function DocumentLength(b: seq<byte>, next: Option<nat>): (n: nat)
    requires next.Some? ==> next.value <= |b|
    ensures n <= |b|
  {
    var fragment := if next.Some? then b[..next.value] else b;
    match Find(fragment, TAIL)
    case Some(i) => i + |TAIL|
    case None => |fragment|
  }

  /** What a read is taken for: its documents up to the one that enters raw mode, and the bytes kept after that. */
  datatype Cut = Cut(documents: seq<seq<byte>>, kept: seq<byte>)

  function Pieces(buf: seq<byte>, raw: seq<byte> -> bool): Cut
    decreases |buf|
  {
    var b := SkipToOpen(buf);
    if b == [] then Cut([], [])
    else
      var next := NextHead(b);
      var n := DocumentLength(b, next);
      if raw(b[..n]) then Cut([b[..n]], b[n..])
      else if next == None then Cut([b[..n]], [])
      else
        var rest := Pieces(b[next.value..], raw);
        Cut([b[..n]] + rest.documents, rest.kept)
  }

  /** The loop over one read; `kept` is what goes to the remainder buffer. */
  method CutRead(buf: seq<byte>, raw: seq<byte> -> bool) returns (documents: seq<seq<byte>>, kept: seq<byte>)
    ensures Cut(documents, kept) == Pieces(buf, raw)
  {
    hide Pieces, NextHead, DocumentLength, SkipToOpen;
    documents, kept := [], [];
    var frag := buf;
    while true
      invariant Pieces(buf, raw) == Cut(documents + Pieces(frag, raw).documents, Pieces(frag, raw).kept)
      decreases |frag|
    {
      PiecesStep(frag, raw);
      var b := Skip(frag);
      if b == [] {
        break;
      }
      var next := FindNext(b);
      var end := FindInMemory(if next.Some? then b[..next.value] else b, TAIL);
      var n := if end.Some? then end.value + |TAIL| else if next.Some? then next.value else |b|;
      LengthIs(b, next, end);
      documents := documents + [b[..n]];
      if raw(b[..n]) {
        kept := b[n..];
        break;
      }
      if next == None {
        break;
      }
      frag := b[next.value..];
    }
  }

  method Skip(frag: seq<byte>) returns (b: seq<byte>)
    ensures b == SkipToOpen(frag)
  {
    b := frag;
    while b != [] && b[0] != OPEN
      invariant SkipToOpen(b) == SkipToOpen(frag)
    {
      b := b[1..];
    }
  }

  method FindNext(b: seq<byte>) returns (next: Option<nat>)
    ensures next == NextHead(b)
  {
    hide FirstOccurrence;
    next := None;
    if |b| > 5 {
      var i := FindInMemory(b[1..], HEAD);
      FindUnique(b[1..], HEAD, i, Find(b[1..], HEAD));
      next := if i.Some? then Some(i.value + 1) else None;
    }
  }

  lemma LengthIs(b: seq<byte>, next: Option<nat>, end: Option<nat>)
    requires next.Some? ==> next.value <= |b|
    requires FirstOccurrence(if next.Some? then b[..next.value] else b, TAIL, end)
    ensures DocumentLength(b, next) == if end.Some? then end.value + |TAIL| else if next.Some? then next.value else |b|
  {
    var fragment := if next.Some? then b[..next.value] else b;
    FindUnique(fragment, TAIL, end, Find(fragment, TAIL));
  }

  lemma PiecesStep(buf: seq<byte>, raw: seq<byte> -> bool)
    ensures var b := SkipToOpen(buf);
      if b == [] then Pieces(buf, raw) == Cut([], [])
      else
        var next := NextHead(b);
        var n := DocumentLength(b, next);
        if raw(b[..n]) then Pieces(buf, raw) == Cut([b[..n]], b[n..])
        else if next == None then Pieces(buf, raw) == Cut([b[..n]], [])
        else
          Pieces(buf, raw) == Cut([b[..n]] + Pieces(b[next.value..], raw).documents, Pieces(b[next.value..], raw).kept)
  {
    hide NextHead, DocumentLength, SkipToOpen;
  }

  // ---- What the device sent ----

  /** A complete document: one head, and the closing tag only at its end. */
  ghost predicate IsDocument(d: seq<byte>) {
    && |d| >= |HEAD| + |TAIL| && d[..|HEAD|] == HEAD
    && FirstOccurrence(d, TAIL, Some(|d| - |TAIL|))
    && forall i :: 1 <= i <= |d| ==> !Occurs(d, HEAD, i)
  }

  /** Stray bytes that cannot be taken for markup. */
  ghost predicate IsJunk(j: seq<byte>) {
    forall i :: 0 <= i < |j| ==> j[i] != OPEN
  }

  lemma {:induction false} JunkSkipped(j: seq<byte>, s: seq<byte>)
    requires IsJunk(j) && (s == [] || s[0] == OPEN)
    ensures SkipToOpen(j + s) == s
  {
    if j != [] {
      JunkSkipped(j[1..], s);
      assert (j + s)[1..] == j[1..] + s;
    } else {
      assert j + s == s;
    }
  }

  /** A head behind the first byte of a document begins after the document. */
  lemma NoHeadInside(d: seq<byte>, rest: seq<byte>, i: nat)
    requires IsDocument(d) && 1 <= i < |d|
    ensures !Occurs(d + rest, HEAD, i)
  {
    var all := d + rest;
    if i + |HEAD| <= |d| {
      Seqs.SliceOfLeft(d, rest, i, i + |HEAD|);
      assert !Occurs(d, HEAD, i);
    } else if i + |HEAD| <= |all| {
      assert Occurs(d, TAIL, |d| - |TAIL|);
      assert d[|d| - |TAIL|..][i - (|d| - |TAIL|)] == d[i] == all[i];
      assert all[i..i + |HEAD|][0] == all[i];
    }
  }

  lemma NoHeadInJunk(d: seq<byte>, j: seq<byte>, rest: seq<byte>, i: nat)
    requires IsJunk(j) && |d| <= i < |d| + |j|
    ensures !Occurs(d + j + rest, HEAD, i)
  {
    var all := d + j + rest;
    if i + |HEAD| <= |all| {
      assert all[i..i + |HEAD|][0] == all[i] == j[i - |d|];
    }
  }

  lemma HeadShift(b: seq<byte>, at: Option<nat>)
    requires |b| > 5
    requires match at
      case Some(i) => i > 0 && Occurs(b, HEAD, i) && forall k :: 1 <= k < i ==> !Occurs(b, HEAD, k)
      case None => forall k :: 1 <= k <= |b| ==> !Occurs(b, HEAD, k)
    ensures NextHead(b) == at
  {
    var s := b[1..];
    forall k | 0 <= k < |b|
      ensures Occurs(s, HEAD, k) <==> Occurs(b, HEAD, k + 1)
    {
      if k + |HEAD| <= |s| {
        Seqs.SliceOfSlice(b, 1, |b|, k, k + |HEAD|);
        assert b[1..|b|] == s;
      }
    }
    var shifted := if at.Some? then Some(at.value - 1) else None;
    hide Occurs;
    assert FirstOccurrence(s, HEAD, shifted);
    FindUnique(s, HEAD, shifted, Find(s, HEAD));
  }

  /** The next document is found behind the stray bytes, or there is none. */
  lemma NextFound(d: seq<byte>, j: seq<byte>, rest: seq<byte>)
    requires IsDocument(d) && IsJunk(j) && (rest == [] || (|rest| >= |HEAD| && rest[..|HEAD|] == HEAD))
    ensures NextHead(d + j + rest) == if rest == [] then None else Some(|d| + |j|)
  {
    var b := d + j + rest;
    assert b == d + (j + rest);
    forall i | 1 <= i < |d| + |j|
      ensures !Occurs(b, HEAD, i)
    {
      if i < |d| {
        NoHeadInside(d, j + rest, i);
      } else {
        NoHeadInJunk(d, j, rest, i);
      }
    }
    if rest != [] {
      Seqs.SliceOfRight(d + j, rest, |d + j|, |d + j| + |HEAD|);
      assert rest[0..|HEAD|] == rest[..|HEAD|];
    }
    HeadShift(b, if rest == [] then None else Some(|d| + |j|));
  }

  lemma NextBehind(d: seq<byte>, rest: seq<byte>)
    requires IsDocument(d)
    ensures NextHead(d + rest) == None || NextHead(d + rest).value >= |d|
  {
    var b := d + rest;
    var next := NextHead(b);
    if next.Some? && next.value < |d| {
      NoHeadInside(d, rest, next.value);
      HeadIsThere(b);
      assert false;
    }
  }

  lemma HeadIsThere(b: seq<byte>)
    requires NextHead(b).Some?
    ensures Occurs(b, HEAD, NextHead(b).value)
  {
    var i := NextHead(b).value;
    Seqs.SliceOfSlice(b, 1, |b|, i - 1, i - 1 + |HEAD|);
    assert b[1..|b|] == b[1..];
  }

  /** The closing tag found is the document's own. */
  lemma LengthFound(d: seq<byte>, rest: seq<byte>, next: Option<nat>)
    requires IsDocument(d) && (next.Some? ==> |d| <= next.value <= |d + rest|)
    ensures DocumentLength(d + rest, next) == |d|
  {
    var b := d + rest;
    var fragment := if next.Some? then b[..next.value] else b;
    var e := |d| - |TAIL|;
    forall i | 0 <= i <= e
      ensures Occurs(fragment, TAIL, i) <==> Occurs(d, TAIL, i)
    {
      assert fragment[i..i + |TAIL|] == d[i..i + |TAIL|];
    }
    FindUnique(fragment, TAIL, Some(e), Find(fragment, TAIL));
  }

  datatype Part = Part(junk: seq<byte>, document: seq<byte>)

  ghost predicate IsPart(p: Part) {
    IsJunk(p.junk) && IsDocument(p.document)
  }

  function Layout(parts: seq<Part>): seq<byte> {
    if parts == [] then [] else parts[0].junk + parts[0].document + Layout(parts[1..])
  }

  function Documents(parts: seq<Part>): seq<seq<byte>> {
    if parts == [] then [] else [parts[0].document] + Documents(parts[1..])
  }

  lemma OneRaw(p: Part, rest: seq<byte>, raw: seq<byte> -> bool)
    requires IsPart(p) && raw(p.document)
    ensures Pieces(p.junk + p.document + rest, raw) == Cut([p.document], rest)
  {
    hide IsDocument, IsJunk, DocumentLength, NextHead;
    var b := p.document + rest;
    StartsOpen(p.document);
    JunkSkipped(p.junk, b);
    assert p.junk + p.document + rest == p.junk + b;
    NextBehind(p.document, rest);
    LengthFound(p.document, rest, NextHead(b));
    PiecesStep(p.junk + b, raw);
    assert b[..|p.document|] == p.document && b[|p.document|..] == rest;
  }

  lemma StartsOpen(d: seq<byte>)
    requires IsDocument(d)
    ensures d != [] && d[0] == OPEN
  {
    assert d[..|HEAD|][0] == d[0];
  }

  lemma PlainFront(d: seq<byte>, j: seq<byte>, rest: seq<byte>, raw: seq<byte> -> bool)
    requires IsDocument(d) && !raw(d) && IsJunk(j)
    requires rest == [] || (|rest| >= |HEAD| && rest[..|HEAD|] == HEAD)
    ensures Pieces(d + j + rest, raw)
      == if rest == [] then Cut([d], []) else Cut([d] + Pieces(rest, raw).documents, Pieces(rest, raw).kept)
  {
    hide IsDocument, IsJunk, DocumentLength, NextHead, SkipToOpen, Pieces;
    var b := d + j + rest;
    assert b == d + (j + rest);
    StartsWithHead(d, j + rest);
    AlreadyOpen(b);
    NextFound(d, j, rest);
    LengthFound(d, j + rest, NextHead(b));
    PiecesStep(b, raw);
    assert b[..|d|] == d;
    assert b[|d + j|..] == rest;
  }

  lemma AlreadyOpen(b: seq<byte>)
    requires b != [] && b[0] == OPEN
    ensures SkipToOpen(b) == b
  {
  }

  lemma OnePlain(p: Part, j: seq<byte>, rest: seq<byte>, raw: seq<byte> -> bool)
    requires IsPart(p) && !raw(p.document) && IsJunk(j)
    requires rest == [] || (|rest| >= |HEAD| && rest[..|HEAD|] == HEAD)
    ensures Pieces(p.junk + (p.document + j + rest), raw)
      == if rest == [] then Cut([p.document], []) else Cut([p.document] + Pieces(rest, raw).documents, Pieces(rest, raw).kept)
  {
    hide IsDocument, IsJunk, Pieces;
    assert p.document + j + rest == p.document + (j + rest);
    StartsWithHead(p.document, j + rest);
    SameSkipped(p.junk, p.document + j + rest, raw);
    PlainFront(p.document, j, rest, raw);
  }

  /**
   * A read made of documents with stray bytes between them is cut into exactly those documents. If
   * the last one enters raw mode, everything behind it is kept, whatever bytes it holds.
   */
  lemma {:induction false} CutIsExact(parts: seq<Part>, tail: seq<byte>, raw: seq<byte> -> bool)
    requires parts != [] && forall i :: 0 <= i < |parts| ==> IsPart(parts[i])
    requires forall i :: 0 <= i < |parts| - 1 ==> !raw(parts[i].document)
    requires raw(parts[|parts| - 1].document) || IsJunk(tail)
    ensures Pieces(Layout(parts) + tail, raw)
      == Cut(Documents(parts), if raw(parts[|parts| - 1].document) then tail else [])
  {
    hide IsDocument, IsJunk, Pieces, Layout;
    var p := parts[0];
    if |parts| == 1 {
      LayoutOne(parts, tail);
      assert Documents(parts[1..]) == [];
      if raw(p.document) {
        OneRaw(p, tail, raw);
      } else {
        OnePlain(p, tail, [], raw);
      }
    } else {
      var more, q := parts[1..], parts[1];
      CutIsExact(more, tail, raw);
      LayoutTwo(parts, tail);
      var rest := q.document + (Layout(more[1..]) + tail);
      StartsWithHead(q.document, Layout(more[1..]) + tail);
      OnePlain(p, q.junk, rest, raw);
      SameSkipped(q.junk, rest, raw);
    }
  }

  lemma LayoutOne(parts: seq<Part>, tail: seq<byte>)
    requires |parts| == 1
    ensures Layout(parts) + tail == parts[0].junk + parts[0].document + tail
    ensures Layout(parts) + tail == parts[0].junk + (parts[0].document + tail + [])
  {
    assert Layout(parts[1..]) == [];
    Regroup(parts[0].junk, parts[0].document, [], tail);
  }

  lemma Regroup(a: seq<byte>, b: seq<byte>, c: seq<byte>, d: seq<byte>)
    ensures a + b + c + d == a + (b + (c + d)) && b + d + [] == b + d && a + b + d == a + (b + d)
  {
  }

  lemma LayoutTwo(parts: seq<Part>, tail: seq<byte>)
    requires |parts| >= 2
    ensures var more, q := parts[1..], parts[1];
      var rest := q.document + (Layout(more[1..]) + tail);
      && Layout(more) + tail == q.junk + rest
      && Layout(parts) + tail == parts[0].junk + (parts[0].document + q.junk + rest)
  {
    var more, p, q := parts[1..], parts[0], parts[1];
    Regroup(q.junk, q.document, Layout(more[1..]), tail);
    Regroup(p.junk, p.document, Layout(more), tail);
    Regroup3(p.document, q.junk, q.document + (Layout(more[1..]) + tail));
  }

  lemma Regroup3(a: seq<byte>, b: seq<byte>, c: seq<byte>)
    ensures a + b + c == a + (b + c)
  {
  }

  lemma StartsWithHead(d: seq<byte>, rest: seq<byte>)
    requires IsDocument(d)
    ensures |d + rest| >= |HEAD| && (d + rest)[..|HEAD|] == HEAD
    ensures (d + rest)[0] == OPEN
  {
    StartsOpen(d);
    assert (d + rest)[..|HEAD|] == d[..|HEAD|];
  }

  lemma SameSkipped(j: seq<byte>, s: seq<byte>, raw: seq<byte> -> bool)
    requires IsJunk(j) && s != [] && s[0] == OPEN
    ensures Pieces(j + s, raw) == Pieces(s, raw)
  {
    hide IsJunk, NextHead, DocumentLength;
    JunkSkipped(j, s);
  }
}
