/** The MESH1 parser's checks, and the round trip: what the encoder wrote is what the parser reads. */
module Mesh1Parser {
  import opened Wrappers
  import opened Mesh1
  import opened Mesh1Codec

  datatype ParseError =
    | Truncated | BadMagic | UnsupportedVersion | Misaligned | SectionOverlap | SectionBounds
    | MissingSection | BadLength | ReservedNonzero | DuplicateSection

  // ── The parser ─────────────────────────────────────────────────────────────

  function U32(blob: Bytes, at: nat): Word
    requires at + 4 <= |blob|
  {
    FromLe32(blob[at..at + 4])
  }

  function U16(blob: Bytes, at: nat): (r: nat)
    requires at + 2 <= |blob|
    ensures r < 0x1_0000
  {
    var lo: nat, hi: nat := blob[at], blob[at + 1];
    lo + 0x100 * hi
  }

  datatype Header = Header(
    flags: nat, vertices: nat, triangles: nat, faces: nat, edges: nat, edgePoints: nat, lod: nat, sections: nat,
      bbox: seq<Word>)

  function TableEndOf(h: Header): nat {
    HEADER_BYTES + TABLE_ENTRY_BYTES * h.sections
  }

  function ParseHeader(blob: Bytes): (r: Result<Header, ParseError>)
    ensures r.Ok? ==> TableEndOf(r.value) <= |blob|
  {
    if |blob| < HEADER_BYTES then Err(Truncated)
    else if U32(blob, 0x00) != MAGIC then Err(BadMagic)
    else if U16(blob, 0x04) != 1 then Err(UnsupportedVersion)
    else if U16(blob, 0x06) / 16 != 0 then Err(ReservedNonzero)
    else if U32(blob, 0x38) != 0 || U32(blob, 0x3c) != 0 then Err(ReservedNonzero)
    else
      var h := Header(
        U16(blob, 0x06), U32(blob, 0x08), U32(blob, 0x0c), U32(blob, 0x10), U32(blob, 0x14), U32(blob, 0x18),
        U16(blob, 0x1c), U16(blob, 0x1e),
        [U32(blob, 0x20), U32(blob, 0x24), U32(blob, 0x28), U32(blob, 0x2c), U32(blob, 0x30), U32(blob, 0x34)]);
      if TableEndOf(h) > |blob| then Err(Truncated) else Ok(h)
  }

  /** The first `i` table entries: each section's bytes by type, and where the last one ends. */
  datatype Table = Table(byType: map<nat, Bytes>, end: nat)

  function AddEntry(
    blob: Bytes, t: Table, ty: Word, pad: Word, offset: Word, byteLen: Word): Result<Table, ParseError> {
    if pad != 0 then Err(ReservedNonzero)
    else if offset % 4 != 0 then Err(Misaligned)
    else if offset < t.end then Err(SectionOverlap)
    else if offset + byteLen > |blob| then Err(SectionBounds)
    else if ty in t.byType then Err(DuplicateSection)
    else Ok(Table(t.byType[ty := blob[offset..offset + byteLen]], offset + byteLen))
  }

  function ParseTable(blob: Bytes, tableEnd: nat, i: nat): Result<Table, ParseError>
    requires HEADER_BYTES + TABLE_ENTRY_BYTES * i <= |blob|
  {
    if i == 0 then Ok(Table(map[], tableEnd))
    else
      var t :- ParseTable(blob, tableEnd, i - 1);
      var at := HEADER_BYTES + TABLE_ENTRY_BYTES * (i - 1);
      AddEntry(blob, t, U32(blob, at), U32(blob, at + 4), U32(blob, at + 8), U32(blob, at + 12))
  }

  function Require(byType: map<nat, Bytes>, ty: nat): Result<Bytes, ParseError> {
    if ty in byType then Ok(byType[ty]) else Err(MissingSection)
  }

  function WordView(byType: map<nat, Bytes>, ty: nat, n: nat): (r: Result<seq<Word>, ParseError>)
    ensures r.Ok? ==> |r.value| == n
  {
    var bytes :- Require(byType, ty);
    if |bytes| != 4 * n then Err(BadLength) else Ok(ReadWords(bytes))
  }

  /** The views over one kind of group. */
  datatype GroupView = GroupView(flat: seq<Word>, ranges: seq<Word>, offs: seq<Word>, chars: Bytes)

  function CharView(byType: map<nat, Bytes>, ty: nat, length: nat): Result<Bytes, ParseError> {
    var bytes :- Require(byType, ty);
    if |bytes| != length then Err(BadLength) else Ok(bytes)
  }

  function FaceView(byType: map<nat, Bytes>, h: Header): Result<GroupView, ParseError> {
    var indices :- WordView(byType, 3, 3 * h.triangles);
    var ranges :- WordView(byType, 4, 2 * h.faces);
    var offs :- WordView(byType, 5, h.faces + 1);
    var chars :- CharView(byType, 6, offs[h.faces]);
    Ok(GroupView(indices, ranges, offs, chars))
  }

  function EdgeView(byType: map<nat, Bytes>, h: Header): Result<GroupView, ParseError> {
    var ranges :- WordView(byType, 7, 2 * h.edges);
    var points :- WordView(byType, 8, 3 * h.edgePoints);
    var offs :- WordView(byType, 9, h.edges + 1);
    var chars :- CharView(byType, 10, offs[h.edges]);
    Ok(GroupView(points, ranges, offs, chars))
  }

  datatype View = View(
    header: Header, positions: seq<Word>, normals: Option<seq<Word>>, faces: GroupView, edges: Option<GroupView>,
    faceBboxes: Option<seq<Word>>)

  function When<T>(c: bool, r: Result<T, ParseError>): Result<Option<T>, ParseError> {
    if !c then Ok(None)
    else
      var x :- r;
      Ok(Some(x))
  }

  function ParseSections(byType: map<nat, Bytes>, h: Header): Result<View, ParseError> {
    var positions :- WordView(byType, 1, 3 * h.vertices);
    var faces :- FaceView(byType, h);
    var normals :- When(h.flags % 2 == 1, WordView(byType, 2, 3 * h.vertices));
    var edges :- When(h.flags / 2 % 2 == 1, EdgeView(byType, h));
    var boxes :- When(h.flags / 4 % 2 == 1, WordView(byType, 11, 6 * h.faces));
    Ok(View(h, positions, normals, faces, edges, boxes))
  }

  function Parse(blob: Bytes): Result<View, ParseError> {
    var h :- ParseHeader(blob);
    var t :- ParseTable(blob, TableEndOf(h), h.sections);
    ParseSections(t.byType, h)
  }

  // ── What is accepted ───────────────────────────────────────────────────────

  function Entries(blob: Bytes): nat
    requires |blob| >= 64
  {
    var lo: nat, hi: nat := blob[30], blob[31];
    lo + 0x100 * hi
  }

  /** The bytes `HSEM`, version 1, flags below 16, a zero tail, and room for the table. */
  ghost predicate HeaderGood(blob: Bytes) {
    && |blob| >= 64
    && blob[..4] == [0x48, 0x53, 0x45, 0x4d]
    && blob[4] == 1 && blob[5] == 0
    && blob[6] < 16 && blob[7] == 0
    && (forall k :: 56 <= k < 64 ==> blob[k] == 0)
    && 64 + 16 * Entries(blob) <= |blob|
  }

  lemma ZeroWord(blob: Bytes, at: nat)
    requires at + 4 <= |blob|
    ensures U32(blob, at) == 0 <==> forall k :: at <= k < at + 4 ==> blob[k] == 0
  {
    assert blob[at..at + 4] == [blob[at], blob[at + 1], blob[at + 2], blob[at + 3]];
  }

  lemma MagicWord(blob: Bytes)
    requires |blob| >= 4
    ensures U32(blob, 0) == 0x4d45_5348 <==> blob[..4] == [0x48, 0x53, 0x45, 0x4d]
  {
    var b := blob[0..4];
    assert b == blob[..4] && b == [b[0], b[1], b[2], b[3]];
    assert 0x4d45_5348 == 0x48 + 0x100 * 0x53 + 0x1_0000 * 0x45 + 0x100_0000 * 0x4d;
    Digits(U32(blob, 0), b[0], b[1], b[2], b[3]);
    Digits(0x4d45_5348, 0x48, 0x53, 0x45, 0x4d);
  }

  /** A header is accepted exactly if it is good, and each refusal tells the first thing that is wrong. */
  lemma HeaderExactly(blob: Bytes)
    ensures ParseHeader(blob).Ok? <==> HeaderGood(blob)
    ensures |blob| < 64 ==> ParseHeader(blob) == Err(Truncated)
    ensures |blob| >= 64 ==>
      var r := ParseHeader(blob);
      && (r == Err(BadMagic) <==> blob[..4] != [0x48, 0x53, 0x45, 0x4d])
      && (r == Err(UnsupportedVersion) <==>
            blob[..4] == [0x48, 0x53, 0x45, 0x4d] && !(blob[4] == 1 && blob[5] == 0))
      && (r == Err(Truncated) ==> 64 + 16 * Entries(blob) > |blob|)
      && (r.Err? ==> r.error in {BadMagic, UnsupportedVersion, ReservedNonzero, Truncated})
  {
    hide U32;
    if |blob| >= 64 {
      MagicWord(blob);
      ZeroWord(blob, 56);
      ZeroWord(blob, 60);
    }
  }

  /** Word `j` of the table's entry `i`: its type, its padding, where its section lies and how long it is. */
  function Entry(blob: Bytes, i: nat, j: nat): Word
    requires j < 4 && 64 + 16 * (i + 1) <= |blob|
  {
    U32(blob, 64 + 16 * i + 4 * j)
  }

  ghost predicate EntryGood(blob: Bytes, tableEnd: nat, i: nat)
    requires 64 + 16 * (i + 1) <= |blob|
  {
    && Entry(blob, i, 1) == 0 && Entry(blob, i, 2) % 4 == 0
    && tableEnd <= Entry(blob, i, 2) && Entry(blob, i, 2) + Entry(blob, i, 3) <= |blob|
  }

  /** Every section is aligned, after the table and inside the blob; sections ascend, and no type occurs twice. */
  ghost predicate TableGood(blob: Bytes, tableEnd: nat, n: nat)
    requires 64 + 16 * n <= |blob|
  {
    && (forall i: nat :: i < n ==> EntryGood(blob, tableEnd, i))
    && (forall i: nat, j: nat :: i < j < n ==>
          && Entry(blob, i, 2) + Entry(blob, i, 3) <= Entry(blob, j, 2)
          && Entry(blob, i, 0) != Entry(blob, j, 0))
  }

  /** The views are the slices the entries name, and nothing else is viewed. */
  ghost predicate ViewsGood(blob: Bytes, byType: map<nat, Bytes>, n: nat)
    requires 64 + 16 * n <= |blob|
  {
    && (forall i: nat :: i < n ==>
          && Entry(blob, i, 0) in byType && Entry(blob, i, 2) + Entry(blob, i, 3) <= |blob|
          && byType[Entry(blob, i, 0)] == blob[Entry(blob, i, 2)..Entry(blob, i, 2) + Entry(blob, i, 3)])
    && (forall ty :: ty in byType ==> exists i: nat :: i < n && Entry(blob, i, 0) == ty)
  }

  /** A table is accepted exactly if it is good, and its sections are then viewed under their types. */
  lemma {:induction false} TableExactly(blob: Bytes, tableEnd: nat, n: nat)
    requires 64 + 16 * n <= |blob|
    ensures ParseTable(blob, tableEnd, n).Ok? <==> TableGood(blob, tableEnd, n)
    ensures ParseTable(blob, tableEnd, n).Ok? ==>
      var t := ParseTable(blob, tableEnd, n).value;
      && ViewsGood(blob, t.byType, n)
      && t.end == if n == 0 then tableEnd else Entry(blob, n - 1, 2) + Entry(blob, n - 1, 3)
  {
    hide ParseTable, TableGood, ViewsGood, Added, Entry;
    if n == 0 {
      EmptyTable(blob, tableEnd);
    } else {
      TableExactly(blob, tableEnd, n - 1);
      TableStep(blob, tableEnd, n);
      TableShrinks(blob, tableEnd, n);
      if ParseTable(blob, tableEnd, n - 1).Ok? {
        var t := ParseTable(blob, tableEnd, n - 1).value;
        OneMore(blob, tableEnd, t, n - 1);
      }
    }
  }

  lemma EmptyTable(blob: Bytes, tableEnd: nat)
    requires |blob| >= 64
    ensures ParseTable(blob, tableEnd, 0) == Ok(Table(map[], tableEnd))
    ensures TableGood(blob, tableEnd, 0) && ViewsGood(blob, map[], 0)
  {
  }

  lemma TableShrinks(blob: Bytes, tableEnd: nat, n: nat)
    requires n > 0 && 64 + 16 * n <= |blob|
    ensures TableGood(blob, tableEnd, n) ==> TableGood(blob, tableEnd, n - 1)
  {
  }

  lemma TableStep(blob: Bytes, tableEnd: nat, n: nat)
    requires n > 0 && 64 + 16 * n <= |blob|
    ensures ParseTable(blob, tableEnd, n - 1).Err? ==> ParseTable(blob, tableEnd, n).Err?
    ensures ParseTable(blob, tableEnd, n - 1).Ok? ==> ParseTable(blob, tableEnd, n) == Added(
        blob, ParseTable(blob, tableEnd, n - 1).value, n - 1)
  {
  }

  function Added(blob: Bytes, t: Table, i: nat): Result<Table, ParseError>
    requires 64 + 16 * (i + 1) <= |blob|
  {
    AddEntry(blob, t, Entry(blob, i, 0), Entry(blob, i, 1), Entry(blob, i, 2), Entry(blob, i, 3))
  }

  /** One entry is taken exactly if it is sound, lies after what came before, and its type is new. */
  lemma AddedExactly(blob: Bytes, t: Table, i: nat)
    requires 64 + 16 * (i + 1) <= |blob|
    ensures var at, end := Entry(blob, i, 2), Entry(blob, i, 2) + Entry(blob, i, 3);
      var good := Entry(blob, i, 1) == 0 && at % 4 == 0 && t.end <= at && end <= |blob|
        && Entry(blob, i, 0) !in t.byType;
      && (Added(blob, t, i).Ok? <==> good)
      && (good ==> Added(blob, t, i) == Ok(Table(t.byType[Entry(blob, i, 0) := blob[at..end]], end)))
  {
    hide Entry;
  }

  lemma EndsBefore(blob: Bytes, tableEnd: nat, end: nat, n: nat)
    requires 64 + 16 * n <= |blob| && TableGood(blob, tableEnd, n)
    requires end == if n == 0 then tableEnd else Entry(blob, n - 1, 2) + Entry(blob, n - 1, 3)
    ensures tableEnd <= end && forall i: nat :: i < n ==> Entry(blob, i, 2) + Entry(blob, i, 3) <= end
  {
    hide Entry;
    forall i: nat | i < n
      ensures Entry(blob, i, 2) + Entry(blob, i, 3) <= end
    {
      assert i < n - 1 ==> Entry(blob, i, 2) + Entry(blob, i, 3) <= Entry(blob, n - 1, 2);
    }
    if n > 0 {
      assert EntryGood(blob, tableEnd, n - 1);
    }
  }

  lemma OneMore(blob: Bytes, tableEnd: nat, t: Table, n: nat)
    requires 64 + 16 * (n + 1) <= |blob|
    requires TableGood(blob, tableEnd, n) && ViewsGood(blob, t.byType, n)
    requires t.end == if n == 0 then tableEnd else Entry(blob, n - 1, 2) + Entry(blob, n - 1, 3)
    ensures Added(blob, t, n).Ok? <==> TableGood(blob, tableEnd, n + 1)
    ensures Added(blob, t, n).Ok? ==> ViewsGood(blob, Added(blob, t, n).value.byType, n + 1)
    ensures Added(blob, t, n).Ok? ==> Added(blob, t, n).value.end == Entry(blob, n, 2) + Entry(blob, n, 3)
  {
    hide Entry, Added, EntryGood;
    EndsBefore(blob, tableEnd, t.end, n);
    AddedExactly(blob, t, n);
    if Added(blob, t, n).Ok? {
      TableMore(blob, tableEnd, t, n);
      ViewsMore(blob, t.byType, n);
    } else if TableGood(blob, tableEnd, n + 1) {
      TableLess(blob, tableEnd, t, n);
    }
  }

  lemma TableMore(blob: Bytes, tableEnd: nat, t: Table, n: nat)
    requires 64 + 16 * (n + 1) <= |blob|
    requires TableGood(blob, tableEnd, n) && ViewsGood(blob, t.byType, n)
    requires tableEnd <= t.end && forall i: nat :: i < n ==> Entry(blob, i, 2) + Entry(blob, i, 3) <= t.end
    requires Entry(blob, n, 1) == 0 && Entry(blob, n, 2) % 4 == 0 && t.end <= Entry(blob, n, 2)
    requires Entry(blob, n, 2) + Entry(blob, n, 3) <= |blob| && Entry(blob, n, 0) !in t.byType
    ensures TableGood(blob, tableEnd, n + 1)
  {
    hide Entry;
    assert EntryGood(blob, tableEnd, n);
  }

  lemma TableLess(blob: Bytes, tableEnd: nat, t: Table, n: nat)
    requires 64 + 16 * (n + 1) <= |blob|
    requires TableGood(blob, tableEnd, n + 1) && ViewsGood(blob, t.byType, n)
    requires t.end == if n == 0 then tableEnd else Entry(blob, n - 1, 2) + Entry(blob, n - 1, 3)
    ensures Entry(blob, n, 1) == 0 && Entry(blob, n, 2) % 4 == 0 && t.end <= Entry(blob, n, 2)
    ensures Entry(blob, n, 2) + Entry(blob, n, 3) <= |blob| && Entry(blob, n, 0) !in t.byType
  {
    hide Entry;
    assert EntryGood(blob, tableEnd, n);
  }

  lemma ViewsMore(blob: Bytes, byType: map<nat, Bytes>, n: nat)
    requires 64 + 16 * (n + 1) <= |blob| && ViewsGood(blob, byType, n)
    requires Entry(blob, n, 2) + Entry(blob, n, 3) <= |blob| && Entry(blob, n, 0) !in byType
    ensures ViewsGood(
        blob, byType[Entry(blob, n, 0) := blob[Entry(blob, n, 2)..Entry(blob, n, 2) + Entry(blob, n, 3)]], n + 1)
  {
    hide Entry;
    var at, end := Entry(blob, n, 2), Entry(blob, n, 2) + Entry(blob, n, 3);
    var more := byType[Entry(blob, n, 0) := blob[at..end]];
    forall ty | ty in more
      ensures exists i: nat :: i < n + 1 && Entry(blob, i, 0) == ty
    {
      if ty in byType {
        var i: nat :| i < n && Entry(blob, i, 0) == ty;
        assert i < n + 1 && Entry(blob, i, 0) == ty;
      } else {
        assert n < n + 1 && Entry(blob, n, 0) == ty;
      }
    }
  }

  ghost predicate Has(byType: map<nat, Bytes>, ty: nat, length: nat) {
    ty in byType && |byType[ty]| == length
  }

  /** The characters are as many as the last of `n + 1` offsets says. */
  ghost predicate Chars(byType: map<nat, Bytes>, offs: nat, chars: nat, n: nat) {
    Has(byType, offs, 4 * n + 4) && Has(byType, chars, FromLe32(byType[offs][4 * n..4 * n + 4]))
  }

  lemma {:induction false} LastRead(bytes: Bytes, n: nat)
    requires |bytes| == 4 * n + 4
    ensures |ReadWords(bytes)| == n + 1 && ReadWords(bytes)[n] == FromLe32(bytes[4 * n..4 * n + 4])
  {
  }

  /** Each section the flags ask for is there, with the length the counts ask for. */
  ghost predicate SectionsGood(byType: map<nat, Bytes>, h: Header) {
    && Has(byType, 1, 12 * h.vertices)
    && Has(byType, 3, 12 * h.triangles) && Has(byType, 4, 8 * h.faces) && Chars(byType, 5, 6, h.faces)
    && (h.flags % 2 == 1 ==> Has(byType, 2, 12 * h.vertices))
    && (h.flags / 2 % 2 == 1 ==>
          Has(byType, 7, 8 * h.edges) && Has(byType, 8, 12 * h.edgePoints) && Chars(byType, 9, 10, h.edges))
    && (h.flags / 4 % 2 == 1 ==> Has(byType, 11, 24 * h.faces))
  }

  lemma SectionsExactly(byType: map<nat, Bytes>, h: Header)
    ensures ParseSections(byType, h).Ok? <==> SectionsGood(byType, h)
  {
    hide ReadWords;
    if Has(byType, 5, 4 * h.faces + 4) {
      LastRead(byType[5], h.faces);
    }
    if Has(byType, 9, 4 * h.edges + 4) {
      LastRead(byType[9], h.edges);
    }
  }

  lemma OneView(blob: Bytes, a: map<nat, Bytes>, b: map<nat, Bytes>, n: nat)
    requires 64 + 16 * n <= |blob| && ViewsGood(blob, a, n) && ViewsGood(blob, b, n)
    ensures a == b
  {
    hide Entry;
    assert forall ty :: ty in a ==> ty in b && a[ty] == b[ty];
    assert forall ty :: ty in b ==> ty in a;
  }

  /** Header, table and sections are good, for the one map of types to slices that the table describes. */
  ghost predicate BlobGood(blob: Bytes) {
    && HeaderGood(blob)
    && var n := Entries(blob);
      && TableGood(blob, 64 + 16 * n, n)
      && exists byType :: ViewsGood(blob, byType, n) && SectionsGood(byType, ParseHeader(blob).value)
  }

  /** What the parser accepts. */
  lemma AcceptedExactly(blob: Bytes)
    ensures Parse(blob).Ok? <==> BlobGood(blob)
  {
    hide TableGood, ViewsGood, SectionsGood, ParseTable, ParseSections;
    HeaderExactly(blob);
    if HeaderGood(blob) {
      var n := Entries(blob);
      TableExactly(blob, 64 + 16 * n, n);
      if TableGood(blob, 64 + 16 * n, n) {
        var own := ParseTable(blob, 64 + 16 * n, n).value.byType;
        SectionsExactly(own, ParseHeader(blob).value);
        forall byType | ViewsGood(blob, byType, n)
          ensures byType == own
        {
          OneView(blob, byType, own, n);
        }
      }
    }
  }

  /** The groups a view shows, when its ranges and offsets stay inside it. */
  predicate Sound(v: GroupView, n: nat) {
    |v.ranges| == 2 * n && |v.offs| == n + 1 && forall i :: 0 <= i < n ==>
      InBounds(v.flat, v.ranges, v.offs, v.chars, i)
  }

  function Groups(v: GroupView, n: nat): (r: seq<Group>)
    requires Sound(v, n)
    ensures |r| == n && forall i :: 0 <= i < n ==> r[i] == GroupAt(v.flat, v.ranges, v.offs, v.chars, i)
  {
    seq(n, i requires 0 <= i < n => GroupAt(v.flat, v.ranges, v.offs, v.chars, i))
  }

  // ── The layout keeps every section to itself ───────────────────────────────

  lemma {:induction false} LayoutBegins(before: Bytes, sections: seq<Section>)
    ensures |before| <= EndOf(|before|, sections) && Layout(before, sections)[..|before|] == before
  {
    if sections != [] {
      LayoutBegins(before, sections[..|sections| - 1]);
    }
  }

  lemma {:induction false} SectionEnds(start: nat, sections: seq<Section>, i: nat)
    requires i < |sections|
    ensures var at := Offset(start, sections, i);
      EndOf(start, sections[..i]) <= at
        && at + |sections[i].bytes| == EndOf(start, sections[..i + 1]) <= EndOf(start, sections)
  {
    assert sections[..i + 1][..i] == sections[..i];
    EndGrows(start, sections, i + 1);
  }

  lemma {:induction false} SectionPlaced(before: Bytes, sections: seq<Section>, i: nat)
    requires i < |sections|
    ensures var at := Offset(|before|, sections, i);
      at + |sections[i].bytes| <= EndOf(|before|, sections)
      && Layout(before, sections)[at..at + |sections[i].bytes|] == sections[i].bytes
  {
    hide Layout, EndOf, Offset;
    var n := |sections| - 1;
    SectionEnds(|before|, sections, i);
    if i == n {
      LastPlaced(before, sections);
    } else {
      SectionPlaced(before, sections[..n], i);
      PrefixOffset(|before|, sections, n, i);
      LayoutGrows(before, sections);
      var at := Offset(|before|, sections, i);
      SliceOfPrefix(Layout(before, sections), Layout(before, sections[..n]), at, at + |sections[i].bytes|);
    }
  }

  lemma PrefixOffset(start: nat, sections: seq<Section>, n: nat, i: nat)
    requires i < n <= |sections|
    ensures Offset(start, sections[..n], i) == Offset(start, sections, i)
  {
    assert sections[..n][..i] == sections[..i];
  }

  lemma LastPlaced(before: Bytes, sections: seq<Section>)
    requires sections != []
    ensures var n := |sections| - 1;
      var at := Offset(|before|, sections, n);
      at + |sections[n].bytes| == EndOf(|before|, sections)
      && Layout(before, sections)[at..at + |sections[n].bytes|] == sections[n].bytes
  {
  }

  lemma LayoutGrows(before: Bytes, sections: seq<Section>)
    requires sections != []
    ensures var rest := Layout(before, sections[..|sections| - 1]);
      |rest| <= |Layout(before, sections)| && Layout(before, sections)[..|rest|] == rest
  {
  }

  lemma SliceOfPrefix(whole: Bytes, part: Bytes, a: nat, b: nat)
    requires |part| <= |whole| && whole[..|part|] == part && a <= b <= |part|
    ensures whole[a..b] == part[a..b]
  {
    forall k | a <= k < b
      ensures whole[k] == part[k]
    {
      assert whole[k] == whole[..|part|][k];
    }
  }

  /** Every section is four-byte aligned, lies after the table and inside the buffer, and holds its own bytes. */
  lemma SectionIntact(src: Source, i: nat)
    requires src.Boxed() && i < |Sections(src)|
    ensures var at := Offset(TableEnd(src), Sections(src), i);
      && at % 4 == 0 && TableEnd(src) <= at && at + |Sections(src)[i].bytes| <= TotalLen(src)
      && Image(src)[at..at + |Sections(src)[i].bytes|] == Sections(src)[i].bytes
  {
    hide *;
    SectionPlaced(Prefix(src), Sections(src), i);
    SectionEnds(TableEnd(src), Sections(src), i);
    LayoutBegins(Prefix(src), Sections(src)[..i]);
    BodyKept(src);
    var at := Offset(TableEnd(src), Sections(src), i);
    SliceOfPrefix(Image(src), Layout(Prefix(src), Sections(src)), at, at + |Sections(src)[i].bytes|);
    OffsetAligned(TableEnd(src), Sections(src), i);
  }

  lemma OffsetAligned(start: nat, sections: seq<Section>, i: nat)
    requires i < |sections|
    ensures Offset(start, sections, i) % 4 == 0
  {
  }

  lemma BodyKept(src: Source)
    requires src.Boxed()
    ensures var body := Layout(Prefix(src), Sections(src)); |body| <= TotalLen(src) && Image(src)[..|body|] == body
  {
  }

  /** Sections ascend and do not overlap. */
  lemma {:induction false} SectionsDisjoint(start: nat, sections: seq<Section>, i: nat, j: nat)
    requires i < j < |sections|
    ensures Offset(start, sections, i) + |sections[i].bytes| <= Offset(start, sections, j)
  {
    SectionEnds(start, sections, i);
    SectionEnds(start, sections, j);
    EndGrows(start, sections[..j], i + 1);
    assert sections[..j][..i + 1] == sections[..i + 1];
  }

  // ── Reading the words back ─────────────────────────────────────────────────

  function PrefixWords(src: Source): (r: seq<nat>)
    requires src.Boxed()
    ensures |r| == 16 + 4 * |Sections(src)|
  {
    HeaderWords(src) + TableWords(TableEnd(src), Sections(src))
  }

  lemma PrefixRead(src: Source, k: nat)
    requires src.Boxed() && k < |PrefixWords(src)| && PrefixWords(src)[k] < 0x1_0000_0000
    ensures 4 * k + 4 <= |Image(src)| && U32(Image(src), 4 * k) == PrefixWords(src)[k]
  {
    hide *;
    PrefixIs(src);
    PrefixKept(src);
    PrefixWordsIs(src);
    WordAt(PrefixWords(src), k);
    WordRoundTrip(PrefixWords(src)[k]);
    SliceOfPrefix(Image(src), Prefix(src), 4 * k, 4 * k + 4);
    U32Is(Image(src), 4 * k);
  }

  lemma U32Is(blob: Bytes, at: nat)
    requires at + 4 <= |blob|
    ensures U32(blob, at) == FromLe32(blob[at..at + 4])
  {
  }

  lemma PrefixWordsIs(src: Source)
    requires src.Boxed()
    ensures PrefixWords(src) == HeaderWords(src) + TableWords(TableEnd(src), Sections(src))
  {
  }

  lemma PrefixKept(src: Source)
    requires src.Boxed()
    ensures |Prefix(src)| <= |Image(src)| && Image(src)[..|Prefix(src)|] == Prefix(src)
  {
    var before, body := Prefix(src), Layout(Prefix(src), Sections(src));
    LayoutBegins(before, Sections(src));
    BodyKept(src);
    SliceOfPrefix(Image(src), body, 0, |before|);
    assert body[0..|before|] == before && Image(src)[0..|before|] == Image(src)[..|before|];
  }

  lemma Halves(blob: Bytes, at: nat)
    requires at + 4 <= |blob|
    ensures U16(blob, at) == U32(blob, at) % 0x1_0000 && U16(blob, at + 2) == U32(blob, at) / 0x1_0000
  {
    var lo, hi := U16(blob, at), U16(blob, at + 2);
    assert blob[at..at + 4] == [blob[at], blob[at + 1], blob[at + 2], blob[at + 3]];
    assert U32(blob, at) == lo + 0x1_0000 * hi;
    Quotient65536(lo, hi);
  }

  function HeaderOf(src: Source): Header
    requires src.Boxed()
  {
    Header(Flags(src), |src.positions| / 3, |Flat(src.faces)| / 3, |src.faces|, |src.edges|, |Flat(src.edges)| / 3,
           src.lod % 0x1_0000, |Sections(src)|, src.bbox)
  }

  // ── Each section by its type ───────────────────────────────────────────────

  lemma Present(src: Source)
    ensures var s := Sections(src);
      && Section(1, WordsBytes(src.positions)) in s
      && (src.normals.Some? ==> Section(2, WordsBytes(src.normals.value)) in s)
      && Section(3, WordsBytes(Flat(src.faces))) in s && Section(4, WordsBytes(Ranges(src.faces))) in s
      && Section(5, WordsBytes(IdOffs(src.faces))) in s && Section(6, IdChars(src.faces)) in s
      && (src.edges != [] ==>
            && Section(7, WordsBytes(Ranges(src.edges))) in s && Section(8, WordsBytes(Flat(src.edges))) in s
            && Section(9, WordsBytes(IdOffs(src.edges))) in s && Section(10, IdChars(src.edges)) in s)
      && (src.faceBboxes.Some? ==> Section(11, WordsBytes(src.faceBboxes.value)) in s)
  {
    hide Flat, Ranges, IdOffs, IdChars, WordsBytes;
  }

  lemma TypesAscend(src: Source)
    ensures forall i, j :: 0 <= i < j < |Sections(src)| ==> Sections(src)[i].ty < Sections(src)[j].ty
    ensures forall i :: 0 <= i < |Sections(src)| ==> Sections(src)[i].ty < 0x1_0000
  {
    hide Flat, Ranges, IdOffs, IdChars, WordsBytes;
  }

  lemma SectionFits(src: Source, s: Section)
    requires src.Boxed() && Fits(src) && s in Sections(src)
    ensures |s.bytes| < 0x8000_0000
  {
    hide Sections, Offset, Image, TotalLen;
    var i :| 0 <= i < |Sections(src)| && Sections(src)[i] == s;
    SectionIntact(src, i);
  }

  lemma CountsFit(src: Source)
    requires src.Boxed() && Fits(src)
    ensures |src.positions| < 0x8000_0000 && |Flat(src.faces)| < 0x8000_0000 && |src.faces| < 0x8000_0000
    ensures |src.edges| < 0x8000_0000 && |Flat(src.edges)| < 0x8000_0000
    ensures |IdChars(src.faces)| < 0x8000_0000 && |IdChars(src.edges)| < 0x8000_0000
  {
    hide Sections, Fits, WordsBytes, Flat, Ranges, IdChars;
    Present(src);
    SectionFits(src, Section(1, WordsBytes(src.positions)));
    SectionFits(src, Section(3, WordsBytes(Flat(src.faces))));
    SectionFits(src, Section(4, WordsBytes(Ranges(src.faces))));
    SectionFits(src, Section(6, IdChars(src.faces)));
    if src.edges != [] {
      SectionFits(src, Section(7, WordsBytes(Ranges(src.edges))));
      SectionFits(src, Section(8, WordsBytes(Flat(src.edges))));
      SectionFits(src, Section(10, IdChars(src.edges)));
    } else {
      NoGroups();
    }
  }

  lemma NoGroups()
    ensures Flat([]) == [] && IdChars([]) == []
  {
  }

  // ── The round trip ─────────────────────────────────────────────────────────

  lemma HeaderWordRead(src: Source, k: nat)
    requires src.Boxed() && Fits(src) && k < 16
    ensures 4 * k + 4 <= |Image(src)| && U32(Image(src), 4 * k) == HeaderWords(src)[k]
  {
    hide Sections, Flat, U32, Image, TableWords, Fits;
    CountsFit(src);
    HeaderAt(src);
    AtMostEleven(src);
    PrefixWordsIs(src);
    assert k >= 8 && k < 14 ==> HeaderWords(src)[k] == src.bbox[k - 8];
    assert HeaderWords(src)[k] < 0x1_0000_0000;
    PrefixRead(src, k);
  }

  lemma HeaderParsed(src: Source)
    requires src.Boxed() && Fits(src)
    ensures ParseHeader(Image(src)) == Ok(HeaderOf(src))
  {
    hide Sections, Flat, U32, U16, Image, TableWords, Fits, HeaderWords, Flags;
    var blob := Image(src);
    forall k: nat | k < 16
      ensures 4 * k + 4 <= |blob| && U32(blob, 4 * k) == HeaderWords(src)[k]
    {
      HeaderWordRead(src, k);
    }
    HeaderAt(src);
    AtMostEleven(src);
    PrefixKept(src);
    TableEndIs(src);
    Halves(blob, 4);
    Halves(blob, 0x1c);
    assert U32(blob, 4 * 0) == MAGIC && U32(blob, 4 * 1) == 1 + 0x1_0000 * Flags(src);
    assert U32(blob, 4 * 2) == |src.positions| / 3 && U32(blob, 4 * 3) == |Flat(src.faces)| / 3;
    assert U32(blob, 4 * 4) == |src.faces| && U32(blob, 4 * 5) == |src.edges|
      && U32(blob, 4 * 6) == |Flat(src.edges)| / 3;
    assert U32(blob, 4 * 7) == src.lod % 0x1_0000 + 0x1_0000 * |Sections(src)|;
    assert U32(blob, 4 * 14) == 0 && U32(blob, 4 * 15) == 0;
    var h := HeaderOf(src);
    assert [U32(blob, 4 * 8), U32(blob, 4 * 9), U32(blob, 4 * 10), U32(blob, 4 * 11), U32(blob, 4 * 12),
      U32(blob, 4 * 13)] == src.bbox;
  }

  function ViewMap(sections: seq<Section>): map<nat, Bytes> {
    if sections == [] then map[]
    else ViewMap(sections[..|sections| - 1])[sections[|sections| - 1].ty := sections[|sections| - 1].bytes]
  }

  lemma {:induction false} ViewMapHas(sections: seq<Section>, i: nat)
    requires i < |sections| && forall i, j :: 0 <= i < j < |sections| ==> sections[i].ty < sections[j].ty
    ensures sections[i].ty in ViewMap(sections) && ViewMap(sections)[sections[i].ty] == sections[i].bytes
  {
    if i < |sections| - 1 {
      ViewMapHas(sections[..|sections| - 1], i);
    }
  }

  lemma {:induction false} ViewMapKeys(sections: seq<Section>, ty: nat)
    requires ty in ViewMap(sections)
    ensures exists i :: 0 <= i < |sections| && sections[i].ty == ty
  {
    var n := |sections| - 1;
    if sections[n].ty != ty {
      ViewMapKeys(sections[..n], ty);
      var i :| 0 <= i < n && sections[..n][i].ty == ty;
      assert sections[i].ty == ty;
    }
  }

  lemma EntryRead(src: Source, i: nat)
    requires src.Boxed() && Fits(src) && i < |Sections(src)|
    ensures var at, s := HEADER_BYTES + TABLE_ENTRY_BYTES * i, Sections(src)[i];
      && at + 16 <= |Image(src)|
      && U32(Image(src), at) == s.ty && U32(Image(src), at + 4) == 0
      && U32(Image(src), at + 8) == Offset(TableEnd(src), Sections(src), i) && U32(Image(src), at + 12) == |s.bytes|
  {
    hide Sections, Image, U32, TableWords, HeaderWords, Offset, TableEnd;
    TableAt(TableEnd(src), Sections(src), i);
    SectionIntact(src, i);
    TypesAscend(src);
    PrefixWordsIs(src);
    var k := 16 + 4 * i;
    assert PrefixWords(src)[k] == Sections(src)[i].ty && PrefixWords(src)[k + 1] == 0;
    assert PrefixWords(src)[k + 2] == Offset(TableEnd(src), Sections(src), i);
    assert PrefixWords(src)[k + 3] == |Sections(src)[i].bytes|;
    PrefixRead(src, k);
    PrefixRead(src, k + 1);
    PrefixRead(src, k + 2);
    PrefixRead(src, k + 3);
  }

  lemma NextEntry(blob: Bytes, tableEnd: nat, i: nat, t: Table)
    requires HEADER_BYTES + TABLE_ENTRY_BYTES * (i + 1) <= |blob| && ParseTable(blob, tableEnd, i) == Ok(t)
    ensures var at := HEADER_BYTES + TABLE_ENTRY_BYTES * i;
      ParseTable(blob, tableEnd, i + 1)
        == AddEntry(blob, t, U32(blob, at), U32(blob, at + 4), U32(blob, at + 8), U32(blob, at + 12))
  {
  }

  lemma EntryTaken(blob: Bytes, t: Table, ty: Word, offset: Word, bytes: Bytes)
    requires offset % 4 == 0 && t.end <= offset && offset + |bytes| <= |blob| && |bytes| < 0x1_0000_0000
    requires blob[offset..offset + |bytes|] == bytes && ty !in t.byType
    ensures AddEntry(blob, t, ty, 0, offset, |bytes|) == Ok(Table(t.byType[ty := bytes], offset + |bytes|))
  {
  }

  lemma TableRoom(src: Source, i: nat)
    requires src.Boxed() && i <= |Sections(src)|
    ensures HEADER_BYTES + TABLE_ENTRY_BYTES * i <= |Image(src)|
  {
    hide Sections, Image;
    PrefixKept(src);
    TableEndIs(src);
  }

  /** Every entry passes the parser's checks, and its view is its section. */
  lemma {:induction false} TableParsed(src: Source, i: nat)
    requires src.Boxed() && Fits(src) && i <= |Sections(src)|
    ensures HEADER_BYTES + TABLE_ENTRY_BYTES * i <= |Image(src)|
    ensures ParseTable(Image(src), TableEnd(src), i)
      == Ok(Table(ViewMap(Sections(src)[..i]), EndOf(TableEnd(src), Sections(src)[..i])))
  {
    hide Sections, Image, TableEnd, ParseTable, ViewMap, EndOf, Fits;
    TableRoom(src, i);
    if i == 0 {
      NoEntries(Image(src), TableEnd(src), Sections(src));
    } else {
      TableParsed(src, i - 1);
      MoreEntries(src, i - 1);
    }
  }

  lemma NoEntries(blob: Bytes, tableEnd: nat, sections: seq<Section>)
    requires HEADER_BYTES <= |blob|
    ensures ParseTable(blob, tableEnd, 0) == Ok(Table(ViewMap(sections[..0]), EndOf(tableEnd, sections[..0])))
  {
  }

  lemma MoreEntries(src: Source, i: nat)
    requires src.Boxed() && Fits(src) && i < |Sections(src)|
    requires HEADER_BYTES + TABLE_ENTRY_BYTES * i <= |Image(src)|
    requires ParseTable(Image(src), TableEnd(src), i)
      == Ok(Table(ViewMap(Sections(src)[..i]), EndOf(TableEnd(src), Sections(src)[..i])))
    ensures HEADER_BYTES + TABLE_ENTRY_BYTES * (i + 1) <= |Image(src)|
    ensures ParseTable(Image(src), TableEnd(src), i + 1)
      == Ok(Table(ViewMap(Sections(src)[..i + 1]), EndOf(TableEnd(src), Sections(src)[..i + 1])))
  {
    hide *;
    TableRoom(src, i + 1);
    NextEntry(Image(src), TableEnd(src), i,
      Table(ViewMap(Sections(src)[..i]), EndOf(TableEnd(src), Sections(src)[..i])));
    EntryRead(src, i);
    SectionTaken(src, i);
  }

  lemma TotalFits(src: Source)
    requires Fits(src)
    ensures TotalLen(src) < 0x8000_0000
  {
  }

  lemma SectionTaken(src: Source, i: nat)
    requires src.Boxed() && Fits(src) && i < |Sections(src)|
    ensures var sections, s := Sections(src), Sections(src)[i];
      var t := Table(ViewMap(sections[..i]), EndOf(TableEnd(src), sections[..i]));
      && s.ty < 0x1_0000_0000 && Offset(TableEnd(src), sections, i) < 0x1_0000_0000 && |s.bytes| < 0x1_0000_0000
      && AddEntry(Image(src), t, s.ty, 0, Offset(TableEnd(src), sections, i), |s.bytes|)
        == Ok(Table(ViewMap(sections[..i + 1]), EndOf(TableEnd(src), sections[..i + 1])))
  {
    hide *;
    var sections, s := Sections(src), Sections(src)[i];
    SectionIntact(src, i);
    TotalFits(src);
    SectionEnds(TableEnd(src), sections, i);
    TypesAscend(src);
    ViewMapGrows(sections, i);
    EntryTaken(Image(src), Table(ViewMap(sections[..i]), EndOf(TableEnd(src), sections[..i])),
               s.ty, Offset(TableEnd(src), sections, i), s.bytes);
  }

  lemma ViewMapGrows(sections: seq<Section>, i: nat)
    requires i < |sections| && forall i, j :: 0 <= i < j < |sections| ==> sections[i].ty < sections[j].ty
    ensures sections[i].ty !in ViewMap(sections[..i])
    ensures ViewMap(sections[..i + 1]) == ViewMap(sections[..i])[sections[i].ty := sections[i].bytes]
  {
    assert sections[..i + 1][..i] == sections[..i];
    if sections[i].ty in ViewMap(sections[..i]) {
      ViewMapKeys(sections[..i], sections[i].ty);
    }
  }

  lemma SectionFound(src: Source, s: Section)
    requires s in Sections(src)
    ensures Require(ViewMap(Sections(src)), s.ty) == Ok(s.bytes)
  {
    hide Sections;
    TypesAscend(src);
    var i :| 0 <= i < |Sections(src)| && Sections(src)[i] == s;
    ViewMapHas(Sections(src), i);
  }

  lemma WordsFound(src: Source, ty: nat, ws: seq<nat>, n: nat)
    requires Section(ty, WordsBytes(ws)) in Sections(src)
    requires forall k :: 0 <= k < |ws| ==> ws[k] < 0x1_0000_0000
    ensures WordView(ViewMap(Sections(src)), ty, n) == if |ws| == n then Ok(ws) else Err(BadLength)
  {
    hide Sections, ViewMap, Require, WordsBytes;
    SectionFound(src, Section(ty, WordsBytes(ws)));
    ReadBack(ws);
  }

  lemma GroupWords(groups: seq<Group>)
    requires |Flat(groups)| < 0x8000_0000 && |IdChars(groups)| < 0x8000_0000
    ensures forall k :: 0 <= k < |Ranges(groups)| ==> Ranges(groups)[k] < 0x1_0000_0000
    ensures forall k :: 0 <= k < |IdOffs(groups)| ==> IdOffs(groups)[k] < 0x1_0000_0000
  {
    hide Flat, Ranges, IdOffs, IdChars;
    forall k | 0 <= k < |Ranges(groups)|
      ensures Ranges(groups)[k] < 0x1_0000_0000
    {
      RangesAt(groups, k / 2);
      FlatPrefix(groups, k / 2);
    }
    forall k | 0 <= k < |IdOffs(groups)|
      ensures IdOffs(groups)[k] < 0x1_0000_0000
    {
      if k < |groups| {
        IdsAt(groups, k);
      } else {
        LastOff(groups);
      }
    }
  }

  /** The views of the groups as the encoder laid them out. */
  function ViewOf(groups: seq<Group>): GroupView
    requires |Flat(groups)| < 0x8000_0000 && |IdChars(groups)| < 0x8000_0000
  {
    GroupWords(groups);
    GroupView(Flat(groups), Ranges(groups), IdOffs(groups), IdChars(groups))
  }

  lemma FacesParsed(src: Source)
    requires src.Boxed() && Fits(src)
    ensures |Flat(src.faces)| < 0x8000_0000 && |IdChars(src.faces)| < 0x8000_0000
    ensures FaceView(ViewMap(Sections(src)), HeaderOf(src)) == Ok(ViewOf(src.faces))
  {
    hide Sections, Flat, Ranges, IdOffs, IdChars, WordsBytes, ViewMap, Require, WordView, Fits;
    CountsFit(src);
    Present(src);
    GroupWords(src.faces);
    LastOff(src.faces);
    WordsFound(src, 3, Flat(src.faces), 3 * (|Flat(src.faces)| / 3));
    WordsFound(src, 4, Ranges(src.faces), 2 * |src.faces|);
    WordsFound(src, 5, IdOffs(src.faces), |src.faces| + 1);
    SectionFound(src, Section(6, IdChars(src.faces)));
  }

  lemma EdgesParsed(src: Source)
    requires src.Boxed() && Fits(src) && src.edges != []
    ensures |Flat(src.edges)| < 0x8000_0000 && |IdChars(src.edges)| < 0x8000_0000
    ensures EdgeView(ViewMap(Sections(src)), HeaderOf(src)) == Ok(ViewOf(src.edges))
  {
    hide Sections, Flat, Ranges, IdOffs, IdChars, WordsBytes, ViewMap, Require, WordView, Fits;
    CountsFit(src);
    Present(src);
    GroupWords(src.edges);
    LastOff(src.edges);
    WordsFound(src, 8, Flat(src.edges), 3 * (|Flat(src.edges)| / 3));
    WordsFound(src, 7, Ranges(src.edges), 2 * |src.edges|);
    WordsFound(src, 9, IdOffs(src.edges), |src.edges| + 1);
    SectionFound(src, Section(10, IdChars(src.edges)));
  }

  lemma FlagBits(src: Source)
    ensures Flags(src) % 2 == 1 <==> src.normals.Some?
    ensures Flags(src) / 2 % 2 == 1 <==> src.edges != []
    ensures Flags(src) / 4 % 2 == 1 <==> src.faceBboxes.Some?
    ensures Flags(src) / 8 % 2 == 1 <==> src.idsHaveElementIds
  {
  }

  /** What the parser makes of an encoded mesh. */
  function Parsed(src: Source): View
    requires src.Boxed() && Fits(src)
  {
    CountsFit(src);
    View(HeaderOf(src), src.positions, src.normals, ViewOf(src.faces),
         if src.edges != [] then Some(ViewOf(src.edges)) else None, src.faceBboxes)
  }

  lemma SectionsParsed(src: Source)
    requires src.Boxed() && Fits(src) && |src.positions| % 3 == 0
    ensures ParseSections(ViewMap(Sections(src)), HeaderOf(src))
      == if src.normals.Some? && |src.normals.value| != |src.positions| then Err(BadLength) else Ok(Parsed(src))
  {
    hide Sections, Flat, Ranges, IdOffs, IdChars, WordsBytes, ViewMap, Require, WordView, Fits, Flags, FaceView,
      EdgeView, ViewOf;
    FlagBits(src);
    Present(src);
    CountsFit(src);
    WordsFound(src, 1, src.positions, 3 * (|src.positions| / 3));
    FacesParsed(src);
    if src.normals.Some? {
      WordsFound(src, 2, src.normals.value, 3 * (|src.positions| / 3));
    }
    if src.edges != [] {
      EdgesParsed(src);
    }
    if src.faceBboxes.Some? {
      WordsFound(src, 11, src.faceBboxes.value, 6 * |src.faces|);
    }
  }

  lemma ImageParsed(src: Source)
    requires src.Boxed() && Fits(src) && |src.positions| % 3 == 0
    ensures Parse(Image(src))
      == if src.normals.Some? && |src.normals.value| != |src.positions| then Err(BadLength) else Ok(Parsed(src))
  {
    hide Sections, Image, ParseHeader, ParseTable, ParseSections, Parsed, Fits;
    HeaderParsed(src);
    TableParsed(src, |Sections(src)|);
    TableEndIs(src);
    assert Sections(src)[..|Sections(src)|] == Sections(src);
    SectionsParsed(src);
  }

  lemma GroupsRead(groups: seq<Group>)
    requires |Flat(groups)| < 0x8000_0000 && |IdChars(groups)| < 0x8000_0000
    ensures Sound(ViewOf(groups), |groups|) && Groups(ViewOf(groups), |groups|) == groups
  {
    hide Flat, Ranges, IdOffs, IdChars, GroupAt, InBounds;
    forall i: nat | i < |groups|
      ensures InBounds(Flat(groups), Ranges(groups), IdOffs(groups), IdChars(groups), i)
      ensures GroupAt(Flat(groups), Ranges(groups), IdOffs(groups), IdChars(groups), i) == groups[i]
    {
      GroupReads(groups, i);
    }
  }

  /** What the mesh is, read off a view. */
  ghost predicate Recovers(v: View, src: Source)
    requires src.Boxed()
  {
    && v.positions == src.positions && v.normals == src.normals && v.faceBboxes == src.faceBboxes
    && Sound(v.faces, v.header.faces) && Groups(v.faces, v.header.faces) == src.faces
    && (v.edges.Some? <==> src.edges != [])
    && (v.edges.Some? ==> Sound(v.edges.value, v.header.edges) && Groups(v.edges.value, v.header.edges) == src.edges)
    && (v.header.flags / 8 % 2 == 1 <==> src.idsHaveElementIds)
    && v.header.lod == src.lod % 0x1_0000 && v.header.bbox == src.bbox
    && v.header.vertices * 3 == |src.positions|
  }

  /**
   Parsing an encoded mesh recovers it: positions, normals, each face's triangles and id, each edge's
   points and id, boxes and flags. The one thing the encoder lets through that the parser will not
   take is normals of another length than the positions.
   */
  lemma EncodeParses(src: Source)
    requires src.Boxed() && Fits(src) && |src.positions| % 3 == 0
    ensures var r := Parse(Image(src));
      && (r.Ok? <==> (src.normals.Some? ==> |src.normals.value| == |src.positions|))
      && (r.Ok? ==> Recovers(r.value, src))
      && (r.Err? ==> r.error == BadLength)
  {
    hide Image, Fits, Flat, IdChars, Flags, Sound, Groups, ViewOf, Parse;
    ImageParsed(src);
    CountsFit(src);
    FlagBits(src);
    GroupsRead(src.faces);
    GroupsRead(src.edges);
  }

  // ── Picking: which group owns a member ─────────────────────────────────────

  /** The `needle`-th member of all lies in group `i`. */
  predicate Owns(ranges: seq<nat>, i: nat, needle: nat)
    requires 2 * i + 1 < |ranges|
  {
    ranges[2 * i] <= needle < ranges[2 * i] + ranges[2 * i + 1]
  }

  /** Ranges follow one another from zero, as the encoder emits them. */
  ghost predicate Contiguous(ranges: seq<nat>, count: nat)
    requires |ranges| == 2 * count
  {
    forall i, j :: 0 <= i < j < count ==> Before(ranges, i, j)
  }

  predicate Before(ranges: seq<nat>, i: nat, j: nat)
    requires 2 * i + 1 < |ranges| && 2 * j + 1 < |ranges|
  {
    ranges[2 * i] + ranges[2 * i + 1] <= ranges[2 * j]
  }

  /** Binary search for the group that owns `needle`. */
  method RangeLookup(ranges: seq<nat>, count: nat, needle: nat) returns (r: int)
    requires |ranges| == 2 * count && Contiguous(ranges, count)
    ensures r == -1 || (0 <= r < count && Owns(ranges, r, needle))
    ensures r == -1 <==> forall i :: 0 <= i < count ==> !Owns(ranges, i, needle)
  {
    var lo, hi := 0, count - 1;
    while lo <= hi
      invariant 0 <= lo <= hi + 1 <= count
      invariant forall i :: 0 <= i < lo || hi < i < count ==> !Owns(ranges, i, needle)
    {
      var mid := (lo + hi) / 2;
      var first := ranges[mid * 2];
      forall i | 0 <= i < count
        ensures needle < first && mid <= i ==> !Owns(ranges, i, needle)
        ensures first <= needle && i < mid ==> !Owns(ranges, i, needle)
      {
        assert (mid < i ==> Before(ranges, mid, i)) && (i < mid ==> Before(ranges, i, mid));
      }
      if needle < first {
        hi := mid - 1;
      } else if needle < first + ranges[mid * 2 + 1] {
        assert Owns(ranges, mid, needle);
        return mid;
      } else {
        lo := mid + 1;
      }
    }
    return -1;
  }

  lemma {:induction false} FlatSplits(groups: seq<Group>, i: nat, j: nat)
    requires i < j <= |groups|
    ensures |Flat(groups[..i])| + 3 * |groups[i].members| <= |Flat(groups[..j])|
  {
    assert groups[..j][..i] == groups[..i];
    FlatPrefix(groups[..j], i);
  }

  /** An encoded mesh's ranges are contiguous, so the lookup may be used on them. */
  lemma EncodedRangesSearchable(groups: seq<Group>)
    ensures Contiguous(Ranges(groups), |groups|)
  {
    hide Flat, Ranges;
    forall i | 0 <= i < |groups|
      ensures Ranges(groups)[2 * i] == |Flat(groups[..i])| / 3 && Ranges(groups)[2 * i + 1] == |groups[i].members|
    {
      RangesAt(groups, i);
    }
    forall i, j | 0 <= i < j < |groups|
      ensures Before(Ranges(groups), i, j)
    {
      FlatSplits(groups, i, j);
    }
  }

  /** A pick of the `k`-th member emitted for group `i` finds group `i` and no other. */
  lemma MemberFound(groups: seq<Group>, i: nat, k: nat)
    requires i < |groups| && k < |groups[i].members|
    ensures var needle := |Flat(groups[..i])| / 3 + k;
      forall j :: 0 <= j < |groups| ==> (Owns(Ranges(groups), j, needle) <==> j == i)
  {
    hide Flat, Ranges;
    EncodedRangesSearchable(groups);
    RangesAt(groups, i);
    var needle := |Flat(groups[..i])| / 3 + k;
    forall j | 0 <= j < |groups|
      ensures Owns(Ranges(groups), j, needle) <==> j == i
    {
      assert (i < j ==> Before(Ranges(groups), i, j)) && (j < i ==> Before(Ranges(groups), j, i));
    }
  }
}
