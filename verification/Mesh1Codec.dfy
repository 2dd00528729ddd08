/**
 The MESH1 encoder: header, section table and sections in one buffer, at computed offsets.

 `Image` says what the buffer holds, and the methods that push, concatenate and write in place are
 proved to produce exactly that. What a parser makes of it is in `Mesh1Parser`.
 */
module Mesh1Codec {
  import opened Wrappers
  import opened Mesh1

  // ── Sections and their places ──────────────────────────────────────────────

  datatype Section = Section(ty: nat, bytes: Bytes)

  function Align4(n: nat): (r: nat)
    ensures r % 4 == 0 && n <= r < n + 4
  {
    (n + 3) / 4 * 4
  }

  /** The sections present, in ascending type order. */
  function Sections(src: Source): seq<Section> {
    [Section(1, WordsBytes(src.positions))]
    + (if src.normals.Some? then [Section(2, WordsBytes(src.normals.value))] else [])
    + [Section(3, WordsBytes(Flat(src.faces))), Section(4, WordsBytes(Ranges(src.faces))),
       Section(5, WordsBytes(IdOffs(src.faces))), Section(6, IdChars(src.faces))]
    + (if src.edges != [] then
         [Section(7, WordsBytes(Ranges(src.edges))), Section(8, WordsBytes(Flat(src.edges))),
          Section(9, WordsBytes(IdOffs(src.edges))), Section(10, IdChars(src.edges))]
       else [])
    + (if src.faceBboxes.Some? then [Section(11, WordsBytes(src.faceBboxes.value))] else [])
  }

  /** Where the sections end when the first may start at `start`, each aligned to four bytes. */
  function EndOf(start: nat, sections: seq<Section>): nat {
    if sections == [] then start
    else Align4(EndOf(start, sections[..|sections| - 1])) + |sections[|sections| - 1].bytes|
  }

  function Offset(start: nat, sections: seq<Section>, i: nat): nat
    requires i <= |sections|
  {
    Align4(EndOf(start, sections[..i]))
  }

  function Zeros(n: nat): (r: Bytes)
    ensures |r| == n
  {
    seq(n, _ => 0)
  }

  /** The bytes up to the end of the sections: what came before, then each section after its padding. */
  function Layout(before: Bytes, sections: seq<Section>): (r: Bytes)
    ensures |r| == EndOf(|before|, sections)
  {
    if sections == [] then before
    else
      var rest := Layout(before, sections[..|sections| - 1]);
      rest + Zeros(Align4(|rest|) - |rest|) + sections[|sections| - 1].bytes
  }

  function TableWords(start: nat, sections: seq<Section>): (r: seq<nat>)
    ensures |r| == 4 * |sections|
  {
    if sections == [] then []
    else
      var n := |sections| - 1;
      TableWords(start, sections[..n]) + [sections[n].ty, 0, Offset(start, sections, n), |sections[n].bytes|]
  }

  function Bit(b: bool, v: nat): nat {
    if b then v else 0
  }

  function Flags(src: Source): (r: nat)
    ensures r < 16
  {
    Bit(src.normals.Some?, 1) + Bit(src.edges != [], 2) + Bit(src.faceBboxes.Some?, 4) + Bit(src.idsHaveElementIds, 8)
  }

  function HeaderWords(src: Source): (r: seq<nat>)
    requires src.Boxed()
    ensures |r| == 16
  {
    [MAGIC, 1 + 0x1_0000 * Flags(src), |src.positions| / 3, |Flat(src.faces)| / 3, |src.faces|, |src.edges|,
     |Flat(src.edges)| / 3, src.lod % 0x1_0000 + 0x1_0000 * |Sections(src)|]
    + src.bbox + [0, 0]
  }

  function TableEnd(src: Source): nat {
    HEADER_BYTES + TABLE_ENTRY_BYTES * |Sections(src)|
  }

  function Prefix(src: Source): (r: Bytes)
    requires src.Boxed()
    ensures |r| == TableEnd(src)
  {
    WordsBytes(HeaderWords(src) + TableWords(TableEnd(src), Sections(src)))
  }

  function TotalLen(src: Source): nat {
    Align4(EndOf(TableEnd(src), Sections(src)))
  }

  /** The whole encoded mesh. */
  function Image(src: Source): (r: Bytes)
    requires src.Boxed()
    ensures |r| == TotalLen(src)
  {
    var body := Layout(Prefix(src), Sections(src));
    body + Zeros(Align4(|body|) - |body|)
  }

  /** The first words of the image, byte by byte: the magic, the version, and the flags in one byte. */
  lemma ImageBegins(src: Source)
    requires src.Boxed()
    ensures |WordsBytes(HeaderWords(src))| == 64
    ensures WordsBytes(HeaderWords(src))[..8] == [0x48, 0x53, 0x45, 0x4d, 1, 0, Flags(src), 0]
  {
    hide Flags;
    var w := HeaderWords(src);
    WordAt(w, 0);
    WordAt(w, 1);
    Digits(MAGIC, 0x48, 0x53, 0x45, 0x4d);
    Digits(1 + 0x1_0000 * Flags(src), 1, 0, Flags(src), 0);
    assert WordsBytes(w)[..8] == WordsBytes(w)[0..4] + WordsBytes(w)[4..8];
  }

  // ── Writing into the buffer ────────────────────────────────────────────────

  /** The buffer begins with `done` and is zero after it. */
  ghost predicate Written(buffer: array<Byte>, done: Bytes)
    reads buffer
  {
    |done| <= buffer.Length && buffer[..] == done + Zeros(buffer.Length - |done|)
  }

  method WriteAt(buffer: array<Byte>, at: nat, bytes: Bytes, ghost done: Bytes)
    requires |done| <= at && at + |bytes| <= buffer.Length && Written(buffer, done)
    modifies buffer
    ensures Written(buffer, done + Zeros(at - |done|) + bytes)
  {
    for i := 0 to |bytes|
      invariant buffer[..] == done + Zeros(at - |done|) + bytes[..i] + Zeros(buffer.Length - at - i)
    {
      buffer[at + i] := bytes[i];
      assert bytes[..i + 1] == bytes[..i] + [bytes[i]];
      assert buffer[..] == done + Zeros(at - |done|) + bytes[..i + 1] + Zeros(buffer.Length - at - (i + 1));
    }
    assert bytes[..|bytes|] == bytes;
  }

  /** Writes the `k`-th of the words that begin the buffer. */
  method SetUint32(buffer: array<Byte>, at: nat, n: nat, ghost words: seq<nat>, ghost k: nat)
    requires k < |words| && words[k] == n && at == 4 * k && at + 4 <= buffer.Length
    requires Written(buffer, WordsBytes(words[..k]))
    modifies buffer
    ensures Written(buffer, WordsBytes(words[..k + 1]))
  {
    WriteAt(buffer, at, Le32(n), WordsBytes(words[..k]));
    assert words[..k] + [n] == words[..k + 1];
    assert WordsBytes(words[..k]) + Zeros(0) + Le32(n) == WordsBytes(words[..k + 1]);
  }

  /** Writes it as two adjacent half words. */
  method SetUint16Pair(buffer: array<Byte>, at: nat, lo: nat, hi: nat, ghost words: seq<nat>, ghost k: nat)
    requires k < |words| && words[k] == lo % 0x1_0000 + 0x1_0000 * hi && at == 4 * k && at + 4 <= buffer.Length
    requires hi < 0x1_0000
    requires Written(buffer, WordsBytes(words[..k]))
    modifies buffer
    ensures Written(buffer, WordsBytes(words[..k + 1]))
  {
    ghost var done := WordsBytes(words[..k]);
    WriteAt(buffer, at, Le16(lo), done);
    assert done + Zeros(0) + Le16(lo) == done + Le16(lo);
    WriteAt(buffer, at + 2, Le16(hi), done + Le16(lo));
    Half(lo);
    TwoHalves(lo % 0x1_0000, hi);
    assert words[..k] + [words[k]] == words[..k + 1];
    assert done + Le16(lo) + Zeros(0) + Le16(hi) == WordsBytes(words[..k + 1]);
  }

  lemma Half(n: nat)
    ensures Le16(n) == Le16(n % 0x1_0000)
  {
    var hi, lo := n / 0x1_0000, n % 0x1_0000;
    assert n == 0x1_0000 * hi + lo;
    Quotient256(lo % 0x100, lo / 0x100 + 0x100 * hi);
    Quotient256(lo / 0x100, hi);
  }

  // ── The encoder ────────────────────────────────────────────────────────────

  /** The buffer's length stays a signed 32-bit number, as the alignment arithmetic needs it to. */
  predicate Fits(src: Source) {
    TotalLen(src) < 0x8000_0000
  }

  method ConcatBytes(parts: seq<Bytes>, total: nat, ghost groups: seq<Group>) returns (out: Bytes)
    requires |parts| == |groups| && forall i :: 0 <= i < |groups| ==> parts[i] == groups[i].id
    requires total == |IdChars(groups)|
    ensures out == IdChars(groups)
  {
    var a := new Byte[total](_ => 0);
    var o: nat := 0;
    for i := 0 to |parts|
      invariant o == |IdChars(groups[..i])| && Written(a, IdChars(groups[..i]))
    {
      IdCharsGrow(groups, i);
      WriteAt(a, o, parts[i], IdChars(groups[..i]));
      assert IdChars(groups[..i]) + Zeros(0) + parts[i] == IdChars(groups[..i + 1]);
      o := o + |parts[i]|;
    }
    assert groups[..|groups|] == groups;
    assert IdChars(groups) + Zeros(0) == IdChars(groups);
    out := a[..];
  }

  lemma {:induction false} IdCharsGrow(groups: seq<Group>, i: nat)
    requires i < |groups|
    ensures IdChars(groups[..i + 1]) == IdChars(groups[..i]) + groups[i].id
    ensures |IdChars(groups[..i + 1])| <= |IdChars(groups)|
    decreases |groups| - i
  {
    assert groups[..i + 1][..i] == groups[..i];
    if i + 1 < |groups| {
      IdCharsGrow(groups, i + 1);
    } else {
      assert groups[..i + 1] == groups;
    }
  }

  method PushMembers(flat: seq<Word>, members: seq<Triple>) returns (out: seq<Word>)
    ensures out == flat + Flatten(members)
  {
    out := flat;
    for k := 0 to |members|
      invariant out == flat + Flatten(members[..k])
    {
      assert members[..k + 1][..k] == members[..k];
      var t := members[k];
      out := out + [t.0, t.1, t.2];
    }
    assert members[..|members|] == members;
  }

  method IdTables(groups: seq<Group>) returns (offs: seq<nat>, chars: Bytes)
    ensures offs == IdOffs(groups) && chars == IdChars(groups)
  {
    offs := [0];
    var parts: seq<Bytes> := [];
    for i := 0 to |groups|
      invariant |parts| == i && offs == IdOffs(groups[..i])
      invariant forall k :: 0 <= k < i ==> parts[k] == groups[k].id
    {
      assert groups[..i + 1][..i] == groups[..i];
      LastOff(groups[..i]);
      IdCharsGrow(groups, i);
      parts := parts + [groups[i].id];
      offs := offs + [offs[|offs| - 1] + |groups[i].id|];
    }
    assert groups[..|groups|] == groups;
    LastOff(groups);
    chars := ConcatBytes(parts, offs[|groups|], groups);
  }

  /** The flat triples, the ranges and the id tables of the groups, pushed group by group. */
  method GroupArrays(groups: seq<Group>) returns (flat: seq<Word>, ranges: seq<nat>, offs: seq<nat>, chars: Bytes)
    ensures flat == Flat(groups) && ranges == Ranges(groups) && offs == IdOffs(groups) && chars == IdChars(groups)
  {
    flat, ranges := [], [];
    for i := 0 to |groups|
      invariant flat == Flat(groups[..i]) && ranges == Ranges(groups[..i])
    {
      assert groups[..i + 1][..i] == groups[..i];
      var first := |flat| / 3;
      flat := PushMembers(flat, groups[i].members);
      ranges := ranges + [first, |groups[i].members|];
    }
    assert groups[..|groups|] == groups;
    offs, chars := IdTables(groups);
  }

  method WriteHeader(buffer: array<Byte>, src: Source, flags: nat, v: nat, t: nat, p: nat, sectionCount: nat)
    requires src.Boxed() && buffer.Length >= 64 && Written(buffer, [])
    requires flags == Flags(src) && sectionCount == |Sections(src)|
    requires v == |src.positions| / 3 && t == |Flat(src.faces)| / 3 && p == |Flat(src.edges)| / 3
    modifies buffer
    ensures Written(buffer, WordsBytes(HeaderWords(src)))
  {
    ghost var w := HeaderWords(src);
    AtMostEleven(src);
    HeaderAt(src);
    assert WordsBytes(w[..0]) == [];
    hide WordsBytes, Zeros, HeaderWords, Flat, Flags, Sections, Written;
    WriteCounts(buffer, src, flags, v, t, p, sectionCount, w);
    WriteBox(buffer, src.bbox, w);
    assert w[..14] + [0, 0] == w;
    ReservedWords(buffer, w[..14]);
  }

  /** The first eight words. */
  method WriteCounts(
    buffer: array<Byte>, src: Source, flags: nat, v: nat, t: nat, p: nat, sectionCount: nat, ghost w: seq<nat>)
    requires buffer.Length >= 64 && |w| == 16 && Written(buffer, WordsBytes(w[..0]))
    requires flags < 0x1_0000 && sectionCount < 0x1_0000
    requires w[0] == MAGIC && w[1] == 1 + 0x1_0000 * flags && w[2] == v && w[3] == t && w[4] == |src.faces|
    requires w[5] == |src.edges| && w[6] == p && w[7] == src.lod % 0x1_0000 + 0x1_0000 * sectionCount
    modifies buffer
    ensures Written(buffer, WordsBytes(w[..8]))
  {
    hide WordsBytes, Zeros, Written;
    SetUint32(buffer, 0x00, MAGIC, w, 0);
    SetUint16Pair(buffer, 0x04, 1, flags, w, 1);
    SetUint32(buffer, 0x08, v, w, 2);
    SetUint32(buffer, 0x0c, t, w, 3);
    SetUint32(buffer, 0x10, |src.faces|, w, 4);
    SetUint32(buffer, 0x14, |src.edges|, w, 5);
    SetUint32(buffer, 0x18, p, w, 6);
    SetUint16Pair(buffer, 0x1c, src.lod, sectionCount, w, 7);
  }

  /** The six words of the bounding box. */
  method WriteBox(buffer: array<Byte>, bbox: seq<Word>, ghost w: seq<nat>)
    requires buffer.Length >= 64 && |w| == 16 && |bbox| == 6 && Written(buffer, WordsBytes(w[..8]))
    requires forall i :: 0 <= i < 6 ==> w[8 + i] == bbox[i]
    modifies buffer
    ensures Written(buffer, WordsBytes(w[..14]))
  {
    hide WordsBytes, Zeros, Written;
    SetUint32(buffer, 0x20, bbox[0], w, 8);
    SetUint32(buffer, 0x24, bbox[1], w, 9);
    SetUint32(buffer, 0x28, bbox[2], w, 10);
    SetUint32(buffer, 0x2c, bbox[3], w, 11);
    SetUint32(buffer, 0x30, bbox[4], w, 12);
    SetUint32(buffer, 0x34, bbox[5], w, 13);
  }

  lemma AtMostEleven(src: Source)
    ensures 5 <= |Sections(src)| <= 11
  {
  }

  lemma HeaderAt(src: Source)
    requires src.Boxed()
    ensures var w := HeaderWords(src);
      && w[0] == MAGIC && w[1] == 1 + 0x1_0000 * Flags(src) && w[2] == |src.positions| / 3
        && w[3] == |Flat(src.faces)| / 3
      && w[4] == |src.faces| && w[5] == |src.edges| && w[6] == |Flat(src.edges)| / 3
      && w[7] == src.lod % 0x1_0000 + 0x1_0000 * |Sections(src)|
      && (forall i :: 0 <= i < 6 ==> w[8 + i] == src.bbox[i]) && w[14] == 0 && w[15] == 0
  {
  }

  /** The reserved words are already zero. */
  lemma ReservedWords(buffer: array<Byte>, w: seq<nat>)
    requires 4 * |w| + 8 <= buffer.Length && Written(buffer, WordsBytes(w))
    ensures Written(buffer, WordsBytes(w + [0, 0]))
  {
    WordsConcat(w, [0, 0]);
    TwoZeroWords();
    ZerosWritten(buffer, WordsBytes(w), 8);
  }

  lemma TwoZeroWords()
    ensures WordsBytes([0, 0]) == Zeros(8)
  {
    assert [0, 0][..1] == [0] && [0][..0] == [];
    assert WordsBytes([0]) == Le32(0);
  }

  lemma ZerosWritten(buffer: array<Byte>, done: Bytes, n: nat)
    requires |done| + n <= buffer.Length && Written(buffer, done)
    ensures Written(buffer, done + Zeros(n))
  {
    var rest := buffer.Length - |done|;
    assert Zeros(rest) == Zeros(n) + Zeros(rest - n);
  }

  method WriteTable(buffer: array<Byte>, sections: seq<Section>, offsets: seq<nat>, start: nat, ghost header: seq<nat>)
    requires |header| == 16 && start == 64 + 16 * |sections| && buffer.Length >= start
    requires |offsets| == |sections| && forall k :: 0 <= k < |sections| ==> offsets[k] == Offset(start, sections, k)
    requires Written(buffer, WordsBytes(header))
    modifies buffer
    ensures Written(buffer, WordsBytes(header + TableWords(start, sections)))
  {
    ghost var w := header + TableWords(start, sections);
    assert w[..16] == header;
    hide WordsBytes, Zeros, Offset, TableWords, Written;
    for i := 0 to |sections|
      invariant Written(buffer, WordsBytes(w[..16 + 4 * i]))
    {
      var base := HEADER_BYTES + i * TABLE_ENTRY_BYTES;
      var s := sections[i];
      TableAt(start, sections, i);
      SetUint32(buffer, base, s.ty, w, 16 + 4 * i);
      SetUint32(buffer, base + 0x04, 0, w, 17 + 4 * i);
      SetUint32(buffer, base + 0x08, offsets[i], w, 18 + 4 * i);
      SetUint32(buffer, base + 0x0c, |s.bytes|, w, 19 + 4 * i);
    }
    assert w[..16 + 4 * |sections|] == w;
  }

  lemma {:induction false} TableAt(start: nat, sections: seq<Section>, i: nat)
    requires i < |sections|
    ensures var w := TableWords(start, sections);
      && w[4 * i] == sections[i].ty && w[4 * i + 1] == 0
      && w[4 * i + 2] == Offset(start, sections, i) && w[4 * i + 3] == |sections[i].bytes|
  {
    var n := |sections| - 1;
    if i < n {
      TableAt(start, sections[..n], i);
      assert sections[..n][..i] == sections[..i];
    }
  }

  method WriteSections(buffer: array<Byte>, sections: seq<Section>, offsets: seq<nat>, ghost before: Bytes)
    requires |offsets| == |sections| && forall k :: 0 <= k < |sections| ==> offsets[k] == Offset(|before|, sections, k)
    requires buffer.Length >= EndOf(|before|, sections) && Written(buffer, before)
    modifies buffer
    ensures Written(buffer, Layout(before, sections))
  {
    assert sections[..0] == [];
    for i := 0 to |sections|
      invariant Written(buffer, Layout(before, sections[..i]))
    {
      assert sections[..i + 1][..i] == sections[..i];
      EndGrows(|before|, sections, i + 1);
      WriteAt(buffer, offsets[i], sections[i].bytes, Layout(before, sections[..i]));
    }
    assert sections[..|sections|] == sections;
  }

  lemma {:induction false} EndGrows(start: nat, sections: seq<Section>, i: nat)
    requires i <= |sections|
    ensures EndOf(start, sections[..i]) <= EndOf(start, sections)
    decreases |sections| - i
  {
    if i == |sections| {
      assert sections[..i] == sections;
    } else {
      assert sections[..i + 1][..i] == sections[..i];
      EndGrows(start, sections, i + 1);
    }
  }

  /** Encodes the mesh into one fresh buffer, or refuses positions that are not triples. */
  method EncodeMesh1(src: Source) returns (r: Option<array<Byte>>)
    requires src.Boxed() && Fits(src)
    ensures r.Some? <==> |src.positions| % 3 == 0
    ensures r.Some? ==> fresh(r.value) && r.value[..] == Image(src)
  {
    hide WordsBytes, Flat, Ranges, IdOffs, IdChars, Image, Zeros, Fits;
    if |src.positions| % 3 != 0 {
      return None;
    }
    var indices, faceRanges, faceIdOffs, faceChars := GroupArrays(src.faces);
    var edgePositions, edgeRanges, edgeIdOffs, edgeChars := GroupArrays(src.edges);
    var flags := 0;
    if src.normals.Some? {
      flags := flags + 1;
    }
    if |src.edges| > 0 {
      flags := flags + 2;
    }
    if src.faceBboxes.Some? {
      flags := flags + 4;
    }
    if src.idsHaveElementIds {
      flags := flags + 8;
    }
    assert flags == Flags(src);
    var sections := [Section(1, WordsBytes(src.positions))];
    if src.normals.Some? {
      sections := sections + [Section(2, WordsBytes(src.normals.value))];
    }
    sections := sections + [Section(3, WordsBytes(indices)), Section(4, WordsBytes(faceRanges)),
                            Section(5, WordsBytes(faceIdOffs)), Section(6, faceChars)];
    if |src.edges| > 0 {
      sections := sections + [Section(7, WordsBytes(edgeRanges)), Section(8, WordsBytes(edgePositions)),
                              Section(9, WordsBytes(edgeIdOffs)), Section(10, edgeChars)];
    }
    if src.faceBboxes.Some? {
      sections := sections + [Section(11, WordsBytes(src.faceBboxes.value))];
    }
    assert sections == Sections(src);
    var buffer := Place(src, sections, flags, |src.positions| / 3, |indices| / 3, |edgePositions| / 3);
    r := Some(buffer);
  }

  /** Places the sections, then writes header, table and data. */
  method Place(src: Source, sections: seq<Section>, flags: nat, v: nat, t: nat, p: nat) returns (buffer: array<Byte>)
    requires src.Boxed() && sections == Sections(src) && flags == Flags(src)
    requires v == |src.positions| / 3 && t == |Flat(src.faces)| / 3 && p == |Flat(src.edges)| / 3
    ensures fresh(buffer) && buffer[..] == Image(src)
  {
    var tableEnd := HEADER_BYTES + |sections| * TABLE_ENTRY_BYTES;
    var offsets, cursor := Offsets(sections, tableEnd);
    EndGrows(tableEnd, sections, 0);
    buffer := new Byte[Align4(cursor)](_ => 0);
    hide *;
    assert tableEnd == TableEnd(src) && cursor == EndOf(tableEnd, sections) by {
      TableEndIs(src);
    }
    WriteHeader(buffer, src, flags, v, t, p, |sections|);
    WriteTable(buffer, sections, offsets, tableEnd, HeaderWords(src));
    PrefixIs(src);
    WriteSections(buffer, sections, offsets, Prefix(src));
  }

  lemma TableEndIs(src: Source)
    ensures TableEnd(src) == 64 + 16 * |Sections(src)|
  {
  }

  lemma PrefixIs(src: Source)
    requires src.Boxed()
    ensures Prefix(src) == WordsBytes(HeaderWords(src) + TableWords(TableEnd(src), Sections(src)))
  {
  }

  method Offsets(sections: seq<Section>, tableEnd: nat) returns (offsets: seq<nat>, cursor: nat)
    ensures |offsets| == |sections| && forall k :: 0 <= k < |sections| ==> offsets[k] == Offset(tableEnd, sections, k)
    ensures cursor == EndOf(tableEnd, sections)
  {
    cursor, offsets := tableEnd, [];
    for i := 0 to |sections|
      invariant |offsets| == i && cursor == EndOf(tableEnd, sections[..i])
      invariant forall k :: 0 <= k < i ==> offsets[k] == Offset(tableEnd, sections, k)
    {
      assert sections[..i + 1][..i] == sections[..i];
      var offset := Align4(cursor);
      cursor := offset + |sections[i].bytes|;
      offsets := offsets + [offset];
    }
    assert sections[..|sections|] == sections;
  }
}
