/**
 The building blocks of a MESH1 mesh: little-endian words of two and four bytes, lists of words and
 their views, and the arrays a list of faces or edges is flattened into (triples, ranges, offsets and
 id characters). Each is paired with its reading, and the lemmas say that the two are inverse. The
 layout of the whole is in `Mesh1Codec`, the parser in `Mesh1Parser`.
 */
module Mesh1 {
  import opened Wrappers

  type Byte = b: nat | b < 256
  type Bytes = seq<Byte>

  /** A 32-bit word; a float is the word of its bits. */
  type Word = w: nat | w < 0x1_0000_0000

  const HEADER_BYTES := 64
  const TABLE_ENTRY_BYTES := 16
  const MAGIC: Word := 0x4d455348

  // ── Little-endian words ────────────────────────────────────────────────────

  /** Four bytes of `n`, wrapped to 32 bits as a typed array or a data view wraps it. */
  function Le32(n: nat): (r: Bytes)
    ensures |r| == 4
  {
    [n % 256, n / 0x100 % 256, n / 0x1_0000 % 256, n / 0x100_0000 % 256]
  }

  function Le16(n: nat): (r: Bytes)
    ensures |r| == 2
  {
    [n % 256, n / 0x100 % 256]
  }

  function FromLe32(b: Bytes): Word
    requires |b| == 4
  {
    var b0: nat, b1: nat, b2: nat, b3: nat := b[0], b[1], b[2], b[3];
    b0 + 0x100 * b1 + 0x1_0000 * b2 + 0x100_0000 * b3
  }

  lemma WordRoundTrip(w: Word)
    ensures FromLe32(Le32(w)) == w
  {
    var q := w / 0x100;
    assert q / 0x100 == w / 0x1_0000 && q / 0x100 / 0x100 == w / 0x100_0000;
  }

  lemma Quotient256(lo: nat, hi: nat)
    requires lo < 0x100
    ensures (lo + 0x100 * hi) / 0x100 == hi && (lo + 0x100 * hi) % 0x100 == lo
  {
  }

  lemma Quotient65536(lo: nat, hi: nat)
    requires lo < 0x1_0000
    ensures (lo + 0x1_0000 * hi) / 0x1_0000 == hi && (lo + 0x1_0000 * hi) % 0x1_0000 == lo
  {
  }

  lemma Quotient2To24(lo: nat, hi: nat)
    requires lo < 0x100_0000
    ensures (lo + 0x100_0000 * hi) / 0x100_0000 == hi
  {
  }

  lemma Digits(n: nat, b0: nat, b1: nat, b2: nat, b3: nat)
    requires b0 < 256 && b1 < 256 && b2 < 256 && b3 < 256
    requires n == b0 + 0x100 * b1 + 0x1_0000 * b2 + 0x100_0000 * b3
    ensures Le32(n) == [b0, b1, b2, b3]
  {
    Quotient256(b0, b1 + 0x100 * b2 + 0x1_0000 * b3);
    Quotient256(b1, b2 + 0x100 * b3);
    Quotient256(b2, b3);
    Quotient65536(b0 + 0x100 * b1, b2 + 0x100 * b3);
    Quotient2To24(b0 + 0x100 * b1 + 0x1_0000 * b2, b3);
  }

  lemma TwoHalves(lo: nat, hi: nat)
    requires lo < 0x1_0000 && hi < 0x1_0000
    ensures Le16(lo) + Le16(hi) == Le32(lo + 0x1_0000 * hi)
  {
    Digits(lo + 0x1_0000 * hi, lo % 0x100, lo / 0x100, hi % 0x100, hi / 0x100);
  }

  function WordsBytes(ws: seq<nat>): (r: Bytes)
    ensures |r| == 4 * |ws|
  {
    if ws == [] then [] else WordsBytes(ws[..|ws| - 1]) + Le32(ws[|ws| - 1])
  }

  lemma WordsSnoc(ws: seq<nat>, w: nat)
    ensures WordsBytes(ws + [w]) == WordsBytes(ws) + Le32(w)
  {
    assert (ws + [w])[..|ws|] == ws;
  }

  lemma {:induction false} WordsConcat(xs: seq<nat>, ys: seq<nat>)
    ensures WordsBytes(xs + ys) == WordsBytes(xs) + WordsBytes(ys)
    decreases |ys|
  {
    if ys == [] {
      assert xs + ys == xs;
    } else {
      assert xs + ys == xs + ys[..|ys| - 1] + [ys[|ys| - 1]];
      WordsSnoc(xs + ys[..|ys| - 1], ys[|ys| - 1]);
      WordsConcat(xs, ys[..|ys| - 1]);
    }
  }

  lemma {:induction false} WordAt(ws: seq<nat>, k: nat)
    requires k < |ws|
    ensures WordsBytes(ws)[4 * k..4 * k + 4] == Le32(ws[k])
  {
    var n := |ws| - 1;
    if k < n {
      WordAt(ws[..n], k);
      assert WordsBytes(ws)[4 * k..4 * k + 4] == WordsBytes(ws[..n])[4 * k..4 * k + 4];
    }
  }

  /** A word view over bytes. */
  function ReadWords(b: Bytes): (r: seq<Word>)
    requires |b| % 4 == 0
    ensures |r| == |b| / 4
  {
    seq(|b| / 4, k requires 0 <= k < |b| / 4 => FromLe32(b[4 * k..4 * k + 4]))
  }

  lemma ReadAt(b: Bytes, k: nat)
    requires |b| % 4 == 0 && k < |b| / 4
    ensures ReadWords(b)[k] == FromLe32(b[4 * k..4 * k + 4])
  {
  }

  lemma OneBack(ws: seq<nat>, k: nat)
    requires k < |ws| && ws[k] < 0x1_0000_0000
    ensures ReadWords(WordsBytes(ws))[k] == ws[k]
  {
    hide Le32, FromLe32, WordsBytes, ReadWords;
    ReadAt(WordsBytes(ws), k);
    WordAt(ws, k);
    WordRoundTrip(ws[k]);
  }

  lemma ReadBack(ws: seq<nat>)
    requires forall k :: 0 <= k < |ws| ==> ws[k] < 0x1_0000_0000
    ensures ReadWords(WordsBytes(ws)) == ws
  {
    hide WordsBytes, ReadWords;
    forall k | 0 <= k < |ws|
      ensures ReadWords(WordsBytes(ws))[k] == ws[k]
    {
      OneBack(ws, k);
    }
  }

  // ── Sources ────────────────────────────────────────────────────────────────

  type Triple = (Word, Word, Word)

  /** A face with its triangles, or an edge with its points: triples grouped under an id in UTF-8. */
  datatype Group = Group(members: seq<Triple>, id: Bytes)

  /** The two boxes the encoder computes or is given are words of the source here. */
  datatype Source = Source(
    positions: seq<Word>, normals: Option<seq<Word>>, faces: seq<Group>, edges: seq<Group>,
    lod: nat, bbox: seq<Word>, idsHaveElementIds: bool, faceBboxes: Option<seq<Word>>)
  {
    /** A bounding box has six words, and so has each face's. */
    predicate Boxed() {
      |bbox| == 6 && (faceBboxes.Some? ==> |faceBboxes.value| == 6 * |faces|)
    }
  }

  function Flatten(members: seq<Triple>): (r: seq<Word>)
    ensures |r| == 3 * |members|
  {
    if members == [] then []
    else
      var t := members[|members| - 1];
      Flatten(members[..|members| - 1]) + [t.0, t.1, t.2]
  }

  function Flat(groups: seq<Group>): (r: seq<Word>)
    ensures |r| % 3 == 0
  {
    if groups == [] then [] else Flat(groups[..|groups| - 1]) + Flatten(groups[|groups| - 1].members)
  }

  /** First member and member count, group by group. */
  function Ranges(groups: seq<Group>): (r: seq<nat>)
    ensures |r| == 2 * |groups|
  {
    if groups == [] then []
    else
      var n := |groups| - 1;
      Ranges(groups[..n]) + [|Flat(groups[..n])| / 3, |groups[n].members|]
  }

  function IdChars(groups: seq<Group>): Bytes {
    if groups == [] then [] else IdChars(groups[..|groups| - 1]) + groups[|groups| - 1].id
  }

  function IdOffs(groups: seq<Group>): (r: seq<nat>)
    ensures |r| == |groups| + 1
  {
    if groups == [] then [0] else IdOffs(groups[..|groups| - 1]) + [|IdChars(groups)|]
  }

  /** Three words from `at`. */
  function TripleAt(flat: seq<Word>, at: nat): Triple
    requires at + 3 <= |flat|
  {
    (flat[at], flat[at + 1], flat[at + 2])
  }

  predicate InBounds(flat: seq<Word>, ranges: seq<nat>, offs: seq<nat>, chars: Bytes, i: nat)
    requires 2 * i + 1 < |ranges| && i + 1 < |offs|
  {
    3 * (ranges[2 * i] + ranges[2 * i + 1]) <= |flat| && offs[i] <= offs[i + 1] <= |chars|
  }

  function GroupAt(flat: seq<Word>, ranges: seq<nat>, offs: seq<nat>, chars: Bytes, i: nat): Group
    requires 2 * i + 1 < |ranges| && i + 1 < |offs| && InBounds(flat, ranges, offs, chars, i)
  {
    Group(seq(ranges[2 * i + 1], k requires 0 <= k < ranges[2 * i + 1] => TripleAt(flat, 3 * (ranges[2 * i] + k))),
          chars[offs[i]..offs[i + 1]])
  }

  lemma SliceOfFirst<T>(xs: seq<T>, ys: seq<T>, a: nat, b: nat)
    requires a <= b <= |xs|
    ensures (xs + ys)[a..b] == xs[a..b]
  {
  }

  lemma {:induction false} FlatPrefix(groups: seq<Group>, i: nat)
    requires i < |groups|
    ensures var a, b := |Flat(groups[..i])|, |Flat(groups[..i])| + 3 * |groups[i].members|;
      b <= |Flat(groups)| && Flat(groups)[a..b] == Flatten(groups[i].members)
  {
    var n := |groups| - 1;
    assert Flat(groups) == Flat(groups[..n]) + Flatten(groups[n].members);
    hide Flat, Flatten;
    if i < n {
      FlatPrefix(groups[..n], i);
      assert groups[..n][..i] == groups[..i];
      var a, b := |Flat(groups[..i])|, |Flat(groups[..i])| + 3 * |groups[i].members|;
      SliceOfFirst(Flat(groups[..n]), Flatten(groups[n].members), a, b);
    }
  }

  lemma {:induction false} FlattenAt(members: seq<Triple>, k: nat)
    requires k < |members|
    ensures (Flatten(members)[3 * k], Flatten(members)[3 * k + 1], Flatten(members)[3 * k + 2]) == members[k]
  {
    if k < |members| - 1 {
      FlattenAt(members[..|members| - 1], k);
    }
  }

  lemma {:induction false} RangesAt(groups: seq<Group>, i: nat)
    requires i < |groups|
    ensures Ranges(groups)[2 * i] == |Flat(groups[..i])| / 3 && Ranges(groups)[2 * i + 1] == |groups[i].members|
  {
    var n := |groups| - 1;
    if i < n {
      RangesAt(groups[..n], i);
      assert groups[..n][..i] == groups[..i];
    }
  }

  lemma {:induction false} IdsAt(groups: seq<Group>, i: nat)
    requires i < |groups|
    ensures var offs := IdOffs(groups);
      && offs[i] == |IdChars(groups[..i])| && offs[i + 1] == offs[i] + |groups[i].id|
      && offs[i + 1] <= |IdChars(groups)| && IdChars(groups)[offs[i]..offs[i + 1]] == groups[i].id
  {
    var n := |groups| - 1;
    var init, offs := groups[..n], IdOffs(groups);
    assert IdChars(groups) == IdChars(init) + groups[n].id;
    assert offs == IdOffs(init) + [|IdChars(groups)|];
    LastOff(init);
    hide IdChars, IdOffs;
    if i < n {
      IdsAt(init, i);
      assert init[..i] == groups[..i];
      SliceOfFirst(IdChars(init), groups[n].id, offs[i], offs[i + 1]);
    }
  }

  lemma LastOff(groups: seq<Group>)
    ensures IdOffs(groups)[|groups|] == |IdChars(groups)|
  {
  }

  lemma GroupAtReads(flat: seq<Word>, ranges: seq<nat>, offs: seq<nat>, chars: Bytes, i: nat, group: Group)
    requires 2 * i + 1 < |ranges| && i + 1 < |offs| && InBounds(flat, ranges, offs, chars, i)
    requires ranges[2 * i + 1] == |group.members| && chars[offs[i]..offs[i + 1]] == group.id
    requires forall k :: 0 <= k < |group.members| ==> TripleAt(flat, 3 * (ranges[2 * i] + k)) == group.members[k]
    ensures GroupAt(flat, ranges, offs, chars, i) == group
  {
    hide TripleAt;
    assert GroupAt(flat, ranges, offs, chars, i).members == group.members;
  }

  /** The ranges and offsets give every group back: its triples and its id. */
  lemma GroupReads(groups: seq<Group>, i: nat)
    requires i < |groups|
    ensures InBounds(Flat(groups), Ranges(groups), IdOffs(groups), IdChars(groups), i)
    ensures GroupAt(Flat(groups), Ranges(groups), IdOffs(groups), IdChars(groups), i) == groups[i]
  {
    hide Flat, Flatten, Ranges, IdOffs, IdChars, GroupAt, TripleAt;
    RangesAt(groups, i);
    FlatPrefix(groups, i);
    IdsAt(groups, i);
    forall k | 0 <= k < |groups[i].members|
      ensures TripleAt(Flat(groups), 3 * (Ranges(groups)[2 * i] + k)) == groups[i].members[k]
    {
      TripleReads(groups, i, k);
    }
    GroupAtReads(Flat(groups), Ranges(groups), IdOffs(groups), IdChars(groups), i, groups[i]);
  }

  lemma TripleReads(groups: seq<Group>, i: nat, k: nat)
    requires i < |groups| && k < |groups[i].members|
    requires var a := |Flat(groups[..i])|; var b := a + 3 * |groups[i].members|;
      b <= |Flat(groups)| && Flat(groups)[a..b] == Flatten(groups[i].members)
    requires 3 * Ranges(groups)[2 * i] == |Flat(groups[..i])|
    ensures TripleAt(Flat(groups), 3 * (Ranges(groups)[2 * i] + k)) == groups[i].members[k]
  {
    hide Flat, Flatten, Ranges;
    var a := |Flat(groups[..i])|;
    FlattenAt(groups[i].members, k);
    TripleWithin(Flat(groups), a, a + 3 * |groups[i].members|, 3 * k);
  }

  lemma TripleWithin(flat: seq<Word>, a: nat, b: nat, at: nat)
    requires a + at + 3 <= b <= |flat|
    ensures TripleAt(flat, a + at) == TripleAt(flat[a..b], at)
  {
  }
}
