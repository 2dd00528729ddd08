/** Reassembly of a mesh streamed in chunks, and the integrity fields around it. */
module ChunkStream {
  import opened Permutations
  import opened Wrappers

  type Bytes = seq<bv8>

  datatype Chunk = Chunk(start: nat, bytes: Bytes) {
    function End(): nat { start + |bytes| }
    predicate Covers(j: nat) { start <= j < End() }
    predicate Empty() { |bytes| == 0 }
  }

  datatype Frame =
    | Manifest(totalBytes: Option<nat>, sha256: Option<string>)
    | Data(byteOffset: Option<nat>, bytes: Bytes)

  type Segment = (nat, nat)

  datatype StreamError =
    | Gap | Overlap | NotCovering
    | NoMeshes | SectionMissing | SectionOutOfRange | NoFrames | NoHandle
    | TotalMismatch | ShaMismatch | WrongLength | WrongHash | BadHeader

  // ── What a list of chunks says, whatever their order ───────────────────────

  /** How many chunks cover position `j`. */
  function Covering(chunks: seq<Chunk>, j: nat): nat {
    if chunks == [] then 0
    else Covering(chunks[..|chunks| - 1], j) + if chunks[|chunks| - 1].Covers(j) then 1 else 0
  }

  /** Every position below `end` is in exactly one chunk, and no chunk reaches past it. */
  ghost predicate Tiles(chunks: seq<Chunk>, end: nat) {
    && (forall j: nat :: Covering(chunks, j) == if j < end then 1 else 0)
    && (forall i :: 0 <= i < |chunks| ==> chunks[i].End() <= end)
  }

  predicate NonEmpty(chunks: seq<Chunk>) {
    forall i :: 0 <= i < |chunks| ==> !chunks[i].Empty()
  }

  lemma {:induction false} CoveringConcat(xs: seq<Chunk>, ys: seq<Chunk>, j: nat)
    ensures Covering(xs + ys, j) == Covering(xs, j) + Covering(ys, j)
    decreases |ys|
  {
    if ys == [] {
      assert xs + ys == xs;
    } else {
      assert (xs + ys)[..|xs + ys| - 1] == xs + ys[..|ys| - 1];
      CoveringConcat(xs, ys[..|ys| - 1], j);
    }
  }

  /** A chunk that covers `j` is counted at `j`, and two different places count twice. */
  lemma CoveringSplit(chunks: seq<Chunk>, i: nat, j: nat)
    requires i < |chunks|
    ensures Covering(chunks, j) == Covering(chunks[..i] + chunks[i + 1..], j) + if chunks[i].Covers(j) then 1 else 0
  {
    assert chunks == chunks[..i] + ([chunks[i]] + chunks[i + 1..]);
    CoveringConcat(chunks[..i], [chunks[i]] + chunks[i + 1..], j);
    CoveringConcat([chunks[i]], chunks[i + 1..], j);
    CoveringConcat(chunks[..i], chunks[i + 1..], j);
  }

  lemma OnlyCover(chunks: seq<Chunk>, i: nat, k: nat, j: nat)
    requires i < |chunks| && k < |chunks| && Covering(chunks, j) <= 1
    requires chunks[i].Covers(j) && chunks[k].Covers(j)
    ensures i == k
  {
    if i != k {
      CoveringSplit(chunks, i, j);
      var rest := chunks[..i] + chunks[i + 1..];
      var k' := if k < i then k else k - 1;
      assert rest[k'] == chunks[k];
      CoveringSplit(rest, k', j);
    }
  }

  lemma {:induction false} SomeCover(chunks: seq<Chunk>, j: nat) returns (i: nat)
    requires Covering(chunks, j) > 0
    ensures i < |chunks| && chunks[i].Covers(j)
  {
    var n := |chunks| - 1;
    if chunks[n].Covers(j) {
      i := n;
    } else {
      i := SomeCover(chunks[..n], j);
    }
  }

  lemma {:induction false} CoveringPermuted(xs: seq<Chunk>, ys: seq<Chunk>, j: nat)
    requires multiset(xs) == multiset(ys)
    ensures Covering(xs, j) == Covering(ys, j)
    decreases |xs|
  {
    if xs == [] {
      assert |multiset(ys)| == 0;
    } else {
      var n := |xs| - 1;
      var k := RemoveLast(xs, ys);
      CoveringSplit(ys, k, j);
      CoveringPermuted(xs[..n], ys[..k] + ys[k + 1..], j);
    }
  }

  /** The byte that the last chunk covering `j` has there; zero where there is none. */
  function LastByte(chunks: seq<Chunk>, j: nat): bv8 {
    if chunks == [] then 0
    else
      var c := chunks[|chunks| - 1];
      if c.Covers(j) then c.bytes[j - c.start] else LastByte(chunks[..|chunks| - 1], j)
  }

  lemma {:induction false} ByteOfCover(chunks: seq<Chunk>, i: nat, j: nat)
    requires i < |chunks| && chunks[i].Covers(j) && Covering(chunks, j) == 1
    ensures LastByte(chunks, j) == chunks[i].bytes[j - chunks[i].start]
  {
    var n := |chunks| - 1;
    if chunks[n].Covers(j) {
      OnlyCover(chunks, i, n, j);
    } else {
      ByteOfCover(chunks[..n], i, j);
    }
  }

  function MaxEnd(chunks: seq<Chunk>): nat {
    if chunks == [] then 0
    else
      var rest, end := MaxEnd(chunks[..|chunks| - 1]), chunks[|chunks| - 1].End();
      if end > rest then end else rest
  }

  lemma {:induction false} EndsBelow(chunks: seq<Chunk>)
    ensures forall i :: 0 <= i < |chunks| ==> chunks[i].End() <= MaxEnd(chunks)
  {
    if chunks != [] {
      EndsBelow(chunks[..|chunks| - 1]);
      assert forall i :: 0 <= i < |chunks| - 1 ==> chunks[..|chunks| - 1][i] == chunks[i];
    }
  }

  lemma {:induction false} LastEnd(chunks: seq<Chunk>) returns (i: nat)
    requires chunks != []
    ensures i < |chunks| && chunks[i].End() == MaxEnd(chunks)
  {
    var n := |chunks| - 1;
    if n == 0 || chunks[n].End() > MaxEnd(chunks[..n]) {
      i := n;
    } else {
      i := LastEnd(chunks[..n]);
    }
  }

  function SegmentsOf(chunks: seq<Chunk>): (r: seq<Segment>)
    ensures |r| == |chunks| && forall i :: 0 <= i < |chunks| ==> r[i] == (chunks[i].start, chunks[i].End())
  {
    seq(|chunks|, i requires 0 <= i < |chunks| => (chunks[i].start, chunks[i].End()))
  }

  // ── Sorting and scanning the segments ──────────────────────────────────────

  predicate Sorted(segs: seq<Segment>) {
    forall i, j :: 0 <= i < j < |segs| ==> segs[i].0 <= segs[j].0
  }

  function Inserted(segs: seq<Segment>, s: Segment): seq<Segment> {
    if segs == [] || segs[|segs| - 1].0 <= s.0 then segs + [s]
    else Inserted(segs[..|segs| - 1], s) + [segs[|segs| - 1]]
  }

  /** The stable sort by start. */
  function SortByStart(segs: seq<Segment>): seq<Segment> {
    if segs == [] then [] else Inserted(SortByStart(segs[..|segs| - 1]), segs[|segs| - 1])
  }

  lemma {:induction false} InsertedBelow(segs: seq<Segment>, s: Segment, bound: nat)
    requires s.0 <= bound && forall i :: 0 <= i < |segs| ==> segs[i].0 <= bound
    ensures forall i :: 0 <= i < |Inserted(segs, s)| ==> Inserted(segs, s)[i].0 <= bound
  {
    if !(segs == [] || segs[|segs| - 1].0 <= s.0) {
      InsertedBelow(segs[..|segs| - 1], s, bound);
    }
  }

  lemma {:induction false} InsertedSorted(segs: seq<Segment>, s: Segment)
    requires Sorted(segs)
    ensures Sorted(Inserted(segs, s))
  {
    if !(segs == [] || segs[|segs| - 1].0 <= s.0) {
      var n := |segs| - 1;
      InsertedSorted(segs[..n], s);
      InsertedBelow(segs[..n], s, segs[n].0);
    }
  }

  lemma {:induction false} InsertedAdds(segs: seq<Segment>, s: Segment)
    ensures multiset(Inserted(segs, s)) == multiset(segs) + multiset{s}
  {
    if !(segs == [] || segs[|segs| - 1].0 <= s.0) {
      var n := |segs| - 1;
      InsertedAdds(segs[..n], s);
      assert segs == segs[..n] + [segs[n]];
    }
  }

  lemma {:induction false} SortSorts(segs: seq<Segment>)
    ensures Sorted(SortByStart(segs)) && multiset(SortByStart(segs)) == multiset(segs)
  {
    if segs != [] {
      var n := |segs| - 1;
      SortSorts(segs[..n]);
      InsertedSorted(SortByStart(segs[..n]), segs[n]);
      InsertedAdds(SortByStart(segs[..n]), segs[n]);
      assert segs == segs[..n] + [segs[n]];
    }
  }

  /** Walks the sorted segments from `cursor`: each must start where the last ended. */
  function Scan(segs: seq<Segment>, cursor: nat): Result<nat, StreamError> {
    if segs == [] then Ok(cursor)
    else if segs[0].0 > cursor then Err(Gap)
    else if segs[0].0 < cursor then Err(Overlap)
    else Scan(segs[1..], segs[0].1)
  }

  datatype Payload = Payload(bytes: Bytes, totalBytes: Option<nat>, sha256: Option<string>)

  function Assembled(chunks: seq<Chunk>): Bytes {
    seq(MaxEnd(chunks), j requires 0 <= j => LastByte(chunks, j))
  }

  /** What finalizing says of the chunks received, in arrival order, and the manifest's fields. */
  function Finalized(
    chunks: seq<Chunk>, totalBytes: Option<nat>, sha256: Option<string>): Result<Payload, StreamError> {
    match Scan(SortByStart(SegmentsOf(chunks)), 0)
    case Err(e) => Err(e)
    case Ok(cursor) =>
      if totalBytes.Some? && cursor != totalBytes.value then Err(NotCovering)
      else Ok(Payload(Assembled(chunks), totalBytes, sha256))
  }

  // ── The accumulator ────────────────────────────────────────────────────────

  class StreamAcc {
    var buf: Bytes
    var totalBytes: Option<nat>
    var sha256: Option<string>
    var segments: seq<Segment>
    ghost var chunks: seq<Chunk>

    ghost predicate Valid()
      reads this
    {
      && segments == SegmentsOf(chunks)
      && buf == Assembled(chunks)
    }

    constructor ()
      ensures Valid() && chunks == [] && totalBytes == None && sha256 == None
    {
      buf, totalBytes, sha256, segments, chunks := [], None, None, [], [];
    }

    /** A manifest replaces the integrity fields; data is written over what is there. */
    method Apply(frame: Frame)
      requires Valid()
      modifies this
      ensures Valid()
      ensures frame.Manifest? ==> chunks == old(chunks) && totalBytes == frame.totalBytes && sha256 == frame.sha256
      ensures frame.Data? ==>
        && chunks == old(chunks) + [Chunk(if frame.byteOffset.Some? then frame.byteOffset.value else 0, frame.bytes)]
        && totalBytes == old(totalBytes) && sha256 == old(sha256)
    {
      match frame {
        case Manifest(t, h) =>
          totalBytes, sha256 := t, h;
        case Data(byteOffset, bytes) =>
          var off := byteOffset.GetOr(0);
          var end := off + |bytes|;
          if |buf| < end {
            buf := buf + seq(end - |buf|, _ => 0);
          }
          assert buf == Grown(old(buf), end);
          buf := buf[..off] + bytes + buf[end..];
          segments := segments + [(off, end)];
          chunks := chunks + [Chunk(off, bytes)];
          AssembledMore(old(chunks), Chunk(off, bytes));
      }
    }

    /** Consumes the stream: the payload if its chunks follow one another from zero. */
    method Finalize() returns (r: Result<Payload, StreamError>)
      requires Valid()
      modifies this`buf
      ensures r == Finalized(chunks, totalBytes, sha256)
    {
      var segs := SortByStart(segments);
      var cursor: nat := 0;
      for i := 0 to |segs|
        invariant Scan(segs, 0) == Scan(segs[i..], cursor)
      {
        var (start, end) := segs[i];
        if start > cursor {
          return Err(Gap);
        } else if start < cursor {
          return Err(Overlap);
        }
        cursor := end;
        assert segs[i..][1..] == segs[i + 1..];
      }
      if totalBytes.Some? {
        if cursor != totalBytes.value {
          return Err(NotCovering);
        }
        ScanEnd(chunks);
        assert buf[..totalBytes.value] == buf;
        buf := buf[..totalBytes.value];
      }
      return Ok(Payload(buf, totalBytes, sha256));
    }
  }

  /** The buffer grown to hold what ends at `end`, with zeros where nothing was received. */
  function Grown(buf: Bytes, end: nat): Bytes {
    if |buf| < end then buf + seq(end - |buf|, _ => 0) else buf
  }

  lemma GrownBytes(chunks: seq<Chunk>, end: nat)
    ensures var grown := Grown(Assembled(chunks), end);
      && |grown| == (if MaxEnd(chunks) < end then end else MaxEnd(chunks))
      && forall j :: 0 <= j < |grown| ==> grown[j] == LastByte(chunks, j)
  {
    forall j: nat | j >= MaxEnd(chunks)
      ensures LastByte(chunks, j) == 0
    {
      NoByte(chunks, j);
    }
  }

  lemma AssembledMore(chunks: seq<Chunk>, c: Chunk)
    ensures var grown := Grown(Assembled(chunks), c.End());
      && c.End() <= |grown|
      && Assembled(chunks + [c]) == grown[..c.start] + c.bytes + grown[c.End()..]
    ensures SegmentsOf(chunks + [c]) == SegmentsOf(chunks) + [(c.start, c.End())]
  {
    GrownBytes(chunks, c.End());
    var grown, more := Grown(Assembled(chunks), c.End()), chunks + [c];
    hide Grown;
    assert more[..|more| - 1] == chunks;
    var written := grown[..c.start] + c.bytes + grown[c.End()..];
    assert |written| == MaxEnd(more);
    forall j | 0 <= j < |written|
      ensures written[j] == LastByte(more, j)
    {
      if c.End() <= j {
        assert written[j] == grown[j];
      }
    }
  }

  lemma {:induction false} NoByte(chunks: seq<Chunk>, j: nat)
    requires j >= MaxEnd(chunks)
    ensures LastByte(chunks, j) == 0
  {
    if chunks != [] {
      NoByte(chunks[..|chunks| - 1], j);
    }
  }

  // ── Success means the chunks tile the payload ──────────────────────────────

  predicate Counted(s: Segment, j: nat) {
    s.0 <= j < s.1
  }

  function Count(segs: seq<Segment>, j: nat): nat {
    if segs == [] then 0 else (if Counted(segs[0], j) then 1 else 0) + Count(segs[1..], j)
  }

  lemma {:induction false} CountConcat(xs: seq<Segment>, ys: seq<Segment>, j: nat)
    ensures Count(xs + ys, j) == Count(xs, j) + Count(ys, j)
  {
    if xs == [] {
      assert xs + ys == ys;
    } else {
      assert (xs + ys)[1..] == xs[1..] + ys;
      CountConcat(xs[1..], ys, j);
    }
  }

  lemma {:induction false} CountInserted(segs: seq<Segment>, s: Segment, j: nat)
    ensures Count(Inserted(segs, s), j) == Count(segs, j) + if Counted(s, j) then 1 else 0
  {
    assert Count([s], j) == (if Counted(s, j) then 1 else 0) + Count([s][1..], j);
    if segs == [] || segs[|segs| - 1].0 <= s.0 {
      CountConcat(segs, [s], j);
    } else {
      var n := |segs| - 1;
      CountInserted(segs[..n], s, j);
      CountConcat(Inserted(segs[..n], s), [segs[n]], j);
      CountConcat(segs[..n], [segs[n]], j);
      assert segs == segs[..n] + [segs[n]];
    }
  }

  lemma {:induction false} CountSorted(chunks: seq<Chunk>, j: nat)
    ensures Count(SortByStart(SegmentsOf(chunks)), j) == Covering(chunks, j)
  {
    if chunks != [] {
      var n := |chunks| - 1;
      assert SegmentsOf(chunks)[..n] == SegmentsOf(chunks[..n]);
      CountSorted(chunks[..n], j);
      CountInserted(SortByStart(SegmentsOf(chunks[..n])), SegmentsOf(chunks)[n], j);
    }
  }

  ghost predicate Ordered(segs: seq<Segment>) {
    forall i :: 0 <= i < |segs| ==> segs[i].0 <= segs[i].1
  }

  /** A scan that succeeds has passed every position from `cursor` to its end exactly once. */
  lemma {:induction false} ScanCounts(segs: seq<Segment>, cursor: nat, j: nat)
    requires Ordered(segs) && Scan(segs, cursor).Ok?
    ensures cursor <= Scan(segs, cursor).value
    ensures Count(segs, j) == if cursor <= j < Scan(segs, cursor).value then 1 else 0
    ensures forall i :: 0 <= i < |segs| ==> segs[i].1 <= Scan(segs, cursor).value
    ensures segs == [] ==> Scan(segs, cursor).value == cursor
    ensures segs != [] ==> exists i :: 0 <= i < |segs| && segs[i].1 == Scan(segs, cursor).value
  {
    if segs != [] {
      ScanCounts(segs[1..], segs[0].1, j);
      assert forall i :: 1 <= i < |segs| ==> segs[i] == segs[1..][i - 1];
      if |segs| > 1 {
        var i :| 0 <= i < |segs[1..]| && segs[1..][i].1 == Scan(segs, cursor).value;
        assert segs[i + 1].1 == Scan(segs, cursor).value;
      }
    }
  }

  lemma SortedIn(chunks: seq<Chunk>)
    ensures var segs := SortByStart(SegmentsOf(chunks));
      && |segs| == |chunks| && Ordered(segs)
      && (forall i :: 0 <= i < |segs| ==>
        exists k :: 0 <= k < |chunks| && segs[i] == (chunks[k].start, chunks[k].End()))
      && (forall k :: 0 <= k < |chunks| ==> (chunks[k].start, chunks[k].End()) in segs)
  {
    SortSorts(SegmentsOf(chunks));
    var raw, segs := SegmentsOf(chunks), SortByStart(SegmentsOf(chunks));
    assert |multiset(raw)| == |raw| && |multiset(segs)| == |segs|;
    forall i | 0 <= i < |segs|
      ensures exists k :: 0 <= k < |chunks| && segs[i] == (chunks[k].start, chunks[k].End())
    {
      var k := IndexIn(segs, raw, i);
    }
    forall k | 0 <= k < |chunks|
      ensures (chunks[k].start, chunks[k].End()) in segs
    {
      var i := IndexIn(raw, segs, k);
    }
  }

  /** The scan ends where the buffer does. */
  lemma ScanEnd(chunks: seq<Chunk>)
    requires Scan(SortByStart(SegmentsOf(chunks)), 0).Ok?
    ensures Scan(SortByStart(SegmentsOf(chunks)), 0).value == MaxEnd(chunks)
  {
    var segs := SortByStart(SegmentsOf(chunks));
    SortedIn(chunks);
    ScanCounts(segs, 0, 0);
    EndsBelow(chunks);
    if chunks != [] {
      var k := LastEnd(chunks);
      assert (chunks[k].start, chunks[k].End()) in segs;
      var i :| 0 <= i < |segs| && segs[i].1 == Scan(segs, 0).value;
    }
  }

  lemma ScanTiles(chunks: seq<Chunk>)
    requires Scan(SortByStart(SegmentsOf(chunks)), 0).Ok?
    ensures Tiles(chunks, MaxEnd(chunks))
  {
    var segs := SortByStart(SegmentsOf(chunks));
    SortedIn(chunks);
    ScanEnd(chunks);
    EndsBelow(chunks);
    forall j: nat
      ensures Covering(chunks, j) == if j < MaxEnd(chunks) then 1 else 0
    {
      ScanCounts(segs, 0, j);
      CountSorted(chunks, j);
    }
  }

  /** Every byte of the payload is the byte of the one chunk that covers it. */
  ghost predicate MadeOf(bytes: Bytes, chunks: seq<Chunk>) {
    && Tiles(chunks, |bytes|)
    && forall i, j :: 0 <= i < |chunks| && 0 <= j < |bytes| && chunks[i].Covers(j) ==>
      bytes[j] == chunks[i].bytes[j - chunks[i].start]
  }

  /** Whatever the arrival order, success means the chunks partition the payload and give its bytes. */
  lemma FinalizedIsMadeOf(chunks: seq<Chunk>, totalBytes: Option<nat>, sha256: Option<string>)
    requires Finalized(chunks, totalBytes, sha256).Ok?
    ensures var p := Finalized(chunks, totalBytes, sha256).value;
      && MadeOf(p.bytes, chunks)
      && (totalBytes.Some? ==> |p.bytes| == totalBytes.value)
      && p.totalBytes == totalBytes && p.sha256 == sha256
  {
    ScanTiles(chunks);
    ScanEnd(chunks);
    var bytes := Assembled(chunks);
    forall i, j | 0 <= i < |chunks| && 0 <= j < |bytes| && chunks[i].Covers(j)
      ensures bytes[j] == chunks[i].bytes[j - chunks[i].start]
    {
      ByteOfCover(chunks, i, j);
    }
  }

  // ── Which error is reported ────────────────────────────────────────────────

  /** How often `j` is covered, if everything below `cursor` was covered once before. */
  function CountFrom(segs: seq<Segment>, cursor: nat, j: nat): nat {
    Count(segs, j) + if j < cursor then 1 else 0
  }

  /** The scan stops at the first position that is not covered once. */
  lemma {:induction false} ScanStops(segs: seq<Segment>, cursor: nat) returns (j: nat)
    requires Sorted(segs) && Proper(segs) && Scan(segs, cursor).Err?
    ensures Scan(segs, cursor) == Err(Gap) || Scan(segs, cursor) == Err(Overlap)
    ensures forall i: nat :: i < j ==> CountFrom(segs, cursor, i) == 1
    ensures if Scan(segs, cursor) == Err(Gap)
      then CountFrom(segs, cursor, j) == 0 && exists k :: 0 <= k < |segs| && segs[k].0 > j
      else CountFrom(segs, cursor, j) >= 2
  {
    var s := segs[0];
    if s.0 == cursor {
      j := ScanStops(segs[1..], s.1);
      forall i: nat
        ensures CountFrom(segs, cursor, i) == CountFrom(segs[1..], s.1, i)
      {
      }
      if k :| 0 <= k < |segs[1..]| && segs[1..][k].0 > j {
        assert segs[k + 1].0 > j;
      }
    } else {
      j := if s.0 > cursor then cursor else s.0;
      forall i: nat | i < s.0
        ensures Count(segs, i) == 0
      {
        CountZeroBelow(segs, i);
      }
    }
  }

  /**
   For chunks that carry something, a failure tells what is wrong at the first position that is not in
   exactly one chunk: a gap if it is in none, though a later one is, an overlap if it is in several. If
   there is no such position the total is wrong.
   */
  lemma FirstFault(chunks: seq<Chunk>, totalBytes: Option<nat>, sha256: Option<string>)
    requires NonEmpty(chunks) && Finalized(chunks, totalBytes, sha256).Err?
    ensures match Finalized(chunks, totalBytes, sha256).error
      case Gap => exists j: nat :: FirstCovered(chunks, j) && Covering(chunks, j) == 0 && Continues(chunks, j)
      case Overlap => exists j: nat :: FirstCovered(chunks, j) && Covering(chunks, j) >= 2
      case NotCovering => Tiles(chunks, MaxEnd(chunks)) && totalBytes.Some? && totalBytes.value != MaxEnd(chunks)
      case _ => false
  {
    if Scan(SortByStart(SegmentsOf(chunks)), 0).Err? {
      ScanFault(chunks);
    } else {
      ScanTiles(chunks);
      ScanEnd(chunks);
    }
  }

  lemma ScanFault(chunks: seq<Chunk>)
    requires NonEmpty(chunks) && Scan(SortByStart(SegmentsOf(chunks)), 0).Err?
    ensures exists j: nat ::
      && FirstCovered(chunks, j)
      && match Scan(SortByStart(SegmentsOf(chunks)), 0).error
         case Gap => Covering(chunks, j) == 0 && Continues(chunks, j)
         case Overlap => Covering(chunks, j) >= 2
         case _ => false
  {
    var segs := SortByStart(SegmentsOf(chunks));
    SortSorts(SegmentsOf(chunks));
    SortedIn(chunks);
    hide SortByStart, Count, Covering, Scan;
    var j := ScanStops(segs, 0);
    forall i: nat
      ensures Covering(chunks, i) == CountFrom(segs, 0, i)
    {
      CountSorted(chunks, i);
    }
    assert FirstCovered(chunks, j);
    if Scan(segs, 0) == Err(Gap) {
      var k :| 0 <= k < |segs| && segs[k].0 > j;
      var l :| 0 <= l < |chunks| && segs[k] == (chunks[l].start, chunks[l].End());
      assert chunks[l].start > j;
    }
  }

  /** Everything below `j` is in exactly one chunk. */
  ghost predicate FirstCovered(chunks: seq<Chunk>, j: nat) {
    forall i: nat :: i < j ==> Covering(chunks, i) == 1
  }

  /** Some chunk begins behind `j`. */
  ghost predicate Continues(chunks: seq<Chunk>, j: nat) {
    exists l :: 0 <= l < |chunks| && chunks[l].start > j
  }

  // ── Empty chunks decide the rest ───────────────────────────────────────────

  /** No segment reaches past the start of a later one. */
  ghost predicate Chained(segs: seq<Segment>) {
    forall p, q :: 0 <= p < q < |segs| ==> segs[p].1 <= segs[q].0
  }

  /** The chunk `c` does not begin inside `b`, which arrived before it, nor `b` inside `c` but at its start. */
  predicate Apart(b: Chunk, c: Chunk) {
    !b.Covers(c.start) && (c.Covers(b.start) ==> c.start == b.start)
  }

  ghost predicate Pairwise(chunks: seq<Chunk>) {
    forall i, k :: 0 <= i < k < |chunks| ==> Apart(chunks[i], chunks[k])
  }

  /** An empty chunk lies where no chunk covers it, or where one that arrives later begins. */
  ghost predicate Clear(chunks: seq<Chunk>) {
    forall i, k :: 0 <= i < |chunks| && 0 <= k < |chunks| && chunks[i].Empty() && chunks[k].Covers(chunks[i].start) ==>
      chunks[k].start == chunks[i].start && i < k
  }

  lemma {:induction false} InsertedIn(segs: seq<Segment>, s: Segment)
    ensures forall t :: t in Inserted(segs, s) <==> t in segs || t == s
  {
    InsertedAdds(segs, s);
    forall t
      ensures t in Inserted(segs, s) <==> t in segs || t == s
    {
      assert t in Inserted(segs, s) <==> t in multiset(Inserted(segs, s));
      assert t in segs <==> t in multiset(segs);
    }
  }

  lemma ChainedSnoc(segs: seq<Segment>, s: Segment)
    ensures Chained(segs + [s]) <==> Chained(segs) && forall t :: t in segs ==> t.1 <= s.0
  {
    var more := segs + [s];
    if Chained(more) {
      forall t | t in segs
        ensures t.1 <= s.0
      {
        var p :| 0 <= p < |segs| && segs[p] == t;
        assert more[p].1 <= more[|segs|].0;
      }
      assert forall p, q :: 0 <= p < q < |segs| ==> more[p] == segs[p] && more[q] == segs[q];
    }
  }

  /** Inserting keeps the chain exactly if the new segment runs into none before or behind it. */
  lemma {:induction false} InsertedChained(segs: seq<Segment>, s: Segment)
    requires Sorted(segs)
    ensures Chained(Inserted(segs, s)) <==>
      Chained(segs) && forall t :: t in segs ==> if t.0 <= s.0 then t.1 <= s.0 else s.1 <= t.0
  {
    ChainedSnoc(segs, s);
    if segs != [] {
      var n := |segs| - 1;
      var init, last := segs[..n], segs[n];
      assert segs == init + [last];
      if last.0 <= s.0 {
        assert forall t :: t in segs ==> t.0 <= s.0;
      } else {
        InsertedChained(init, s);
        InsertedIn(init, s);
        ChainedSnoc(Inserted(init, s), last);
        ChainedSnoc(init, last);
      }
    }
  }

  /** Where the segment of `c` runs into none of the others is where `c` stands apart from their chunks. */
  lemma ApartInserted(chunks: seq<Chunk>, c: Chunk)
    ensures (forall t :: t in SortByStart(SegmentsOf(chunks)) ==>
      if t.0 <= c.start then t.1 <= c.start else c.End() <= t.0)
      <==> forall k :: 0 <= k < |chunks| ==> Apart(chunks[k], c)
  {
    var segs := SortByStart(SegmentsOf(chunks));
    SortedIn(chunks);
    hide SortByStart;
    if forall t :: t in segs ==> if t.0 <= c.start then t.1 <= c.start else c.End() <= t.0 {
      forall k | 0 <= k < |chunks|
        ensures Apart(chunks[k], c)
      {
        assert (chunks[k].start, chunks[k].End()) in segs;
      }
    }
    if forall k :: 0 <= k < |chunks| ==> Apart(chunks[k], c) {
      forall t | t in segs
        ensures if t.0 <= c.start then t.1 <= c.start else c.End() <= t.0
      {
        var i :| 0 <= i < |segs| && segs[i] == t;
        var k :| 0 <= k < |chunks| && segs[i] == (chunks[k].start, chunks[k].End());
        assert Apart(chunks[k], c);
      }
    }
  }

  /** The sorted segments are chained exactly if the chunks stand pairwise apart. */
  lemma {:induction false} ChainedExactly(chunks: seq<Chunk>)
    ensures Chained(SortByStart(SegmentsOf(chunks))) <==> Pairwise(chunks)
  {
    if chunks != [] {
      var n := |chunks| - 1;
      var init, c := chunks[..n], chunks[n];
      assert SegmentsOf(chunks)[..n] == SegmentsOf(init);
      ChainedExactly(init);
      SortSorts(SegmentsOf(init));
      hide Chained, Apart;
      InsertedChained(SortByStart(SegmentsOf(init)), (c.start, c.End()));
      ApartInserted(init, c);
      ApartMore(chunks);
    }
  }

  lemma ApartMore(chunks: seq<Chunk>)
    requires chunks != []
    ensures var n := |chunks| - 1;
      Pairwise(chunks) <==> Pairwise(chunks[..n]) && forall k :: 0 <= k < n ==> Apart(chunks[..n][k], chunks[n])
  {
    hide Apart;
  }

  lemma {:induction false} ScanChained(segs: seq<Segment>, cursor: nat)
    requires Ordered(segs) && Scan(segs, cursor).Ok?
    ensures Chained(segs) && forall i :: 0 <= i < |segs| ==> cursor <= segs[i].0
  {
    if segs != [] {
      ScanChained(segs[1..], segs[0].1);
      assert forall i :: 1 <= i < |segs| ==> segs[i] == segs[1..][i - 1];
    }
  }

  lemma {:induction false} CountZeroBelow(segs: seq<Segment>, j: nat)
    requires forall i :: 0 <= i < |segs| ==> segs[i].0 > j
    ensures Count(segs, j) == 0
  {
    if segs != [] {
      CountZeroBelow(segs[1..], j);
    }
  }

  /** Sorted, chained segments that count once on `[cursor, end)` and nowhere else are scanned through. */
  lemma {:induction false} ChainedScan(segs: seq<Segment>, cursor: nat, end: nat)
    requires Sorted(segs) && Ordered(segs) && Chained(segs) && cursor <= end
    requires forall i :: 0 <= i < |segs| ==> cursor <= segs[i].0 && segs[i].1 <= end
    requires forall j: nat :: Count(segs, j) == if cursor <= j < end then 1 else 0
    ensures Scan(segs, cursor) == Ok(end)
  {
    if segs == [] {
      assert cursor < end ==> Count(segs, cursor) == 1;
    } else {
      var s := segs[0];
      assert cursor < end ==> Count(segs, cursor) == 1;
      if s.0 > cursor {
        CountZeroBelow(segs, cursor);
      }
      assert s.0 == cursor;
      forall j: nat
        ensures Count(segs[1..], j) == if s.1 <= j < end then 1 else 0
      {
        assert Count(segs, j) == if cursor <= j < end then 1 else 0;
      }
      ChainedScan(segs[1..], s.1, end);
    }
  }

  /** Where nothing is covered twice, only empty chunks can stand in each other's way. */
  lemma ApartIfClear(chunks: seq<Chunk>, end: nat)
    requires Tiles(chunks, end)
    ensures Pairwise(chunks) <==> Clear(chunks)
  {
    forall i, k | 0 <= i < |chunks| && 0 <= k < |chunks| && i != k && !chunks[k].Empty()
      ensures !chunks[i].Covers(chunks[k].start)
    {
      if chunks[i].Covers(chunks[k].start) {
        OnlyCover(chunks, i, k, chunks[k].start);
      }
    }
  }

  ghost predicate TilesTotal(chunks: seq<Chunk>, totalBytes: Option<nat>) {
    exists end: nat :: Tiles(chunks, end) && (totalBytes.Some? ==> totalBytes.value == end)
  }

  /**
   For any chunks and arrival order, finalizing succeeds exactly when the chunks tile what the manifest
   promises and every empty chunk lies clear, or where a chunk that arrives later begins.
   */
  lemma FinalizedExactly(chunks: seq<Chunk>, totalBytes: Option<nat>, sha256: Option<string>)
    ensures Finalized(chunks, totalBytes, sha256).Ok? <==> TilesTotal(chunks, totalBytes) && Clear(chunks)
  {
    var segs := SortByStart(SegmentsOf(chunks));
    SortedIn(chunks);
    ChainedExactly(chunks);
    if Finalized(chunks, totalBytes, sha256).Ok? {
      FinalizedIsMadeOf(chunks, totalBytes, sha256);
      ScanChained(segs, 0);
      ApartIfClear(chunks, |Finalized(chunks, totalBytes, sha256).value.bytes|);
    }
    forall end: nat | Tiles(chunks, end) && Clear(chunks)
      ensures Scan(segs, 0) == Ok(end)
    {
      ApartIfClear(chunks, end);
      SortSorts(SegmentsOf(chunks));
      forall j: nat
        ensures Count(segs, j) == if 0 <= j < end then 1 else 0
      {
        CountSorted(chunks, j);
      }
      ChainedScan(segs, 0, end);
    }
  }

  /** For chunks that carry something, that is tiling alone. */
  lemma FinalizedIffTiles(chunks: seq<Chunk>, totalBytes: Option<nat>, sha256: Option<string>)
    requires NonEmpty(chunks)
    ensures Finalized(chunks, totalBytes, sha256).Ok? <==> TilesTotal(chunks, totalBytes)
  {
    FinalizedExactly(chunks, totalBytes, sha256);
  }

  // ── The result does not depend on the order of arrival ─────────────────────

  lemma SameHeads(xs: seq<Segment>, ys: seq<Segment>)
    requires multiset(xs) == multiset(ys) && xs != [] && ys != [] && xs[0] == ys[0]
    ensures multiset(xs[1..]) == multiset(ys[1..])
  {
    SplitMultiset(xs, 0);
    SplitMultiset(ys, 0);
    assert xs[..0] + xs[1..] == xs[1..] && ys[..0] + ys[1..] == ys[1..];
    CancelMultiset(multiset(xs[1..]), multiset(ys[1..]), xs[0]);
  }

  /** Sorted orders of the same segments begin at the same place; where they differ, two begin there. */
  lemma HeadStarts(xs: seq<Segment>, ys: seq<Segment>)
    requires multiset(xs) == multiset(ys) && xs != [] && Sorted(xs) && Sorted(ys)
    ensures ys != [] && xs[0].0 == ys[0].0
    ensures xs[0] != ys[0] ==> |xs| > 1 && |ys| > 1 && xs[1].0 == xs[0].0 && ys[1].0 == ys[0].0
  {
    var k := IndexIn(xs, ys, 0);
    var i := IndexIn(ys, xs, 0);
    assert ys[0].0 <= ys[k].0 && xs[0].0 <= xs[i].0;
    if xs[0] != ys[0] {
      assert k > 0 && i > 0;
      assert ys[1].0 <= ys[k].0 && xs[1].0 <= xs[i].0;
    }
  }

  ghost predicate Proper(segs: seq<Segment>) {
    forall i :: 0 <= i < |segs| ==> segs[i].0 < segs[i].1
  }

  /** Two sorted orders of the same proper segments scan alike, down to the error. */
  lemma {:induction false} ScanPermuted(xs: seq<Segment>, ys: seq<Segment>, cursor: nat)
    requires multiset(xs) == multiset(ys) && Sorted(xs) && Sorted(ys) && Proper(xs)
    ensures Scan(xs, cursor) == Scan(ys, cursor)
  {
    if xs == [] {
      assert |multiset(ys)| == 0;
    } else {
      HeadStarts(xs, ys);
      forall i | 0 <= i < |ys|
        ensures ys[i].0 < ys[i].1
      {
        var k := IndexIn(ys, xs, i);
      }
      if xs[0] == ys[0] {
        SameHeads(xs, ys);
        ScanPermuted(xs[1..], ys[1..], xs[0].1);
      } else if xs[0].0 == cursor {
        assert Scan(xs[1..], xs[0].1) == Err(Overlap);
        assert Scan(ys[1..], ys[0].1) == Err(Overlap);
      }
    }
  }

  lemma {:induction false} SegmentsPermuted(xs: seq<Chunk>, ys: seq<Chunk>)
    requires multiset(xs) == multiset(ys)
    ensures multiset(SegmentsOf(xs)) == multiset(SegmentsOf(ys))
    decreases |xs|
  {
    if xs == [] {
      assert |multiset(ys)| == 0;
    } else {
      var n := |xs| - 1;
      var k := RemoveLast(xs, ys);
      var rest := ys[..k] + ys[k + 1..];
      SegmentsPermuted(xs[..n], rest);
      SplitMultiset(SegmentsOf(xs), n);
      SplitMultiset(SegmentsOf(ys), k);
      assert SegmentsOf(xs)[..n] + SegmentsOf(xs)[n + 1..] == SegmentsOf(xs[..n]);
      assert SegmentsOf(ys)[..k] + SegmentsOf(ys)[k + 1..] == SegmentsOf(rest);
    }
  }

  lemma ScansAlike(xs: seq<Chunk>, ys: seq<Chunk>)
    requires multiset(xs) == multiset(ys) && NonEmpty(xs)
    ensures Scan(SortByStart(SegmentsOf(xs)), 0) == Scan(SortByStart(SegmentsOf(ys)), 0)
  {
    SegmentsPermuted(xs, ys);
    SortSorts(SegmentsOf(xs));
    SortSorts(SegmentsOf(ys));
    SortedIn(xs);
    ScanPermuted(SortByStart(SegmentsOf(xs)), SortByStart(SegmentsOf(ys)), 0);
  }

  /** Chunks that carry something give the same payload, or the same error, in every order of arrival. */
  lemma ArrivalOrderIrrelevant(xs: seq<Chunk>, ys: seq<Chunk>, totalBytes: Option<nat>, sha256: Option<string>)
    requires multiset(xs) == multiset(ys) && NonEmpty(xs)
    ensures Finalized(xs, totalBytes, sha256) == Finalized(ys, totalBytes, sha256)
  {
    ScansAlike(xs, ys);
    if Finalized(xs, totalBytes, sha256).Ok? {
      FinalizedIsMadeOf(xs, totalBytes, sha256);
      FinalizedIsMadeOf(ys, totalBytes, sha256);
      ScanEnd(xs);
      ScanEnd(ys);
      SameBytes(xs, ys, Finalized(xs, totalBytes, sha256).value.bytes, Finalized(ys, totalBytes, sha256).value.bytes);
    }
  }

  /** Whatever the chunks, two orders of arrival that both succeed give the same payload. */
  lemma SuccessesAlike(xs: seq<Chunk>, ys: seq<Chunk>, totalBytes: Option<nat>, sha256: Option<string>)
    requires multiset(xs) == multiset(ys)
    requires Finalized(xs, totalBytes, sha256).Ok? && Finalized(ys, totalBytes, sha256).Ok?
    ensures Finalized(xs, totalBytes, sha256) == Finalized(ys, totalBytes, sha256)
  {
    FinalizedIsMadeOf(xs, totalBytes, sha256);
    FinalizedIsMadeOf(ys, totalBytes, sha256);
    var p, q := Finalized(xs, totalBytes, sha256).value, Finalized(ys, totalBytes, sha256).value;
    TilesPermuted(xs, ys, |p.bytes|);
    SameEnd(ys, |p.bytes|, |q.bytes|);
    SameBytes(xs, ys, p.bytes, q.bytes);
  }

  lemma TilesPermuted(xs: seq<Chunk>, ys: seq<Chunk>, end: nat)
    requires multiset(xs) == multiset(ys) && Tiles(xs, end)
    ensures Tiles(ys, end)
  {
    forall j: nat
      ensures Covering(ys, j) == if j < end then 1 else 0
    {
      CoveringPermuted(xs, ys, j);
    }
    forall i | 0 <= i < |ys|
      ensures ys[i].End() <= end
    {
      var k := IndexIn(ys, xs, i);
    }
  }

  // ── When the order matters ─────────────────────────────────────────────────

  /** No empty chunk lies inside another; it may share its start. */
  ghost predicate Outside(chunks: seq<Chunk>) {
    forall c, d :: c in chunks && d in chunks && c.Empty() && d.Covers(c.start) ==> d.start == c.start
  }

  ghost predicate SharesStart(chunks: seq<Chunk>) {
    exists c, d :: c in chunks && d in chunks && c.Empty() && !d.Empty() && d.start == c.start
  }

  /** Those that are empty, or those that are not, come before the others. */
  predicate Ahead(r: seq<Chunk>, emptyFirst: bool) {
    forall i, k ::
      0 <= i < |r| && 0 <= k < |r| && r[i].Empty() == emptyFirst && r[k].Empty() != emptyFirst ==> i < k
  }

  lemma StillAhead(rest: seq<Chunk>, c: Chunk, emptyFirst: bool)
    requires Ahead(rest, emptyFirst)
    ensures Ahead(if c.Empty() == emptyFirst then [c] + rest else rest + [c], emptyFirst)
  {
    hide Chunk.Empty;
  }

  /** The chunks with the empty ones, or those that are not, moved to the front. */
  function Sifted(chunks: seq<Chunk>, emptyFirst: bool): (r: seq<Chunk>)
    ensures multiset(r) == multiset(chunks) && Ahead(r, emptyFirst)
  {
    if chunks == [] then []
    else
      hide Ahead;
      var init, c := chunks[..|chunks| - 1], chunks[|chunks| - 1];
      assert chunks == init + [c];
      var rest := Sifted(init, emptyFirst);
      StillAhead(rest, c, emptyFirst);
      if c.Empty() == emptyFirst then [c] + rest else rest + [c]
  }

  lemma EmptiesFirst(chunks: seq<Chunk>)
    requires Outside(chunks)
    ensures Clear(Sifted(chunks, true))
  {
    var ys := Sifted(chunks, true);
    SameMembers(ys, chunks);
    forall i, k | 0 <= i < |ys| && 0 <= k < |ys| && ys[i].Empty() && ys[k].Covers(ys[i].start)
      ensures ys[k].start == ys[i].start && i < k
    {
      assert ys[i] in chunks && ys[k] in chunks;
    }
  }

  lemma EmptiesLast(chunks: seq<Chunk>)
    requires SharesStart(chunks)
    ensures !Clear(Sifted(chunks, false))
  {
    var zs := Sifted(chunks, false);
    SameMembers(zs, chunks);
    var c, d :| c in chunks && d in chunks && c.Empty() && !d.Empty() && d.start == c.start;
    assert d in zs && c in zs;
    var k :| 0 <= k < |zs| && zs[k] == d;
    var i :| 0 <= i < |zs| && zs[i] == c;
    assert k < i && zs[k].Covers(zs[i].start);
  }

  ghost predicate OrderMatters(chunks: seq<Chunk>, totalBytes: Option<nat>, sha256: Option<string>) {
    exists ys, zs :: multiset(ys) == multiset(chunks) && multiset(zs) == multiset(chunks)
      && Finalized(ys, totalBytes, sha256).Ok? && Finalized(zs, totalBytes, sha256).Err?
  }

  /**
   The order of arrival decides between success and failure exactly when the chunks tile, no empty chunk
   lies inside another, and some empty chunk shares its start with one that is not.
   */
  lemma OrderMattersExactly(chunks: seq<Chunk>, totalBytes: Option<nat>, sha256: Option<string>)
    ensures OrderMatters(chunks, totalBytes, sha256) <==>
      TilesTotal(chunks, totalBytes) && Outside(chunks) && SharesStart(chunks)
  {
    hide Finalized, TilesTotal, Outside, SharesStart, Clear;
    if OrderMatters(chunks, totalBytes, sha256) {
      var ys, zs :| multiset(ys) == multiset(chunks) && multiset(zs) == multiset(chunks)
        && Finalized(ys, totalBytes, sha256).Ok? && Finalized(zs, totalBytes, sha256).Err?;
      FinalizedExactly(ys, totalBytes, sha256);
      FinalizedExactly(zs, totalBytes, sha256);
      TotalPermuted(ys, chunks, totalBytes);
      TotalPermuted(ys, zs, totalBytes);
      ClearIsOutside(ys, chunks);
      NotClearShares(zs, chunks);
    }
    if TilesTotal(chunks, totalBytes) && Outside(chunks) && SharesStart(chunks) {
      OrdersDiffer(chunks, totalBytes, sha256);
    }
  }

  lemma OrdersDiffer(chunks: seq<Chunk>, totalBytes: Option<nat>, sha256: Option<string>)
    requires TilesTotal(chunks, totalBytes) && Outside(chunks) && SharesStart(chunks)
    ensures OrderMatters(chunks, totalBytes, sha256)
  {
    hide Finalized, TilesTotal, Outside, SharesStart, Clear;
    TotalPermuted(chunks, Sifted(chunks, true), totalBytes);
    EmptiesFirst(chunks);
    EmptiesLast(chunks);
    FinalizedExactly(Sifted(chunks, true), totalBytes, sha256);
    FinalizedExactly(Sifted(chunks, false), totalBytes, sha256);
  }

  lemma TotalPermuted(xs: seq<Chunk>, ys: seq<Chunk>, totalBytes: Option<nat>)
    requires multiset(xs) == multiset(ys) && TilesTotal(xs, totalBytes)
    ensures TilesTotal(ys, totalBytes)
  {
    var end: nat :| Tiles(xs, end) && (totalBytes.Some? ==> totalBytes.value == end);
    TilesPermuted(xs, ys, end);
  }

  lemma SameMembers(xs: seq<Chunk>, ys: seq<Chunk>)
    requires multiset(xs) == multiset(ys)
    ensures forall c :: c in xs <==> c in ys
  {
    forall c
      ensures c in xs <==> c in ys
    {
      assert c in xs <==> c in multiset(xs);
      assert c in ys <==> c in multiset(ys);
    }
  }

  lemma ClearIsOutside(ys: seq<Chunk>, chunks: seq<Chunk>)
    requires multiset(ys) == multiset(chunks) && Clear(ys)
    ensures Outside(chunks)
  {
    SameMembers(ys, chunks);
    forall c, d | c in chunks && d in chunks && c.Empty() && d.Covers(c.start)
      ensures d.start == c.start
    {
      var i :| 0 <= i < |ys| && ys[i] == c;
      var k :| 0 <= k < |ys| && ys[k] == d;
    }
  }

  lemma NotClearShares(zs: seq<Chunk>, chunks: seq<Chunk>)
    requires multiset(zs) == multiset(chunks) && !Clear(zs) && Outside(chunks)
    ensures SharesStart(chunks)
  {
    SameMembers(zs, chunks);
    var i, k :| 0 <= i < |zs| && 0 <= k < |zs| && zs[i].Empty() && zs[k].Covers(zs[i].start)
      && !(zs[k].start == zs[i].start && i < k);
    assert zs[i] in chunks && zs[k] in chunks;
  }

  lemma SameBytes(xs: seq<Chunk>, ys: seq<Chunk>, b: Bytes, d: Bytes)
    requires multiset(xs) == multiset(ys) && |b| == |d|
    requires MadeOf(b, xs) && MadeOf(d, ys)
    ensures b == d
  {
    forall j | 0 <= j < |b|
      ensures b[j] == d[j]
    {
      assert Covering(xs, j) == 1;
      var i := SomeCover(xs, j);
      var k := IndexIn(xs, ys, i);
      assert ys[k].Covers(j);
    }
  }

  /** An empty chunk makes the order matter: behind the chunk it shares a start with, it reads as an overlap. */
  lemma EmptyChunkOrderMatters(b: bv8)
    ensures Finalized([Chunk(0, []), Chunk(0, [b])], None, None).Ok?
    ensures Finalized([Chunk(0, [b]), Chunk(0, [])], None, None) == Err(Overlap)
  {
    SortedPair((0, 0), (0, 1));
    SortedPair((0, 1), (0, 0));
    assert SegmentsOf([Chunk(0, []), Chunk(0, [b])]) == [(0, 0), (0, 1)];
    assert SegmentsOf([Chunk(0, [b]), Chunk(0, [])]) == [(0, 1), (0, 0)];
    assert [(0, 0), (0, 1)][1..] == [(0, 1)] && [(0, 1), (0, 0)][1..] == [(0, 0)];
    assert Scan([(0, 1)], 0) == Scan([(0, 1)][1..], 1);
  }

  lemma SortedPair(s: Segment, t: Segment)
    requires s.0 <= t.0
    ensures SortByStart([s, t]) == [s, t]
  {
    assert [s, t][..1] == [s] && [s][..0] == [];
    assert SortByStart([s]) == [s];
    assert [s] + [t] == [s, t];
  }

  // ── The integrity fields ───────────────────────────────────────────────────

  function Reconcile<T(==)>(
    manifest: Option<T>, resp: Option<T>, mismatch: StreamError): Result<Option<T>, StreamError> {
    match manifest
    case Some(m) => if resp.Some? && m != resp.value then Err(mismatch) else Ok(Some(m))
    case None => Ok(resp)
  }

  /** The digest and the header check, which this model leaves abstract. */
  datatype Checks = Checks(sha256Hex: Bytes -> string, headerValid: Bytes -> bool)

  function VerifyMesh(checks: Checks, blob: Bytes, total: Option<nat>, sha: Option<string>): Option<StreamError> {
    if total.Some? && |blob| != total.value then Some(WrongLength)
    else if sha.Some? && checks.sha256Hex(blob) != sha.value then Some(WrongHash)
    else if !checks.headerValid(blob) then Some(BadHeader)
    else None
  }

  datatype Section = Section(name: string, off: nat, len: nat)

  datatype MeshHandle = MeshHandle(bin: Option<string>, streamId: Option<nat>, totalBytes: Option<nat>,
    sha256: Option<string>)

  /** A response: its first mesh if it has any, its named sections, and the bytes they index. */
  datatype Response = Response(mesh: Option<MeshHandle>, sections: seq<Section>, tail: Bytes)

  function FindSection(sections: seq<Section>, name: string): Option<Section> {
    if sections == [] then None
    else if sections[0].name == name then Some(sections[0])
    else FindSection(sections[1..], name)
  }

  /** What one stream has received: its chunks in arrival order and its last manifest's fields. */
  datatype Stream = Stream(chunks: seq<Chunk>, totalBytes: Option<nat>, sha256: Option<string>)

  function Blob(resp: Response, mesh: MeshHandle, streams: map<nat, Stream>): Result<Payload, StreamError> {
    if mesh.bin.Some? then
      match FindSection(resp.sections, mesh.bin.value)
      case None => Err(SectionMissing)
      case Some(s) =>
        if s.off + s.len > |resp.tail| then Err(SectionOutOfRange)
        else Ok(Payload(resp.tail[s.off..s.off + s.len], None, None))
    else if mesh.streamId.Some? then
      if mesh.streamId.value in streams then
        var stream := streams[mesh.streamId.value];
        Finalized(stream.chunks, stream.totalBytes, stream.sha256)
      else Err(NoFrames)
    else Err(NoHandle)
  }

  function AssembleMesh(checks: Checks, resp: Response, streams: map<nat, Stream>): Result<Bytes, StreamError> {
    match resp.mesh
    case None => Err(NoMeshes)
    case Some(mesh) =>
      var payload :- Blob(resp, mesh, streams);
      var total :- Reconcile(payload.totalBytes, mesh.totalBytes, TotalMismatch);
      var sha :- Reconcile(payload.sha256, mesh.sha256, ShaMismatch);
      match VerifyMesh(checks, payload.bytes, total, sha)
      case Some(e) => Err(e)
      case None => Ok(payload.bytes)
  }

  ghost predicate Agrees<T(!new)>(claim: Option<T>, actual: T) {
    claim.Some? ==> claim.value == actual
  }

  /** Every size and digest anyone claimed, in the manifest or the response, is the blob's own. */
  ghost predicate Vouched(
    checks: Checks, mesh: MeshHandle, manifestTotal: Option<nat>, manifestSha: Option<string>, blob: Bytes) {
    && Agrees(manifestTotal, |blob|) && Agrees(mesh.totalBytes, |blob|)
    && Agrees(manifestSha, checks.sha256Hex(blob)) && Agrees(mesh.sha256, checks.sha256Hex(blob))
    && checks.headerValid(blob)
  }

  /** Finalizing gives `blob` exactly when the chunks tile it and give its bytes, with no empty one in the way. */
  lemma FinalizedBytes(chunks: seq<Chunk>, totalBytes: Option<nat>, sha256: Option<string>, blob: Bytes)
    ensures Finalized(chunks, totalBytes, sha256) == Ok(Payload(blob, totalBytes, sha256)) <==>
      Clear(chunks) && MadeOf(blob, chunks) && Agrees(totalBytes, |blob|)
  {
    var r := Finalized(chunks, totalBytes, sha256);
    FinalizedExactly(chunks, totalBytes, sha256);
    if r.Ok? {
      FinalizedIsMadeOf(chunks, totalBytes, sha256);
    }
    hide Finalized;
    if Clear(chunks) && MadeOf(blob, chunks) && Agrees(totalBytes, |blob|) {
      assert Tiles(chunks, |blob|);
      SameEnd(chunks, |blob|, |r.value.bytes|);
      SameBytes(chunks, chunks, blob, r.value.bytes);
    }
  }

  /**
   A streamed mesh is assembled exactly when its chunks tile some `[0, end)`, no empty chunk is in the
   way, and the bytes they give match every claim made about them.
   */
  lemma StreamedMeshExactly(checks: Checks, resp: Response, streams: map<nat, Stream>, blob: Bytes)
    requires resp.mesh.Some? && resp.mesh.value.bin.None? && resp.mesh.value.streamId.Some?
    requires resp.mesh.value.streamId.value in streams
    ensures var mesh, stream := resp.mesh.value, streams[resp.mesh.value.streamId.value];
      AssembleMesh(checks, resp, streams) == Ok(blob) <==>
        Clear(stream.chunks) && MadeOf(blob, stream.chunks)
          && Vouched(checks, mesh, stream.totalBytes, stream.sha256, blob)
  {
    hide Finalized, Clear, MadeOf;
    var stream := streams[resp.mesh.value.streamId.value];
    var r := Finalized(stream.chunks, stream.totalBytes, stream.sha256);
    FinalizedFields(stream.chunks, stream.totalBytes, stream.sha256);
    FinalizedBytes(stream.chunks, stream.totalBytes, stream.sha256, blob);
  }

  lemma FinalizedFields(chunks: seq<Chunk>, totalBytes: Option<nat>, sha256: Option<string>)
    ensures var r := Finalized(chunks, totalBytes, sha256);
      r.Ok? ==> r.value.totalBytes == totalBytes && r.value.sha256 == sha256
  {
  }

  lemma SameEnd(chunks: seq<Chunk>, m: nat, n: nat)
    requires Tiles(chunks, m) && Tiles(chunks, n)
    ensures m == n
  {
    assert Covering(chunks, m) == 0 && Covering(chunks, n) == 0;
  }

  predicate FirstNamed(resp: Response, name: string, i: nat) {
    && i < |resp.sections| && resp.sections[i].name == name
    && forall j :: 0 <= j < i ==> resp.sections[j].name != name
  }

  /** The first section of a name, if it lies within the tail, holds `blob`. */
  ghost predicate SectionHolds(resp: Response, name: string, i: nat, blob: Bytes) {
    && FirstNamed(resp, name, i)
    && resp.sections[i].off + resp.sections[i].len <= |resp.tail|
    && blob == resp.tail[resp.sections[i].off..resp.sections[i].off + resp.sections[i].len]
  }

  lemma {:induction false} FoundFirst(sections: seq<Section>, name: string, i: nat)
    requires i < |sections| && sections[i].name == name && forall j :: 0 <= j < i ==> sections[j].name != name
    ensures FindSection(sections, name) == Some(sections[i])
  {
    if i > 0 {
      FoundFirst(sections[1..], name, i - 1);
    }
  }

  lemma {:induction false} FoundAt(sections: seq<Section>, name: string) returns (i: nat)
    requires FindSection(sections, name).Some?
    ensures i < |sections| && sections[i] == FindSection(sections, name).value && sections[i].name == name
    ensures forall j :: 0 <= j < i ==> sections[j].name != name
  {
    if sections[0].name == name {
      i := 0;
    } else {
      i := FoundAt(sections[1..], name);
      i := i + 1;
      assert forall j :: 1 <= j < i ==> sections[j] == sections[1..][j - 1];
    }
  }

  /**
   An inline mesh is assembled into `blob` exactly when `blob` is the part of the tail that the first section
   of its name spans, and it matches every claim of the handle.
   */
  lemma InlineMeshExactly(checks: Checks, resp: Response, streams: map<nat, Stream>, blob: Bytes)
    requires resp.mesh.Some? && resp.mesh.value.bin.Some?
    ensures AssembleMesh(checks, resp, streams) == Ok(blob) <==>
      && (exists i :: SectionHolds(resp, resp.mesh.value.bin.value, i, blob))
      && Vouched(checks, resp.mesh.value, None, None, blob)
  {
    var name := resp.mesh.value.bin.value;
    if i :| SectionHolds(resp, name, i, blob) {
      FoundFirst(resp.sections, name, i);
    }
    if AssembleMesh(checks, resp, streams) == Ok(blob) {
      var i := FoundAt(resp.sections, name);
      assert SectionHolds(resp, name, i, blob);
    }
  }

  predicate Differ<T(==)>(a: Option<T>, b: Option<T>) {
    a.Some? && b.Some? && a.value != b.value
  }

  predicate Denies<T(==)>(claim: Option<T>, actual: T) {
    claim.Some? && claim.value != actual
  }

  /** What becomes of the bytes received: which of the claims made about them is the first to fail. */
  predicate Judged(
    checks: Checks, mesh: MeshHandle, manifestTotal: Option<nat>, manifestSha: Option<string>, blob: Bytes,
    r: Result<Bytes, StreamError>) {
    var sha := checks.sha256Hex(blob);
    r == (
      if Differ(manifestTotal, mesh.totalBytes) then Err(TotalMismatch)
      else if Differ(manifestSha, mesh.sha256) then Err(ShaMismatch)
      else if Denies(manifestTotal, |blob|) || Denies(mesh.totalBytes, |blob|) then Err(WrongLength)
      else if Denies(manifestSha, sha) || Denies(mesh.sha256, sha) then Err(WrongHash)
      else if !checks.headerValid(blob) then Err(BadHeader)
      else Ok(blob))
  }

  /** How assembling fails, from the first reason to the last. */
  lemma FailsAs(checks: Checks, resp: Response, streams: map<nat, Stream>)
    ensures var r := AssembleMesh(checks, resp, streams);
      && (resp.mesh.None? ==> r == Err(NoMeshes))
      && (resp.mesh.Some? ==>
            var mesh := resp.mesh.value;
            && (mesh.bin.None? && mesh.streamId.None? ==> r == Err(NoHandle))
            && (mesh.bin.None? && mesh.streamId.Some? && mesh.streamId.value !in streams ==> r == Err(NoFrames))
            && (mesh.bin.Some? && (forall i :: 0 <= i < |resp.sections| ==> resp.sections[i].name != mesh.bin.value) ==>
                  r == Err(SectionMissing))
            && (mesh.bin.Some? ==>
                  forall i: nat ::
                    && FirstNamed(resp, mesh.bin.value, i)
                    && resp.sections[i].off + resp.sections[i].len > |resp.tail|
                    ==> r == Err(SectionOutOfRange)))
  {
    if resp.mesh.Some? && resp.mesh.value.bin.Some? {
      var name := resp.mesh.value.bin.value;
      SectionFound(resp.sections, name);
      forall i: nat | FirstNamed(resp, name, i)
        ensures FindSection(resp.sections, name) == Some(resp.sections[i])
      {
        FoundFirst(resp.sections, name, i);
      }
    }
  }

  /** Once the bytes are there, inline or streamed, their claims decide. */
  lemma JudgedExactly(checks: Checks, resp: Response, streams: map<nat, Stream>, i: nat, blob: Bytes)
    requires resp.mesh.Some?
    ensures resp.mesh.value.bin.Some? && SectionHolds(resp, resp.mesh.value.bin.value, i, blob) ==>
      Judged(checks, resp.mesh.value, None, None, blob, AssembleMesh(checks, resp, streams))
    ensures var mesh := resp.mesh.value;
      mesh.bin.None? && mesh.streamId.Some? && mesh.streamId.value in streams ==>
        var stream := streams[mesh.streamId.value];
        var r := AssembleMesh(checks, resp, streams);
        match Finalized(stream.chunks, stream.totalBytes, stream.sha256)
        case Ok(p) => Judged(checks, mesh, stream.totalBytes, stream.sha256, p.bytes, r)
        case Err(e) => r == Err(e)
  {
    hide Finalized;
    var mesh := resp.mesh.value;
    if mesh.bin.Some? && SectionHolds(resp, mesh.bin.value, i, blob) {
      FoundFirst(resp.sections, mesh.bin.value, i);
    }
    if mesh.streamId.Some? && mesh.streamId.value in streams {
      var stream := streams[mesh.streamId.value];
      FinalizedFields(stream.chunks, stream.totalBytes, stream.sha256);
    }
  }

  /** Whichever way a mesh arrives, nothing is accepted that a claim contradicts. */
  lemma AssembledIsVouched(checks: Checks, resp: Response, streams: map<nat, Stream>)
    requires AssembleMesh(checks, resp, streams).Ok?
    ensures resp.mesh.Some?
    ensures var mesh, blob := resp.mesh.value, AssembleMesh(checks, resp, streams).value;
      if mesh.bin.Some? then
        && Vouched(checks, mesh, None, None, blob)
        && exists s ::
          && s in resp.sections && s.name == mesh.bin.value && s.off + s.len <= |resp.tail|
          && blob == resp.tail[s.off..s.off + s.len]
      else
        && mesh.streamId.Some? && mesh.streamId.value in streams
        && var stream := streams[mesh.streamId.value];
        Vouched(checks, mesh, stream.totalBytes, stream.sha256, blob) && MadeOf(blob, stream.chunks)
  {
    var mesh := resp.mesh.value;
    if mesh.bin.Some? {
      SectionFound(resp.sections, mesh.bin.value);
    } else {
      var stream := streams[mesh.streamId.value];
      FinalizedIsMadeOf(stream.chunks, stream.totalBytes, stream.sha256);
    }
  }

  lemma {:induction false} SectionFound(sections: seq<Section>, name: string)
    ensures FindSection(sections, name).Some? ==>
      FindSection(sections, name).value in sections && FindSection(sections, name).value.name == name
  {
    if sections != [] {
      SectionFound(sections[1..], name);
    }
  }
}
