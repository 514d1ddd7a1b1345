/** The access history of one object's exact byte ranges, kept as an ordered partition into segments. */
module RangeHistory {
  import opened CfgErrors

  datatype History = History(writer: Option<nat>, readers: seq<nat>)

  datatype Segment = Segment(start: int, end: int, history: History) {
    predicate Covers(x: int) {
      start <= x < end
    }
  }

  type Segments = seq<Segment>

  const NO_HISTORY := History(None, [])

  predicate Partition(s: Segments) {
    && (forall i :: 0 <= i < |s| ==> s[i].start < s[i].end)
    && forall i, j :: 0 <= i < j < |s| ==> s[i].end <= s[j].start
  }

  /** `w` is the last recorded writer of byte `x`. */
  ghost predicate WriterAt(s: Segments, x: int, w: nat) {
    exists i :: 0 <= i < |s| && s[i].Covers(x) && s[i].history.writer == Some(w)
  }

  /** `w` has read byte `x` since its last recorded write. */
  ghost predicate ReaderAt(s: Segments, x: int, w: nat) {
    exists i :: 0 <= i < |s| && s[i].Covers(x) && w in s[i].history.readers
  }

  ghost predicate SameHistory(s: Segments, r: Segments) {
    forall x: int, w: nat :: (WriterAt(r, x, w) <==> WriterAt(s, x, w)) && (ReaderAt(r, x, w) <==> ReaderAt(s, x, w))
  }

  predicate NoCross(s: Segments, point: int) {
    forall i :: 0 <= i < |s| ==> !(s[i].start < point < s[i].end)
  }

  // ------------------------------------------------------------ concatenation

  lemma WriterJoin(a: Segments, b: Segments, x: int, w: nat)
    ensures WriterAt(a + b, x, w) <==> WriterAt(a, x, w) || WriterAt(b, x, w)
  {
    if WriterAt(a, x, w) {
      var i :| 0 <= i < |a| && a[i].Covers(x) && a[i].history.writer == Some(w);
      assert (a + b)[i] == a[i];
    }
    if WriterAt(b, x, w) {
      var i :| 0 <= i < |b| && b[i].Covers(x) && b[i].history.writer == Some(w);
      assert (a + b)[|a| + i] == b[i];
    }
  }

  lemma ReaderJoin(a: Segments, b: Segments, x: int, w: nat)
    ensures ReaderAt(a + b, x, w) <==> ReaderAt(a, x, w) || ReaderAt(b, x, w)
  {
    if ReaderAt(a, x, w) {
      var i :| 0 <= i < |a| && a[i].Covers(x) && w in a[i].history.readers;
      assert (a + b)[i] == a[i];
    }
    if ReaderAt(b, x, w) {
      var i :| 0 <= i < |b| && b[i].Covers(x) && w in b[i].history.readers;
      assert (a + b)[|a| + i] == b[i];
    }
  }

  lemma JoinThree(a: Segments, b: Segments, c: Segments, x: int, w: nat)
    ensures WriterAt(a + b + c, x, w) <==> WriterAt(a, x, w) || WriterAt(b, x, w) || WriterAt(c, x, w)
    ensures ReaderAt(a + b + c, x, w) <==> ReaderAt(a, x, w) || ReaderAt(b, x, w) || ReaderAt(c, x, w)
  {
    WriterJoin(a + b, c, x, w);
    WriterJoin(a, b, x, w);
    ReaderJoin(a + b, c, x, w);
    ReaderJoin(a, b, x, w);
  }

  // ------------------------------------------------------------ splitting

  method LowerBound(s: Segments, point: int) returns (k: nat)
    requires Partition(s)
    ensures k <= |s|
    ensures forall i :: 0 <= i < k ==> s[i].start < point
    ensures forall i :: k <= i < |s| ==> point <= s[i].start
  {
    k := 0;
    while k < |s| && s[k].start < point
      invariant k <= |s|
      invariant forall i :: 0 <= i < k ==> s[i].start < point
    {
      k := k + 1;
    }
  }

  /** A segment cut in two keeps every byte's history. */
  function Cut(s: Segments, k: nat, point: int): Segments
    requires k < |s|
  {
    s[..k] + [s[k].(end := point), s[k].(start := point)] + s[k + 1..]
  }

  lemma CutHistory(s: Segments, k: nat, point: int)
    requires k < |s| && s[k].start < point < s[k].end
    ensures SameHistory(s, Cut(s, k, point))
  {
    var a, b, c := s[..k], [s[k].(end := point), s[k].(start := point)], s[k + 1..];
    assert s == a + [s[k]] + c;
    forall x: int, w: nat
      ensures (WriterAt(a + b + c, x, w) <==> WriterAt(s, x, w)) && (ReaderAt(a + b + c, x, w) <==> ReaderAt(s, x, w))
    {
      JoinThree(a, b, c, x, w);
      JoinThree(a, [s[k]], c, x, w);
      assert b[0].Covers(x) || b[1].Covers(x) <==> [s[k]][0].Covers(x);
    }
  }

  lemma CutAt(s: Segments, k: nat, point: int, i: nat)
    requires k < |s| && i < |s| + 1
    ensures |Cut(s, k, point)| == |s| + 1
    ensures Cut(s, k, point)[i] == if i < k then s[i] else if i == k then s[k].(end := point)
                                   else if i == k + 1 then s[k].(start := point) else s[i - 1]
  {
  }

  lemma CutKeeps(s: Segments, k: nat, point: int)
    requires Partition(s) && k < |s| && s[k].start < point < s[k].end
    ensures Partition(Cut(s, k, point)) && SameHistory(s, Cut(s, k, point))
    ensures NoCross(Cut(s, k, point), point) && forall q: int :: NoCross(s, q) ==> NoCross(Cut(s, k, point), q)
  {
    var r := Cut(s, k, point);
    CutHistory(s, k, point);
    forall i: nat | i < |r|
      ensures r[i] == if i < k then s[i] else if i == k then s[k].(end := point)
                      else if i == k + 1 then s[k].(start := point) else s[i - 1]
    {
      CutAt(s, k, point, i);
    }
  }

  method SplitAt(s: Segments, point: int) returns (r: Segments)
    requires Partition(s)
    ensures Partition(r) && SameHistory(s, r) && NoCross(r, point)
    ensures forall q: int :: NoCross(s, q) ==> NoCross(r, q)
  {
    r := s;
    var k := LowerBound(s, point + 1);
    if k == 0 {
      return;
    }
    var segment := s[k - 1];
    if segment.start == point || point >= segment.end {
      return;
    }
    CutKeeps(s, k - 1, point);
    r := s[..k - 1] + [segment.(end := point), segment.(start := point)] + s[k..];
  }

  /** Splits at both ends of a range and finds the segments inside it. */
  method Isolate(s: Segments, offset: int, end: int) returns (r: Segments, lo: nat, hi: nat)
    requires Partition(s) && offset < end
    ensures SameHistory(s, r) && IsPart(r, lo, hi, offset, end)
  {
    r := SplitAt(s, offset);
    r := SplitAt(r, end);
    lo := LowerBound(r, offset);
    hi := LowerBound(r, end);
    assert hi < |r| ==> end <= r[hi].start;
    assert forall i :: 0 <= i < lo ==> r[i].start < end;
  }

  // ------------------------------------------------------------ reading

  /** Segments laid edge to edge from `offset` to `end`. */
  ghost predicate Tiles(s: Segments, offset: int, end: int) {
    && Partition(s) && (s == [] <==> offset == end)
    && (s != [] ==> s[0].start == offset && s[|s| - 1].end == end)
    && forall i, j :: 0 <= i && j == i + 1 && j < |s| ==> s[i].end == s[j].start
  }

  lemma {:induction false} TilesCover(s: Segments, offset: int, end: int, x: int)
    requires Tiles(s, offset, end) && offset <= x < end
    ensures exists i :: 0 <= i < |s| && s[i].Covers(x)
    decreases |s|
  {
    var k := |s| - 1;
    if !s[k].Covers(x) {
      var t := s[..k];
      assert k > 0 && s[k - 1].end == s[k].start;
      TilesCover(t, offset, s[k].start, x);
      var i :| 0 <= i < |t| && t[i].Covers(x);
      assert s[i].Covers(x);
    }
  }

  lemma AppendTile(s: Segments, offset: int, cursor: int, segment: Segment)
    requires Tiles(s, offset, cursor) && segment.start == cursor < segment.end && offset <= cursor
    ensures Tiles(s + [segment], offset, segment.end)
  {
    forall i: nat | i < |s| ensures s[i].end <= cursor {
      InsideTiles(s, offset, cursor, i);
    }
  }

  lemma EmptySegment(from: int, to: int)
    ensures SameHistory([], [Segment(from, to, NO_HISTORY)])
  {
  }

  /** Fills the gaps between the given segments with segments that have no history. */
  method FillGaps(s: Segments, offset: int, end: int) returns (r: Segments)
    requires Partition(s) && offset < end
    requires forall i :: 0 <= i < |s| ==> offset <= s[i].start && s[i].end <= end
    ensures Tiles(r, offset, end) && SameHistory(s, r)
  {
    r := [];
    var cursor := offset;
    for k := 0 to |s|
      invariant offset <= cursor <= end && Tiles(r, offset, cursor) && SameHistory(s[..k], r)
      invariant forall i :: k <= i < |s| ==> cursor <= s[i].start
    {
      r := FillTo(s[..k], r, offset, cursor, s[k].start);
      cursor := s[k].start;
      Extend(s[..k], r, [s[k]], [s[k]]);
      AppendTile(r, offset, cursor, s[k]);
      assert s[..k + 1] == s[..k] + [s[k]];
      r := r + [s[k]];
      cursor := s[k].end;
    }
    assert s[..|s|] == s;
    r := FillTo(s, r, offset, cursor, end);
  }

  /** Inserts the gap before the next segment, if there is one. */
  method FillTo(ghost s: Segments, r0: Segments, ghost offset: int, cursor: int, start: int) returns (r: Segments)
    requires offset <= cursor <= start && Tiles(r0, offset, cursor) && SameHistory(s, r0)
    ensures Tiles(r, offset, start) && SameHistory(s, r)
  {
    r := r0;
    if cursor < start {
      EmptySegment(cursor, start);
      Extend(s, r, [], [Segment(cursor, start, NO_HISTORY)]);
      AppendTile(r, offset, cursor, Segment(cursor, start, NO_HISTORY));
      assert s + [] == s;
      r := r + [Segment(cursor, start, NO_HISTORY)];
    }
  }

  lemma Extend(s: Segments, r: Segments, a: Segments, b: Segments)
    requires SameHistory(s, r) && SameHistory(a, b)
    ensures SameHistory(s + a, r + b)
  {
    forall x: int, w: nat
      ensures (WriterAt(r + b, x, w) <==> WriterAt(s + a, x, w)) && (ReaderAt(r + b, x, w) <==> ReaderAt(s + a, x, w))
    {
      WriterJoin(r, b, x, w);
      WriterJoin(s, a, x, w);
      ReaderJoin(r, b, x, w);
      ReaderJoin(s, a, x, w);
    }
  }

  function RecordReader(h: History, instruction: nat): (r: History)
    ensures r.writer == h.writer && forall w :: w in r.readers <==> w in h.readers || w == instruction
  {
    if h.readers != [] && h.readers[|h.readers| - 1] == instruction then h
    else History(h.writer, h.readers + [instruction])
  }

  ghost predicate Recorded(s: Segments, r: Segments, instruction: nat) {
    |r| == |s| && forall i :: 0 <= i < |s| ==> r[i] == s[i].(history := RecordReader(s[i].history, instruction))
  }

  ghost predicate WriterIn(s: Segments, w: nat) {
    exists i :: 0 <= i < |s| && s[i].history.writer == Some(w)
  }

  ghost predicate ReaderIn(s: Segments, w: nat) {
    exists i :: 0 <= i < |s| && w in s[i].history.readers
  }

  method RecordAll(s: Segments, instruction: nat, dependencies: set<nat>) returns (r: Segments, found: set<nat>)
    ensures Recorded(s, r, instruction)
    ensures forall w: nat :: w in found <==> w in dependencies || WriterIn(s, w)
  {
    r, found := [], dependencies;
    for k := 0 to |s|
      invariant Recorded(s[..k], r, instruction)
      invariant forall w: nat :: w in found <==> w in dependencies || WriterIn(s[..k], w)
    {
      assert s[..k + 1] == s[..k] + [s[k]];
      forall w: nat ensures WriterIn(s[..k + 1], w) <==> WriterIn(s[..k], w) || s[k].history.writer == Some(w) {
        if WriterIn(s[..k], w) {
          var i :| 0 <= i < k && s[..k][i].history.writer == Some(w);
          assert s[..k + 1][i].history.writer == Some(w);
        }
        assert s[..k + 1][k] == s[k];
      }
      match s[k].history.writer {
        case Some(w) => found := found + {w};
        case None =>
      }
      r := r + [s[k].(history := RecordReader(s[k].history, instruction))];
    }
    assert s[..|s|] == s;
  }

  lemma RecordedHistory(s: Segments, r: Segments, instruction: nat, offset: int, end: int, x: int, w: nat)
    requires Recorded(s, r, instruction) && Tiles(s, offset, end)
    ensures WriterAt(r, x, w) <==> WriterAt(s, x, w)
    ensures ReaderAt(r, x, w) <==> ReaderAt(s, x, w) || (offset <= x < end && w == instruction)
  {
    assert forall i :: 0 <= i < |s| ==> r[i].Covers(x) == s[i].Covers(x);
    if WriterAt(s, x, w) {
      var i :| 0 <= i < |s| && s[i].Covers(x) && s[i].history.writer == Some(w);
      assert r[i].Covers(x);
    }
    if ReaderAt(s, x, w) {
      var i :| 0 <= i < |s| && s[i].Covers(x) && w in s[i].history.readers;
      assert r[i].Covers(x) && w in r[i].history.readers;
    } else if offset <= x < end && w == instruction {
      TilesCover(s, offset, end, x);
      var i :| 0 <= i < |s| && s[i].Covers(x);
      assert r[i].Covers(x) && w in r[i].history.readers;
    }
    if ReaderAt(r, x, w) {
      var i :| 0 <= i < |r| && r[i].Covers(x) && w in r[i].history.readers;
      InsideTiles(s, offset, end, i);
      assert s[i].Covers(x);
    }
  }

  lemma InsideTiles(s: Segments, offset: int, end: int, i: nat)
    requires Tiles(s, offset, end) && i < |s|
    ensures offset <= s[i].start < s[i].end <= end
  {
    assert s[0].start < s[0].end && s[|s| - 1].start < s[|s| - 1].end;
    assert i > 0 ==> s[0].end <= s[i].start;
    assert i < |s| - 1 ==> s[i].end <= s[|s| - 1].start;
  }

  /** Some byte of the range has `w` as its writer. */
  ghost predicate WriterInRange(s: Segments, offset: int, end: int, w: nat) {
    exists x: int :: offset <= x < end && WriterAt(s, x, w)
  }

  ghost predicate ReaderInRange(s: Segments, offset: int, end: int, w: nat) {
    exists x: int :: offset <= x < end && ReaderAt(s, x, w)
  }

  /** The segments from `lo` to `hi` are those inside the range. */
  ghost predicate IsPart(s: Segments, lo: nat, hi: nat, offset: int, end: int) {
    && Partition(s) && lo <= hi <= |s| && offset < end
    && (forall i :: 0 <= i < lo ==> s[i].end <= offset)
    && (forall i :: lo <= i < hi ==> offset <= s[i].start && s[i].end <= end)
    && forall i :: hi <= i < |s| ==> end <= s[i].start
  }

  lemma PartWriters(s: Segments, lo: nat, hi: nat, offset: int, end: int, w: nat)
    requires IsPart(s, lo, hi, offset, end)
    ensures WriterIn(s[lo..hi], w) <==> WriterInRange(s, offset, end, w)
  {
    if WriterIn(s[lo..hi], w) {
      var i :| 0 <= i < hi - lo && s[lo..hi][i].history.writer == Some(w);
      var x := s[lo + i].start;
      assert s[lo + i].Covers(x);
      assert WriterAt(s, x, w);
    }
    if WriterInRange(s, offset, end, w) {
      var x: int :| offset <= x < end && WriterAt(s, x, w);
      var i :| 0 <= i < |s| && s[i].Covers(x) && s[i].history.writer == Some(w);
      assert s[lo..hi][i - lo] == s[i];
    }
  }

  lemma PartReaders(s: Segments, lo: nat, hi: nat, offset: int, end: int, w: nat)
    requires IsPart(s, lo, hi, offset, end)
    ensures ReaderIn(s[lo..hi], w) <==> ReaderInRange(s, offset, end, w)
  {
    if ReaderIn(s[lo..hi], w) {
      var i :| 0 <= i < hi - lo && w in s[lo..hi][i].history.readers;
      var x := s[lo + i].start;
      assert s[lo + i].Covers(x);
      assert ReaderAt(s, x, w);
    }
    if ReaderInRange(s, offset, end, w) {
      var x: int :| offset <= x < end && ReaderAt(s, x, w);
      var i :| 0 <= i < |s| && s[i].Covers(x) && w in s[i].history.readers;
      assert s[lo..hi][i - lo] == s[i];
    }
  }

  lemma SameRange(s: Segments, r: Segments, offset: int, end: int, w: nat)
    requires SameHistory(s, r)
    ensures WriterInRange(s, offset, end, w) <==> WriterInRange(r, offset, end, w)
    ensures ReaderInRange(s, offset, end, w) <==> ReaderInRange(r, offset, end, w)
  {
    if WriterInRange(s, offset, end, w) {
      var x: int :| offset <= x < end && WriterAt(s, x, w);
      assert WriterAt(r, x, w);
    }
    if ReaderInRange(s, offset, end, w) {
      var x: int :| offset <= x < end && ReaderAt(s, x, w);
      assert ReaderAt(r, x, w);
    }
  }

  /** A segment without history filled in or not, the writers found are those of the range. */
  lemma SameWriters(s: Segments, r: Segments, offset: int, end: int, w: nat)
    requires SameHistory(s, r) && Partition(s) && Partition(r)
    ensures WriterIn(s, w) <==> WriterIn(r, w)
  {
    if WriterIn(s, w) {
      var i :| 0 <= i < |s| && s[i].history.writer == Some(w);
      assert s[i].Covers(s[i].start);
      assert WriterAt(s, s[i].start, w) && WriterAt(r, s[i].start, w);
    }
    if WriterIn(r, w) {
      var i :| 0 <= i < |r| && r[i].history.writer == Some(w);
      assert r[i].Covers(r[i].start);
      assert WriterAt(r, r[i].start, w) && WriterAt(s, r[i].start, w);
    }
  }

  /** What a read of the range leaves: the same writers, and one more reader in the range. */
  ghost predicate ReadOf(s: Segments, r: Segments, offset: int, end: int, instruction: nat) {
    forall x: int, w: nat ::
      (WriterAt(r, x, w) <==> WriterAt(s, x, w)) &&
      (ReaderAt(r, x, w) <==> ReaderAt(s, x, w) || (offset <= x < end && w == instruction))
  }

  lemma ReadPart(s: Segments, lo: nat, hi: nat, offset: int, end: int, filled: Segments, recorded: Segments,
      instruction: nat)
    requires IsPart(s, lo, hi, offset, end) && Tiles(filled, offset, end) && SameHistory(s[lo..hi], filled)
    requires Recorded(filled, recorded, instruction)
    ensures ReadOf(s, s[..lo] + recorded + s[hi..], offset, end, instruction)
  {
    assert s == s[..lo] + s[lo..hi] + s[hi..];
    forall x: int, w: nat
      ensures WriterAt(s[..lo] + recorded + s[hi..], x, w) <==> WriterAt(s, x, w)
      ensures ReaderAt(s[..lo] + recorded + s[hi..], x, w) <==>
                ReaderAt(s, x, w) || (offset <= x < end && w == instruction)
    {
      JoinThree(s[..lo], s[lo..hi], s[hi..], x, w);
      JoinThree(s[..lo], recorded, s[hi..], x, w);
      RecordedHistory(filled, recorded, instruction, offset, end, x, w);
      assert WriterAt(filled, x, w) <==> WriterAt(s[lo..hi], x, w);
      assert ReaderAt(filled, x, w) <==> ReaderAt(s[lo..hi], x, w);
    }
  }

  lemma ReplacePart(s: Segments, lo: nat, hi: nat, offset: int, end: int, middle: Segments)
    requires IsPart(s, lo, hi, offset, end) && Partition(middle)
    requires forall i :: 0 <= i < |middle| ==> offset <= middle[i].start && middle[i].end <= end
    ensures Partition(s[..lo] + middle + s[hi..])
  {
  }

  /** Records a read of the bytes from `offset` to `end` and collects their writers. */
  method ReadRange(s: Segments, offset: int, end: int, instruction: nat, dependencies: set<nat>)
      returns (r: Segments, found: set<nat>)
    requires Partition(s) && offset < end
    ensures Partition(r) && ReadOf(s, r, offset, end, instruction)
    ensures forall w: nat :: w in found <==> w in dependencies || WriterInRange(s, offset, end, w)
  {
    var cut, lo, hi := Isolate(s, offset, end);
    var filled := FillGaps(cut[lo..hi], offset, end);
    var recorded;
    recorded, found := RecordAll(filled, instruction, dependencies);
    r := cut[..lo] + recorded + cut[hi..];
    forall i: nat | i < |recorded| ensures offset <= recorded[i].start && recorded[i].end <= end {
      InsideTiles(filled, offset, end, i);
    }
    ReplacePart(cut, lo, hi, offset, end, recorded);
    ReadPart(cut, lo, hi, offset, end, filled, recorded, instruction);
    forall w: nat ensures w in found <==> w in dependencies || WriterInRange(s, offset, end, w) {
      SameWriters(cut[lo..hi], filled, offset, end, w);
      PartWriters(cut, lo, hi, offset, end, w);
      SameRange(s, cut, offset, end, w);
    }
    ReadOfSame(s, cut, r, offset, end, instruction);
  }

  lemma ReadOfSame(s: Segments, cut: Segments, r: Segments, offset: int, end: int, instruction: nat)
    requires SameHistory(s, cut) && ReadOf(cut, r, offset, end, instruction)
    ensures ReadOf(s, r, offset, end, instruction)
  {
  }

  // ------------------------------------------------------------ writing

  /** What a write of the range leaves: itself as the only history there, the rest unchanged. */
  ghost predicate WriteOf(s: Segments, r: Segments, offset: int, end: int, instruction: nat) {
    forall x: int, w: nat ::
      (WriterAt(r, x, w) <==> if offset <= x < end then w == instruction else WriterAt(s, x, w)) &&
      (ReaderAt(r, x, w) <==> !(offset <= x < end) && ReaderAt(s, x, w))
  }

  method CollectAll(s: Segments, dependencies: set<nat>) returns (found: set<nat>)
    ensures forall w: nat :: w in found <==> w in dependencies || WriterIn(s, w) || ReaderIn(s, w)
  {
    found := dependencies;
    for k := 0 to |s|
      invariant forall w: nat :: w in found <==> w in dependencies || WriterIn(s[..k], w) || ReaderIn(s[..k], w)
    {
      forall w: nat
        ensures WriterIn(s[..k + 1], w) <==> WriterIn(s[..k], w) || s[k].history.writer == Some(w)
        ensures ReaderIn(s[..k + 1], w) <==> ReaderIn(s[..k], w) || w in s[k].history.readers
      {
        InMore(s, k, w);
      }
      match s[k].history.writer {
        case Some(w) => found := found + {w};
        case None =>
      }
      found := found + set w | w in s[k].history.readers;
    }
    assert s[..|s|] == s;
  }

  lemma InMore(s: Segments, k: nat, w: nat)
    requires k < |s|
    ensures WriterIn(s[..k + 1], w) <==> WriterIn(s[..k], w) || s[k].history.writer == Some(w)
    ensures ReaderIn(s[..k + 1], w) <==> ReaderIn(s[..k], w) || w in s[k].history.readers
  {
    if WriterIn(s[..k], w) {
      var i :| 0 <= i < k && s[..k][i].history.writer == Some(w);
      assert s[..k + 1][i].history.writer == Some(w);
    }
    if ReaderIn(s[..k], w) {
      var i :| 0 <= i < k && w in s[..k][i].history.readers;
      assert w in s[..k + 1][i].history.readers;
    }
    assert s[..k + 1][k] == s[k];
  }

  method CollectWriters(s: Segments, dependencies: set<nat>) returns (found: set<nat>)
    ensures forall w: nat :: w in found <==> w in dependencies || WriterIn(s, w)
  {
    found := dependencies;
    for k := 0 to |s|
      invariant forall w: nat :: w in found <==> w in dependencies || WriterIn(s[..k], w)
    {
      forall w: nat ensures WriterIn(s[..k + 1], w) <==> WriterIn(s[..k], w) || s[k].history.writer == Some(w) {
        InMore(s, k, w);
      }
      match s[k].history.writer {
        case Some(w) => found := found + {w};
        case None =>
      }
    }
    assert s[..|s|] == s;
  }

  lemma WritePart(s: Segments, lo: nat, hi: nat, offset: int, end: int, instruction: nat)
    requires IsPart(s, lo, hi, offset, end)
    ensures WriteOf(s, s[..lo] + [Segment(offset, end, History(Some(instruction), []))] + s[hi..], offset, end,
              instruction)
  {
    var middle := [Segment(offset, end, History(Some(instruction), []))];
    assert s == s[..lo] + s[lo..hi] + s[hi..];
    forall x: int, w: nat
      ensures WriterAt(s[..lo] + middle + s[hi..], x, w) <==>
                if offset <= x < end then w == instruction else WriterAt(s, x, w)
      ensures ReaderAt(s[..lo] + middle + s[hi..], x, w) <==> !(offset <= x < end) && ReaderAt(s, x, w)
    {
      JoinThree(s[..lo], s[lo..hi], s[hi..], x, w);
      JoinThree(s[..lo], middle, s[hi..], x, w);
      assert middle[0].Covers(x) <==> offset <= x < end;
      OutsidePart(s, lo, hi, offset, end, x, w);
    }
  }

  lemma OutsidePart(s: Segments, lo: nat, hi: nat, offset: int, end: int, x: int, w: nat)
    requires IsPart(s, lo, hi, offset, end)
    ensures WriterAt(s[..lo], x, w) || ReaderAt(s[..lo], x, w) ==> x < offset
    ensures WriterAt(s[hi..], x, w) || ReaderAt(s[hi..], x, w) ==> end <= x
    ensures WriterAt(s[lo..hi], x, w) || ReaderAt(s[lo..hi], x, w) ==> offset <= x < end
  {
  }

  /** Two touching segments with equal histories become one. */
  lemma FuseKeeps(s: Segments, k: nat)
    requires Partition(s) && k + 1 < |s| && Fusible(s, k)
    ensures Partition(Fused(s, k)) && SameHistory(s, Fused(s, k))
  {
    var a, b, c := s[..k], [s[k].(end := s[k + 1].end)], s[k + 2..];
    var pair := [s[k], s[k + 1]];
    assert s == a + pair + c;
    forall x: int, w: nat
      ensures (WriterAt(a + b + c, x, w) <==> WriterAt(s, x, w)) && (ReaderAt(a + b + c, x, w) <==> ReaderAt(s, x, w))
    {
      JoinThree(a, b, c, x, w);
      JoinThree(a, pair, c, x, w);
      assert b[0].Covers(x) <==> pair[0].Covers(x) || pair[1].Covers(x);
    }
  }

  /** Two neighbours that touch and have the same history. */
  predicate Fusible(s: Segments, k: nat)
    requires k + 1 < |s|
  {
    s[k].end == s[k + 1].start && s[k].history == s[k + 1].history
  }

  function Fused(s: Segments, k: nat): (r: Segments)
    requires k + 1 < |s|
    ensures |r| == |s| - 1
  {
    s[..k] + [s[k].(end := s[k + 1].end)] + s[k + 2..]
  }

  /** Merges segment `k` with equal neighbours that touch it, the one before first. */
  method CoalesceAround(s: Segments, k: nat) returns (r: Segments)
    requires Partition(s) && k < |s|
    ensures Partition(r) && SameHistory(s, r) && |r| <= |s|
    ensures |r| == |s| ==> r == s
    ensures |r| == |s| && k > 0 ==> !Fusible(s, k - 1)
    ensures |r| == |s| && k + 1 < |s| ==> !Fusible(s, k)
  {
    r := s;
    var at := k;
    if at > 0 && Fusible(r, at - 1) {
      FuseKeeps(r, at - 1);
      r := Fused(r, at - 1);
      at := at - 1;
    }
    ghost var half := r;
    if at + 1 < |r| && Fusible(r, at) {
      FuseKeeps(r, at);
      r := Fused(r, at);
    }
    SameTwice(s, half, r);
  }

  lemma SameTwice(s: Segments, half: Segments, r: Segments)
    requires SameHistory(s, half) && SameHistory(half, r)
    ensures SameHistory(s, r)
  {
  }

  /** Collects the writers and readers of the bytes from `offset` to `end` and replaces their history by the write. */
  method WriteRange(s: Segments, offset: int, end: int, instruction: nat, dependencies: set<nat>)
      returns (r: Segments, found: set<nat>)
    requires Partition(s) && offset < end
    ensures Partition(r) && WriteOf(s, r, offset, end, instruction)
    ensures forall w: nat :: w in found <==>
      w in dependencies || WriterInRange(s, offset, end, w) || ReaderInRange(s, offset, end, w)
  {
    var cut, lo, hi := Isolate(s, offset, end);
    found := CollectAll(cut[lo..hi], dependencies);
    var segment := Segment(offset, end, History(Some(instruction), []));
    var written := cut[..lo] + [segment] + cut[hi..];
    ReplacePart(cut, lo, hi, offset, end, [segment]);
    WritePart(cut, lo, hi, offset, end, instruction);
    forall w: nat
      ensures w in found <==> w in dependencies || WriterInRange(s, offset, end, w) || ReaderInRange(s, offset, end, w)
    {
      PartWriters(cut, lo, hi, offset, end, w);
      PartReaders(cut, lo, hi, offset, end, w);
      SameRange(s, cut, offset, end, w);
    }
    r := CoalesceAround(written, lo);
    WriteOfSame(s, cut, written, r, offset, end, instruction);
  }

  lemma WriteOfSame(s: Segments, cut: Segments, written: Segments, r: Segments, offset: int, end: int, instruction: nat)
    requires SameHistory(s, cut) && WriteOf(cut, written, offset, end, instruction) && SameHistory(written, r)
    ensures WriteOf(s, r, offset, end, instruction)
  {
  }
}
