/** The delta encoding of a memory update: write_patch diffs a buffer against its clone in 8-byte blocks,
    read_patch applies the result (src/filewriter.cpp:34-104, src/filereader.h:96-117). */
module PatchCodec {
  import opened Bytes
  import opened TraceFile

  // ---- the plain block scan that says what the diff is

  function BlockEnd(at: nat, hi: nat): nat {
    if at + 8 <= hi then at + 8 else hi
  }

  /** The block at `at`, at most 8 bytes and cut off at hi, is the same on both sides. */
  predicate BlockEqual(orig: seq<byte>, chng: seq<byte>, at: nat, hi: nat)
    requires at < hi <= |orig| && |chng| == |orig|
  {
    forall k | at <= k < BlockEnd(at, hi) :: orig[k] == chng[k]
  }

  /** Start of the first differing block from `at` on; hi when there is none. */
  function SkipEqual(orig: seq<byte>, chng: seq<byte>, at: nat, hi: nat): (pos: nat)
    requires at <= hi <= |orig| && |chng| == |orig|
    ensures at <= pos <= hi
    decreases hi - at
  {
    if at == hi then hi
    else if BlockEqual(orig, chng, at, hi) then SkipEqual(orig, chng, BlockEnd(at, hi), hi)
    else at
  }

  /** End of the run of differing blocks that starts at `at`. */
  function RunEnd(orig: seq<byte>, chng: seq<byte>, at: nat, hi: nat): (pos: nat)
    requires at <= hi <= |orig| && |chng| == |orig|
    ensures at <= pos <= hi
    decreases hi - at
  {
    if at == hi then hi
    else if BlockEqual(orig, chng, at, hi) then at
    else RunEnd(orig, chng, BlockEnd(at, hi), hi)
  }

  datatype Span = Span(start: nat, end: nat)

  /** All runs of differing blocks in [at, hi). */
  function Runs(orig: seq<byte>, chng: seq<byte>, at: nat, hi: nat): seq<Span>
    requires at <= hi <= |orig| && |chng| == |orig|
    decreases hi - at
  {
    var start := SkipEqual(orig, chng, at, hi);
    if start == hi then []
    else
      SkipStopsAtDifference(orig, chng, at, hi);
      var end := RunEnd(orig, chng, start, hi);
      [Span(start, end)] + Runs(orig, chng, end, hi)
  }

  lemma {:induction false} SkipStopsAtDifference(orig: seq<byte>, chng: seq<byte>, at: nat, hi: nat)
    requires at <= hi <= |orig| && |chng| == |orig|
    ensures var pos := SkipEqual(orig, chng, at, hi);
      && (pos < hi ==> !BlockEqual(orig, chng, pos, hi) && RunEnd(orig, chng, pos, hi) > pos)
      && SkipEqual(orig, chng, pos, hi) == pos
      && forall k | at <= k < pos :: orig[k] == chng[k]
    decreases hi - at
  {
    if at < hi && BlockEqual(orig, chng, at, hi) {
      SkipStopsAtDifference(orig, chng, BlockEnd(at, hi), hi);
    }
  }

  // ---- the diff is what it should be: the maximal runs of differing blocks, no more and no less

  predicate Covered(spans: seq<Span>, at: nat) {
    exists i | 0 <= i < |spans| :: spans[i].start <= at < spans[i].end
  }

  predicate IsBlockStart(at: nat, lo: nat, hi: nat) {
    lo <= at < hi && (at - lo) % 8 == 0
  }

  predicate Aligned(spans: seq<Span>, lo: nat, hi: nat) {
    forall i | 0 <= i < |spans| ::
      && IsBlockStart(spans[i].start, lo, hi) && spans[i].start < spans[i].end <= hi
      && (spans[i].end == hi || IsBlockStart(spans[i].end, lo, hi))
  }

  predicate Apart(spans: seq<Span>) {
    forall i | 0 < i < |spans| :: spans[i - 1].end < spans[i].start
  }

  /** The maximal runs of differing blocks among the blocks from `at` on. */
  ghost predicate MaximalFrom(orig: seq<byte>, chng: seq<byte>, lo: nat, at: nat, hi: nat, spans: seq<Span>)
    requires lo <= hi <= |orig| && |chng| == |orig|
  {
    && Aligned(spans, lo, hi) && Apart(spans)
    && (forall k: nat | IsBlockStart(k, lo, hi) && at <= k :: Covered(spans, k) <==> !BlockEqual(orig, chng, k, hi))
  }

  ghost predicate MaximalRuns(orig: seq<byte>, chng: seq<byte>, lo: nat, hi: nat, spans: seq<Span>)
    requires lo <= hi <= |orig| && |chng| == |orig|
  {
    MaximalFrom(orig, chng, lo, lo, hi, spans)
  }

  lemma {:induction false} SkipIsBlockwise(orig: seq<byte>, chng: seq<byte>, lo: nat, at: nat, hi: nat)
    requires lo <= at <= hi <= |orig| && |chng| == |orig| && (at == hi || IsBlockStart(at, lo, hi))
    ensures var pos := SkipEqual(orig, chng, at, hi);
      && (pos == hi || IsBlockStart(pos, lo, hi))
      && forall k: nat | IsBlockStart(k, lo, hi) && at <= k < pos :: BlockEqual(orig, chng, k, hi)
    decreases hi - at
  {
    if at < hi && BlockEqual(orig, chng, at, hi) {
      SkipIsBlockwise(orig, chng, lo, BlockEnd(at, hi), hi);
    }
  }

  lemma {:induction false} RunIsBlockwise(orig: seq<byte>, chng: seq<byte>, lo: nat, at: nat, hi: nat)
    requires lo <= at <= hi <= |orig| && |chng| == |orig| && (at == hi || IsBlockStart(at, lo, hi))
    ensures var pos := RunEnd(orig, chng, at, hi);
      && (pos < hi ==> IsBlockStart(pos, lo, hi) && BlockEqual(orig, chng, pos, hi))
      && forall k: nat | IsBlockStart(k, lo, hi) && at <= k < pos :: !BlockEqual(orig, chng, k, hi)
    decreases hi - at
  {
    if at < hi && !BlockEqual(orig, chng, at, hi) {
      RunIsBlockwise(orig, chng, lo, BlockEnd(at, hi), hi);
    }
  }

  predicate StartFrom(spans: seq<Span>, at: nat) {
    forall i | 0 <= i < |spans| :: at <= spans[i].start
  }

  lemma MaximalCons(orig: seq<byte>, chng: seq<byte>, lo: nat, at: nat, hi: nat, first: Span, rest: seq<Span>)
    requires lo <= at <= first.start < first.end <= hi <= |orig| && |chng| == |orig|
    requires Aligned([first], lo, hi) && StartFrom(rest, first.end + 1) && MaximalFrom(orig, chng, lo, first.end, hi, rest)
    requires forall k: nat | IsBlockStart(k, lo, hi) && at <= k < first.start :: BlockEqual(orig, chng, k, hi)
    requires forall k: nat | IsBlockStart(k, lo, hi) && first.start <= k < first.end :: !BlockEqual(orig, chng, k, hi)
    ensures MaximalFrom(orig, chng, lo, at, hi, [first] + rest) && StartFrom([first] + rest, first.start)
  {
    assert [first][0] == first;
    forall k: nat | IsBlockStart(k, lo, hi) && at <= k
      ensures Covered([first] + rest, k) <==> !BlockEqual(orig, chng, k, hi)
    {
      CoveredCons(first, rest, k);
    }
  }

  /** The runs from some block on, past what is equal there. */
  lemma {:induction false} RunsFromAreMaximal(orig: seq<byte>, chng: seq<byte>, lo: nat, at: nat, hi: nat)
    requires lo <= at <= hi <= |orig| && |chng| == |orig| && (at == hi || IsBlockStart(at, lo, hi))
    ensures MaximalFrom(orig, chng, lo, at, hi, Runs(orig, chng, at, hi))
    ensures StartFrom(Runs(orig, chng, at, hi), SkipEqual(orig, chng, at, hi))
    decreases hi - at
  {
    var start := SkipEqual(orig, chng, at, hi);
    SkipIsBlockwise(orig, chng, lo, at, hi);
    if start < hi {
      SkipStopsAtDifference(orig, chng, at, hi);
      RunIsBlockwise(orig, chng, lo, start, hi);
      var end := RunEnd(orig, chng, start, hi);
      RunsFromAreMaximal(orig, chng, lo, end, hi);
      assert end < hi ==> SkipEqual(orig, chng, end, hi) > end;
      MaximalCons(orig, chng, lo, at, hi, Span(start, end), Runs(orig, chng, end, hi));
    }
  }

  lemma CoveredCons(first: Span, rest: seq<Span>, at: nat)
    ensures Covered([first] + rest, at) <==> first.start <= at < first.end || Covered(rest, at)
  {
    var spans := [first] + rest;
    if first.start <= at < first.end {
      assert spans[0] == first;
    } else if Covered(rest, at) {
      var i :| 0 <= i < |rest| && rest[i].start <= at < rest[i].end;
      assert spans[i + 1] == rest[i];
    }
  }

  /** Canonical form: for every pair of buffers the plain scan yields exactly the maximal runs. */
  lemma RunsAreMaximal(orig: seq<byte>, chng: seq<byte>, lo: nat, hi: nat)
    requires lo <= hi <= |orig| && |chng| == |orig|
    ensures MaximalRuns(orig, chng, lo, hi, Runs(orig, chng, lo, hi))
  {
    RunsFromAreMaximal(orig, chng, lo, lo, hi);
  }

  // ---- the runs as a list of changes, each with an offset that counts from the end of the one before

  datatype Change = Change(skip: nat, data: seq<byte>)

  function Diff(orig: seq<byte>, chng: seq<byte>, from: nat, at: nat, hi: nat): seq<Change>
    requires from <= at <= hi <= |orig| && |chng| == |orig|
    decreases hi - at
  {
    var start := SkipEqual(orig, chng, at, hi);
    if start == hi then []
    else
      SkipStopsAtDifference(orig, chng, at, hi);
      var end := RunEnd(orig, chng, start, hi);
      [Change(start - from, chng[start..end])] + Diff(orig, chng, end, end, hi)
  }

  /** The i-th change carries the i-th maximal run: its bytes, and its distance from the run before. */
  lemma {:induction false} DiffFollowsRuns(orig: seq<byte>, chng: seq<byte>, from: nat, at: nat, hi: nat, i: nat)
    requires from <= at <= hi <= |orig| && |chng| == |orig|
    requires i < |Diff(orig, chng, from, at, hi)|
    ensures |Runs(orig, chng, at, hi)| == |Diff(orig, chng, from, at, hi)|
    ensures var run, change := Runs(orig, chng, at, hi)[i], Diff(orig, chng, from, at, hi)[i];
      && run.start < run.end <= hi && change.data == chng[run.start..run.end]
      && change.skip == run.start - (if i == 0 then from else Runs(orig, chng, at, hi)[i - 1].end)
    decreases hi - at
  {
    var start := SkipEqual(orig, chng, at, hi);
    var end := RunEnd(orig, chng, start, hi);
    SkipStopsAtDifference(orig, chng, at, hi);
    if i > 0 {
      DiffFollowsRuns(orig, chng, end, end, hi, i - 1);
    } else if Diff(orig, chng, end, end, hi) != [] {
      DiffFollowsRuns(orig, chng, end, end, hi, 0);
    }
  }

  function TotalSize(changes: seq<Change>): nat {
    if changes == [] then 0 else |changes[0].data| + TotalSize(changes[1..])
  }

  lemma {:induction false} TotalSizeConcat(a: seq<Change>, b: seq<Change>)
    ensures TotalSize(a + b) == TotalSize(a) + TotalSize(b)
  {
    if a == [] {
      Unit(b);
    } else {
      TotalSizeConcat(a[1..], b);
      assert (a + b)[1..] == a[1..] + b;
    }
  }

  /** Byte k lies in a differing block, counting blocks of eight from lo. */
  predicate InDifferingBlock(orig: seq<byte>, chng: seq<byte>, lo: nat, k: nat, hi: nat)
    requires lo <= k < hi <= |orig| && |chng| == |orig|
  {
    !BlockEqual(orig, chng, k - (k - lo) % 8, hi)
  }

  /** How many bytes from `at` on lie in differing blocks. */
  function Differing(orig: seq<byte>, chng: seq<byte>, lo: nat, at: nat, hi: nat): nat
    requires lo <= at <= hi <= |orig| && |chng| == |orig|
    decreases hi - at
  {
    if at == hi then 0
    else (if InDifferingBlock(orig, chng, lo, at, hi) then 1 else 0) + Differing(orig, chng, lo, at + 1, hi)
  }

  lemma {:induction false} DifferingAlong(orig: seq<byte>, chng: seq<byte>, lo: nat, at: nat, end: nat, hi: nat, differ: bool)
    requires lo <= at <= end <= hi <= |orig| && |chng| == |orig|
    requires forall k: nat | at <= k < end :: InDifferingBlock(orig, chng, lo, k, hi) == differ
    ensures Differing(orig, chng, lo, at, hi) == (if differ then end - at else 0) + Differing(orig, chng, lo, end, hi)
    decreases end - at
  {
    if at < end {
      DifferingAlong(orig, chng, lo, at + 1, end, hi, differ);
    }
  }

  lemma BlockOf(lo: nat, at: nat, k: nat, hi: nat)
    requires lo <= at <= k < hi && IsBlockStart(at, lo, hi)
    ensures at <= k - (k - lo) % 8 && IsBlockStart(k - (k - lo) % 8, lo, hi)
  {}

  /** The records together carry exactly the bytes of the differing blocks. */
  lemma {:induction false} SizeIsDiffering(orig: seq<byte>, chng: seq<byte>, from: nat, lo: nat, at: nat, hi: nat)
    requires from <= at && lo <= at <= hi <= |orig| && |chng| == |orig| && (at == hi || IsBlockStart(at, lo, hi))
    ensures TotalSize(Diff(orig, chng, from, at, hi)) == Differing(orig, chng, lo, at, hi)
    decreases hi - at
  {
    var start := SkipEqual(orig, chng, at, hi);
    SkipIsBlockwise(orig, chng, lo, at, hi);
    forall k: nat | at <= k < start ensures !InDifferingBlock(orig, chng, lo, k, hi) {
      BlockOf(lo, at, k, hi);
    }
    DifferingAlong(orig, chng, lo, at, start, hi, false);
    if start < hi {
      SkipStopsAtDifference(orig, chng, at, hi);
      RunIsBlockwise(orig, chng, lo, start, hi);
      var end := RunEnd(orig, chng, start, hi);
      forall k: nat | start <= k < end ensures InDifferingBlock(orig, chng, lo, k, hi) {
        BlockOf(lo, start, k, hi);
      }
      DifferingAlong(orig, chng, lo, start, end, hi, true);
      SizeIsDiffering(orig, chng, end, lo, end, hi);
      DiffFrom(orig, chng, from, at, hi, start, end);
      TotalSizeCons(Change(start - from, chng[start..end]), Diff(orig, chng, end, end, hi));
    }
  }

  lemma TotalSizeCons(first: Change, later: seq<Change>)
    ensures TotalSize([first] + later) == |first.data| + TotalSize(later)
  {
    assert ([first] + later)[1..] == later;
  }

  // ---- the byte form

  /** Relative offset, size, payload. */
  function Record(skip: nat, data: seq<byte>): seq<byte> {
    LittleEndian(skip, 4) + LittleEndian(|data|, 4) + data
  }

  const TERMINATOR: seq<byte> := LittleEndian(0, 4) + LittleEndian(0, 4)

  function Encode(changes: seq<Change>): seq<byte> {
    if changes == [] then TERMINATOR else Record(changes[0].skip, changes[0].data) + Encode(changes[1..])
  }

  datatype Parsed = Parsed(changes: seq<Change>, consumed: nat)

  /** A patch at the front of a stream: records up to the first one with offset and size zero. */
  function Parse(s: seq<byte>): (r: Option<Parsed>)
    ensures r.Some? ==> 8 <= r.value.consumed <= |s|
    decreases |s|
  {
    if |s| < 8 then None
    else
      var skip, size := Field(s, 0, 4), Field(s, 4, 4);
      if 8 + size > |s| then None
      else if skip == 0 && size == 0 then Some(Parsed([], 8))
      else
        var rest := Parse(s[8 + size..]);
        if rest.None? then None
        else Some(Parsed([Change(skip, s[8..8 + size])] + rest.value.changes, 8 + size + rest.value.consumed))
  }

  /** A change the byte form can carry: 32-bit fields, and not mistaken for the terminator. */
  predicate Encodable(change: Change) {
    change.skip < U32_LIMIT && |change.data| < U32_LIMIT && !(change.skip == 0 && change.data == [])
  }

  lemma RecordReadsBack(skip: nat, data: seq<byte>, rest: seq<byte>)
    requires skip < U32_LIMIT && |data| < U32_LIMIT
    ensures var s := Record(skip, data) + rest;
      && Field(s, 0, 4) == skip && Field(s, 4, 4) == |data| && |s| >= 8 + |data|
      && s[8..8 + |data|] == data && s[8 + |data|..] == rest
  {
    var s, a, b := Record(skip, data) + rest, LittleEndian(skip, 4), LittleEndian(|data|, 4);
    assert s[0..4] == a;
    assert s[4..8] == b;
    Pow256Values();
    DecodeEncode(skip, 4);
    DecodeEncode(|data|, 4);
  }

  /** What a record and the patch behind it are read as. */
  function Preceded(skip: nat, data: seq<byte>, rest: Option<Parsed>): Option<Parsed> {
    if skip == 0 && data == [] then Some(Parsed([], 8))
    else if rest.None? then None
    else Some(Parsed([Change(skip, data)] + rest.value.changes, 8 + |data| + rest.value.consumed))
  }

  lemma ParseBehind(s: seq<byte>, skip: nat, data: seq<byte>, rest: seq<byte>)
    requires |s| >= 8 + |data| && Field(s, 0, 4) == skip && Field(s, 4, 4) == |data|
    requires s[8..8 + |data|] == data && s[8 + |data|..] == rest
    ensures Parse(s) == Preceded(skip, data, Parse(rest))
  {}

  lemma ParseRecord(skip: nat, data: seq<byte>, rest: seq<byte>)
    requires skip < U32_LIMIT && |data| < U32_LIMIT
    ensures Parse(Record(skip, data) + rest) == Preceded(skip, data, Parse(rest))
  {
    RecordReadsBack(skip, data, rest);
    ParseBehind(Record(skip, data) + rest, skip, data, rest);
  }

  lemma ParseCons(first: Change, later: seq<Change>, tail: seq<byte>, rest: seq<byte>)
    requires Encodable(first) && Parse(tail + rest) == Some(Parsed(later, |tail|))
    ensures var record := Record(first.skip, first.data);
      Parse((record + tail) + rest) == Some(Parsed([first] + later, |record + tail|))
  {
    ParseRecord(first.skip, first.data, tail + rest);
    Assoc(Record(first.skip, first.data), tail, rest);
  }

  /** The byte form is read back exactly, the terminator included and nothing after it. */
  lemma {:induction false} ParseEncode(changes: seq<Change>, rest: seq<byte>)
    requires forall change | change in changes :: Encodable(change)
    ensures Parse(Encode(changes) + rest) == Some(Parsed(changes, |Encode(changes)|))
  {
    if changes == [] {
      Unit(TERMINATOR);
      ParseRecord(0, [], rest);
    } else {
      ParseEncode(changes[1..], rest);
      ParseCons(changes[0], changes[1..], Encode(changes[1..]), rest);
      assert [changes[0]] + changes[1..] == changes;
    }
  }

  lemma {:induction false} DiffIsEncodable(orig: seq<byte>, chng: seq<byte>, from: nat, at: nat, hi: nat)
    requires from <= at <= hi <= |orig| && |chng| == |orig| && hi < U32_LIMIT
    ensures forall change | change in Diff(orig, chng, from, at, hi) :: Encodable(change)
    decreases hi - at
  {
    var start := SkipEqual(orig, chng, at, hi);
    SkipStopsAtDifference(orig, chng, at, hi);
    if start < hi {
      var end := RunEnd(orig, chng, start, hi);
      DiffIsEncodable(orig, chng, end, end, hi);
    }
  }

  // ---- applying a patch

  /** The bytes changes reach up to, when the first offset counts from `from`. */
  function Extent(changes: seq<Change>, from: nat): (end: nat)
    ensures from <= end
    decreases |changes|
  {
    if changes == [] then from else Extent(changes[1..], from + changes[0].skip + |changes[0].data|)
  }

  function Patched(buf: seq<byte>, changes: seq<Change>, from: nat): (r: seq<byte>)
    requires Extent(changes, from) <= |buf|
    ensures |r| == |buf|
    decreases |changes|
  {
    if changes == [] then buf
    else
      var at := from + changes[0].skip;
      Patched(Splice(buf, at, changes[0].data), changes[1..], at + |changes[0].data|)
  }

  lemma PatchedStep(buf: seq<byte>, changes: seq<Change>, rest: seq<Change>, from: nat, at: nat, end: nat, next: seq<byte>)
    requires changes != [] && rest == changes[1..] && at == from + changes[0].skip && end == at + |changes[0].data| <= |buf|
    requires next == Splice(buf, at, changes[0].data) && Extent(rest, end) <= |buf|
    ensures Extent(changes, from) == Extent(rest, end)
    ensures Patched(buf, changes, from) == Patched(next, rest, end)
  {}

  /** The diff of [at, hi) is empty, or one change followed by the diff behind it; what lies in front of
      that change is equal on both sides. */
  lemma DiffFrom(orig: seq<byte>, chng: seq<byte>, from: nat, at: nat, hi: nat, start: nat, end: nat)
    requires from <= at <= hi <= |orig| && |chng| == |orig|
    requires start == SkipEqual(orig, chng, at, hi) && end == RunEnd(orig, chng, start, hi)
    ensures Diff(orig, chng, from, at, hi) ==
      if start == hi then [] else [Change(start - from, chng[start..end])] + Diff(orig, chng, end, end, hi)
  {}

  lemma DiffCons(orig: seq<byte>, chng: seq<byte>, from: nat, at: nat, hi: nat) returns (start: nat, end: nat)
    requires from <= at <= hi <= |orig| && |chng| == |orig|
    ensures at <= start <= end <= hi && (start < hi ==> start < end) && end == RunEnd(orig, chng, start, hi)
    ensures forall k | at <= k < start :: orig[k] == chng[k]
    ensures Diff(orig, chng, from, at, hi) ==
      if start == hi then [] else [Change(start - from, chng[start..end])] + Diff(orig, chng, end, end, hi)
  {
    start := SkipEqual(orig, chng, at, hi);
    end := RunEnd(orig, chng, start, hi);
    SkipStopsAtDifference(orig, chng, at, hi);
    DiffFrom(orig, chng, from, at, hi, start, end);
  }

  lemma SpliceInThree(buf: seq<byte>, chng: seq<byte>, at: nat, start: nat, end: nat, hi: nat)
    requires at <= start <= end <= hi <= |buf| == |chng|
    requires forall k | at <= k < start :: buf[k] == chng[k]
    ensures Splice(Splice(buf, start, chng[start..end]), end, chng[end..hi]) == Splice(buf, at, chng[at..hi])
  {}

  lemma SkippedPartIsEqual(buf: seq<byte>, chng: seq<byte>, at: nat, hi: nat)
    requires at <= hi <= |buf| == |chng| && forall k | at <= k < hi :: buf[k] == chng[k]
    ensures Splice(buf, at, chng[at..hi]) == buf
  {}

  lemma PatchFirst(buf: seq<byte>, changes: seq<Change>, rest: seq<Change>, from: nat, start: nat, end: nat,
                   data: seq<byte>, next: seq<byte>, goal: seq<byte>)
    requires from <= start && end == start + |data| <= |buf| && changes == [Change(start - from, data)] + rest
    requires next == Splice(buf, start, data) && Extent(rest, end) <= |next| && Patched(next, rest, end) == goal
    ensures Extent(changes, from) <= |buf| && Patched(buf, changes, from) == goal
  {
    assert changes[0] == Change(start - from, data) && changes[1..] == rest;
    PatchedStep(buf, changes, rest, from, start, end, next);
  }

  /** Applying the diff of [at, hi) gives the changed bytes on that range and touches nothing else. */
  lemma {:induction false} DiffRestores(buf: seq<byte>, orig: seq<byte>, chng: seq<byte>, from: nat, at: nat, hi: nat)
    requires from <= at <= hi <= |orig| && |chng| == |orig| == |buf|
    requires forall k | at <= k < |buf| :: buf[k] == orig[k]
    ensures Extent(Diff(orig, chng, from, at, hi), from) <= |buf|
    ensures Patched(buf, Diff(orig, chng, from, at, hi), from) == Splice(buf, at, chng[at..hi])
    decreases hi - at
  {
    var start, end := DiffCons(orig, chng, from, at, hi);
    if start == hi {
      SkippedPartIsEqual(buf, chng, at, hi);
    } else {
      var data, rest := chng[start..end], Diff(orig, chng, end, end, hi);
      var next := Splice(buf, start, data);
      DiffRestores(next, orig, chng, end, end, hi);
      SpliceInThree(buf, chng, at, start, end, hi);
      PatchFirst(buf, Diff(orig, chng, from, at, hi), rest, from, start, end, data, next, Splice(buf, at, chng[at..hi]));
    }
  }

  // ---- what the 32-bit fields carry

  /** A change with fields of 32 bits; `pending` is what the offset register already holds. */
  function Cut(change: Change, pending: nat): (r: Change)
    ensures r.skip < U32_LIMIT && |r.data| < U32_LIMIT
  {
    Change((pending + change.skip) % U32_LIMIT, change.data[..|change.data| % U32_LIMIT])
  }

  /** The changes as they are written. A run whose size comes out as zero is not written, and its offset is
      kept for the next one. */
  function Written(changes: seq<Change>, pending: nat): (r: seq<Change>)
    ensures forall change | change in r :: Encodable(change)
    decreases |changes|
  {
    if changes == [] then [] else
      var cut := Cut(changes[0], pending);
      if cut.data == [] then Written(changes[1..], cut.skip) else [cut] + Written(changes[1..], 0)
  }

  /** Every record gets its space: check_space(8 + c) is asked for in 32 bits. */
  predicate SpaceFits(changes: seq<Change>) {
    changes == [] || (8 + |changes[0].data| % U32_LIMIT < U32_LIMIT && SpaceFits(changes[1..]))
  }

  /** The patch as it comes into the stream; None when a record is written beyond the space that was asked for. */
  function PatchOf(changes: seq<Change>): Option<seq<Change>> {
    if SpaceFits(changes) then Some(Written(changes, 0)) else None
  }

  lemma NothingToCut(change: Change)
    requires Encodable(change)
    ensures Cut(change, 0) == change
  {
    assert change.data[..|change.data|] == change.data;
  }

  lemma {:induction false} WrittenInFull(changes: seq<Change>)
    requires forall change | change in changes :: Encodable(change) && change.data != []
    ensures Written(changes, 0) == changes
    decreases |changes|
  {
    if changes != [] {
      var first, later := changes[0], changes[1..];
      assert first in changes && forall change | change in later :: change in changes;
      WrittenInFull(later);
      NothingToCut(first);
      assert [first] + later == changes;
    }
  }

  lemma {:induction false} ExtentMoves(changes: seq<Change>, from: nat, shift: nat)
    ensures Extent(changes, from + shift) == Extent(changes, from) + shift
    decreases |changes|
  {
    if changes != [] {
      ExtentMoves(changes[1..], from + changes[0].skip + |changes[0].data|, shift);
    }
  }

  /** What the fields lose: nothing, or 2^32 bytes and more. */
  lemma CutLoses(change: Change, pending: nat) returns (lost: nat)
    requires change.data != []
    ensures Cut(change, pending).skip + |Cut(change, pending).data| + lost == pending + change.skip + |change.data|
    ensures !Encodable(change) || Cut(change, pending).data == [] ==> lost >= U32_LIMIT
  {
    var cut := Cut(change, pending);
    lost := pending + change.skip + |change.data| - cut.skip - |cut.data|;
  }

  predicate SomethingCut(changes: seq<Change>) {
    exists change :: change in changes && !Encodable(change)
  }

  lemma SomethingCutCons(first: Change, later: seq<Change>)
    ensures SomethingCut([first] + later) <==> !Encodable(first) || SomethingCut(later)
  {
    var all := [first] + later;
    assert all[0] == first && forall change | change in all :: change == first || change in later;
    assert forall change | change in later :: change in all;
  }

  lemma ExtentCons(first: Change, later: seq<Change>, from: nat, end: nat)
    requires end == from + first.skip + |first.data|
    ensures Extent([first] + later, from) == Extent(later, end)
  {
    assert ([first] + later)[1..] == later;
  }

  /** `tail`, read from `from` on, falls short of `changes`, read from `at` on. */
  predicate FallsShort(tail: seq<Change>, from: nat, changes: seq<Change>, at: nat) {
    && Extent(tail, from) <= Extent(changes, at)
    && (SomethingCut(changes) ==> Extent(tail, from) + U32_LIMIT <= Extent(changes, at))
  }

  lemma FallsShortCons(first: Change, later: seq<Change>, tail: seq<Change>, from: nat, end: nat, at: nat, lost: nat)
    requires FallsShort(tail, from, later, end) && at + first.skip + |first.data| == end + lost
    requires !Encodable(first) ==> lost >= U32_LIMIT
    ensures FallsShort(tail, from, [first] + later, at)
  {
    SomethingCutCons(first, later);
    ExtentMoves(later, end, lost);
    ExtentCons(first, later, at, end + lost);
  }

  /** What is written of a first change and those behind it. */
  lemma WrittenCons(first: Change, later: seq<Change>, pending: nat) returns (cut: Change, behind: nat, lost: nat)
    requires first.data != []
    ensures Written([first] + later, pending) == if cut.data == [] then Written(later, behind) else [cut] + Written(later, behind)
    ensures behind == if cut.data == [] then cut.skip else 0
    ensures cut.skip + |cut.data| + lost == pending + first.skip + |first.data| && (!Encodable(first) ==> lost >= U32_LIMIT)
  {
    assert ([first] + later)[1..] == later;
    lost := CutLoses(first, pending);
    cut := Cut(first, pending);
    behind := if cut.data == [] then cut.skip else 0;
  }

  predicate WrittenIsShort(changes: seq<Change>, pending: nat, from: nat) {
    FallsShort(Written(changes, pending), from, changes, from + pending)
  }

  lemma ShortStep(first: Change, later: seq<Change>, pending: nat, from: nat, cut: Change, behind: nat, lost: nat, end: nat)
    requires Written([first] + later, pending) == if cut.data == [] then Written(later, behind) else [cut] + Written(later, behind)
    requires behind == (if cut.data == [] then cut.skip else 0) && end == from + cut.skip + |cut.data|
    requires from + pending + first.skip + |first.data| == end + lost && (!Encodable(first) ==> lost >= U32_LIMIT)
    requires WrittenIsShort(later, behind, if cut.data == [] then from else end)
    ensures WrittenIsShort([first] + later, pending, from)
  {
    var tail := Written(later, behind);
    if cut.data != [] {
      ExtentCons(cut, tail, from, end);
    }
    FallsShortCons(first, later, Written([first] + later, pending), from, end, from + pending, lost);
  }

  /** A reader never gets further than the changes reach, and falls short by 2^32 bytes or more as soon as
      one field was cut. */
  lemma {:induction false} WrittenFallsShort(changes: seq<Change>, pending: nat, from: nat)
    requires forall change | change in changes :: change.data != []
    ensures WrittenIsShort(changes, pending, from)
    decreases |changes|
  {
    if changes != [] {
      var first, later := changes[0], changes[1..];
      assert first in changes && forall change | change in later :: change in changes;
      assert changes == [first] + later;
      var cut, behind, lost := WrittenCons(first, later, pending);
      var end := from + cut.skip + |cut.data|;
      WrittenFallsShort(later, behind, if cut.data == [] then from else end);
      ShortStep(first, later, pending, from, cut, behind, lost, end);
    }
  }

  lemma {:induction false} NothingBeyond(buf: seq<byte>, changes: seq<Change>, from: nat, k: nat)
    requires Extent(changes, from) <= k < |buf|
    ensures Patched(buf, changes, from)[k] == buf[k]
    decreases |changes|
  {
    if changes != [] {
      var at := from + changes[0].skip;
      ExtentMoves(changes[1..], 0, at + |changes[0].data|);
      NothingBeyond(Splice(buf, at, changes[0].data), changes[1..], at + |changes[0].data|, k);
    }
  }

  lemma {:induction false} LastOfRun(orig: seq<byte>, chng: seq<byte>, at: nat, hi: nat) returns (k: nat)
    requires at < hi <= |orig| && |chng| == |orig| && RunEnd(orig, chng, at, hi) > at
    ensures at <= k < RunEnd(orig, chng, at, hi) <= k + 8 && orig[k] != chng[k]
    decreases hi - at
  {
    var next := BlockEnd(at, hi);
    if RunEnd(orig, chng, next, hi) > next {
      k := LastOfRun(orig, chng, next, hi);
    } else {
      k :| at <= k < next && orig[k] != chng[k];
    }
  }

  /** The changes end within a block of a byte that differs. */
  lemma {:induction false} LastDifference(orig: seq<byte>, chng: seq<byte>, from: nat, at: nat, hi: nat) returns (k: nat)
    requires from <= at <= hi <= |orig| && |chng| == |orig| && Diff(orig, chng, from, at, hi) != []
    ensures at <= k < hi && orig[k] != chng[k] && Extent(Diff(orig, chng, from, at, hi), from) <= k + 8
    decreases hi - at
  {
    var start, end := DiffCons(orig, chng, from, at, hi);
    var later := Diff(orig, chng, end, end, hi);
    ExtentCons(Change(start - from, chng[start..end]), later, from, end);
    if later == [] {
      k := LastOfRun(orig, chng, start, hi);
    } else {
      k := LastDifference(orig, chng, end, end, hi);
    }
  }

  lemma {:induction false} DiffHasData(orig: seq<byte>, chng: seq<byte>, from: nat, at: nat, hi: nat)
    requires from <= at <= hi <= |orig| && |chng| == |orig|
    ensures forall change | change in Diff(orig, chng, from, at, hi) :: change.data != []
    decreases hi - at
  {
    var start, end := DiffCons(orig, chng, from, at, hi);
    if start < hi {
      DiffHasData(orig, chng, end, end, hi);
    }
  }

  ghost predicate AllEncodable(changes: seq<Change>) {
    forall change | change in changes :: Encodable(change)
  }

  lemma SpliceShows(orig: seq<byte>, chng: seq<byte>, lo: nat, hi: nat, k: nat)
    requires lo <= k < hi <= |orig| == |chng|
    ensures Splice(orig, lo, chng[lo..hi])[k] == chng[k]
  {}

  lemma CutPatchFails(orig: seq<byte>, chng: seq<byte>, lo: nat, hi: nat, written: seq<Change>)
    requires lo <= hi <= |orig| && |chng| == |orig| && Diff(orig, chng, 0, lo, hi) != []
    requires Extent(written, 0) + U32_LIMIT <= Extent(Diff(orig, chng, 0, lo, hi), 0)
    ensures Extent(written, 0) <= |orig|
    ensures Patched(orig, written, 0) != Splice(orig, lo, chng[lo..hi])
  {
    var k := LastDifference(orig, chng, 0, lo, hi);
    NothingBeyond(orig, written, 0, k);
    SpliceShows(orig, chng, lo, hi, k);
  }

  /** Applying the patch as it was written restores the range if and only if no field was cut. */
  lemma WrittenRestores(orig: seq<byte>, chng: seq<byte>, lo: nat, hi: nat, diff: seq<Change>)
    requires lo <= hi <= |orig| && |chng| == |orig| && diff == Diff(orig, chng, 0, lo, hi)
    ensures Extent(Written(diff, 0), 0) <= |orig|
    ensures Patched(orig, Written(diff, 0), 0) == Splice(orig, lo, chng[lo..hi]) <==> AllEncodable(diff)
    ensures AllEncodable(diff) ==> Written(diff, 0) == diff
  {
    DiffHasData(orig, chng, 0, lo, hi);
    var written := Written(diff, 0);
    if AllEncodable(diff) {
      WrittenInFull(diff);
      assert written == diff;
      DiffRestores(orig, orig, chng, 0, lo, hi);
    } else {
      CutIsShort(diff, written);
      CutPatchFails(orig, chng, lo, hi, written);
    }
  }

  lemma CutIsShort(changes: seq<Change>, written: seq<Change>)
    requires (forall change | change in changes :: change.data != []) && !AllEncodable(changes)
    requires written == Written(changes, 0)
    ensures changes != [] && Extent(written, 0) + U32_LIMIT <= Extent(changes, 0)
  {
    WrittenFallsShort(changes, 0, 0);
    assert SomethingCut(changes);
  }

  /** The gap fits its field, and the record with its header the space that can be asked for. */
  predicate Recordable(change: Change) {
    change.skip < U32_LIMIT && 8 + |change.data| < U32_LIMIT
  }

  predicate AllRecordable(changes: seq<Change>) {
    forall change | change in changes :: Recordable(change)
  }

  lemma {:induction false} RecordableExactly(changes: seq<Change>)
    requires forall change | change in changes :: change.data != []
    ensures AllRecordable(changes) <==> AllEncodable(changes) && SpaceFits(changes)
    decreases |changes|
  {
    if changes != [] {
      var first, later := changes[0], changes[1..];
      assert first in changes && forall change | change in later :: change in changes;
      assert forall change | change in changes :: change == first || change in later;
      RecordableExactly(later);
    }
  }

  /** The changes of a range, the first one with its distance from `from`. */
  function ChangesFrom(orig: seq<byte>, chng: seq<byte>, from: nat, lo: nat, hi: nat): seq<Change>
    requires from <= lo <= hi <= |orig| && |chng| == |orig|
  {
    Diff(orig, chng, from, lo, hi)
  }

  function Changes(orig: seq<byte>, chng: seq<byte>, lo: nat, hi: nat): seq<Change>
    requires lo <= hi <= |orig| && |chng| == |orig|
  {
    ChangesFrom(orig, chng, 0, lo, hi)
  }

  /** Round trip of any two buffers over any range: the patch comes into the stream, is read back exactly, the
      terminator included, and restores the changed buffer on the range and nothing else, if and only if every gap in
      front of a run of differing blocks is shorter than 2^32 bytes, and every run by eight more. Whatever patch comes
      into the stream is at least read back as it was written. */
  lemma PatchRoundTrip(orig: seq<byte>, chng: seq<byte>, lo: nat, hi: nat, rest: seq<byte>)
    requires lo <= hi <= |orig| && |chng| == |orig|
    ensures var diff := Changes(orig, chng, lo, hi);
      && (Restores(orig, PatchOf(diff), Splice(orig, lo, chng[lo..hi])) <==> AllRecordable(diff))
      && (AllRecordable(diff) ==> PatchOf(diff) == Some(diff))
    ensures var patch := PatchOf(Changes(orig, chng, lo, hi));
      patch.Some? ==> ReadsBack(patch.value, rest) && Extent(patch.value, 0) <= |orig|
  {
    var diff := Diff(orig, chng, 0, lo, hi);
    ParseEncode(Written(diff, 0), rest);
    WrittenRestores(orig, chng, lo, hi, diff);
    DiffHasData(orig, chng, 0, lo, hi);
    RecordableExactly(diff);
  }

  /** There is a patch, and it turns one buffer into the other. */
  predicate Restores(buf: seq<byte>, patch: Option<seq<Change>>, target: seq<byte>) {
    patch.Some? && Extent(patch.value, 0) <= |buf| && Patched(buf, patch.value, 0) == target
  }

  predicate ReadsBack(written: seq<Change>, rest: seq<byte>) {
    Parse(Encode(written) + rest) == Some(Parsed(written, |Encode(written)|))
  }

  /** An input that fails: a single byte changed 2^32 bytes into a range. */
  lemma FarChangeIsLost(orig: seq<byte>, chng: seq<byte>, b: byte)
    requires |orig| == U32_LIMIT + 8 && orig[U32_LIMIT] != b && chng == orig[U32_LIMIT := b]
    ensures var patch := PatchOf(Changes(orig, chng, 0, |orig|)); patch.Some? && !Restores(orig, patch, chng)
  {
    var hi := |orig|;
    var start := SkipEqual(orig, chng, 0, hi);
    SkipStopsAtDifference(orig, chng, 0, hi);
    SkipIsBlockwise(orig, chng, 0, 0, hi);
    assert start == U32_LIMIT;
    var diff := Diff(orig, chng, 0, 0, hi);
    assert diff[0].skip == U32_LIMIT && !Recordable(diff[0]);
    PatchRoundTrip(orig, chng, 0, hi, []);
    assert Splice(orig, 0, chng[0..hi]) == chng;
    ShortRunFits(orig, chng, start, hi, diff);
  }

  lemma ShortRunFits(orig: seq<byte>, chng: seq<byte>, start: nat, hi: nat, diff: seq<Change>)
    requires hi == |orig| == |chng| == start + 8 && diff == Diff(orig, chng, 0, 0, hi)
    requires start == SkipEqual(orig, chng, 0, hi)
    ensures SpaceFits(diff)
  {
    SkipStopsAtDifference(orig, chng, 0, hi);
    var end := RunEnd(orig, chng, start, hi);
    assert end == hi && Diff(orig, chng, end, end, hi) == [];
    assert diff == [Change(start, chng[start..end])];
    assert diff[1..] == [];
  }

  /** Another one: 2^32 - 8 bytes that all changed. Their record would have 2^32 bytes with its header, and no space is
      asked for at all. */
  lemma LongRunIsLost(orig: seq<byte>, chng: seq<byte>)
    requires |orig| == |chng| == U32_LIMIT - 8 && forall k | 0 <= k < |orig| :: orig[k] != chng[k]
    ensures AllEncodable(Changes(orig, chng, 0, |orig|)) && PatchOf(Changes(orig, chng, 0, |orig|)) == None
  {
    var hi := |orig|;
    AllOneRun(orig, chng, 0, hi);
    assert Diff(orig, chng, hi, hi, hi) == [];
    TooLong(Diff(orig, chng, 0, 0, hi), Change(0, chng[0..hi]));
  }

  lemma TooLong(changes: seq<Change>, change: Change)
    requires changes == [change] && change.skip < U32_LIMIT && |change.data| == U32_LIMIT - 8
    ensures AllEncodable(changes) && PatchOf(changes) == None
  {}

  lemma {:induction false} AllOneRun(orig: seq<byte>, chng: seq<byte>, at: nat, hi: nat)
    requires at <= hi <= |orig| == |chng| && forall k | at <= k < hi :: orig[k] != chng[k]
    ensures RunEnd(orig, chng, at, hi) == hi && SkipEqual(orig, chng, at, hi) == at
    decreases hi - at
  {
    if at < hi {
      assert orig[at] != chng[at];
      AllOneRun(orig, chng, BlockEnd(at, hi), hi);
    }
  }

  /** Every record but the first has a positive offset: two runs never touch. */
  lemma LaterOffsetsArePositive(orig: seq<byte>, chng: seq<byte>, lo: nat, hi: nat, i: nat)
    requires lo <= hi <= |orig| && |chng| == |orig|
    requires 0 < i < |Diff(orig, chng, 0, lo, hi)|
    ensures Diff(orig, chng, 0, lo, hi)[i].skip > 0
  {
    DiffFollowsRuns(orig, chng, 0, lo, hi, i);
    RunsAreMaximal(orig, chng, lo, hi);
  }

  // ---- a whole span written without a diff (write_memory_span)

  function MemorySpan(offset: nat, data: seq<byte>): seq<byte> {
    Record(offset, data) + TERMINATOR
  }

  /** A memory span reads back as one change, except that an empty span at offset 0 looks like a
      terminator itself: the reader then stops 8 bytes early. */
  lemma MemorySpanReadsBack(offset: nat, data: seq<byte>, rest: seq<byte>)
    requires offset < U32_LIMIT && |data| < U32_LIMIT
    ensures var parsed := Parse(MemorySpan(offset, data) + rest);
      && parsed.Some?
      && (parsed.value == Parsed([Change(offset, data)], |MemorySpan(offset, data)|)
          <==> !(offset == 0 && data == []))
      && (offset == 0 && data == [] ==> parsed.value == Parsed([], |MemorySpan(offset, data)| - 8))
  {
    Assoc(Record(offset, data), TERMINATOR, rest);
    Unit(TERMINATOR);
    ParseRecord(offset, data, TERMINATOR + rest);
    ParseRecord(0, [], rest);
  }
}
