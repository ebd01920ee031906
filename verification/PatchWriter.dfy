/** The loops of write_patch, proved against PatchCodec (src/filewriter.cpp:10-104). */
module PatchWriting {
  import opened Bytes
  import opened PatchCodec
  import Pipeline = WriterPipeline

  /** Whole equal blocks can be skipped at once. */
  lemma {:induction false} SkipWhole(orig: seq<byte>, chng: seq<byte>, at: nat, blocks: nat, hi: nat)
    requires at + 8 * blocks <= hi <= |orig| && |chng| == |orig|
    requires forall k | at <= k < at + 8 * blocks :: orig[k] == chng[k]
    ensures SkipEqual(orig, chng, at, hi) == SkipEqual(orig, chng, at + 8 * blocks, hi)
    decreases blocks
  {
    if blocks > 0 {
      SkipWhole(orig, chng, at + 8, blocks - 1, hi);
    }
  }

  /** memcmp(orig + at, chng + at, n) == 0 */
  method SameBytes(orig: array<byte>, chng: array<byte>, at: nat, n: nat) returns (same: bool)
    requires chng.Length == orig.Length && at + n <= orig.Length
    ensures same <==> forall k | at <= k < at + n :: orig[k] == chng[k]
  {
    same := orig[at..at + n] == chng[at..at + n];
    if same {
      forall k | at <= k < at + n ensures orig[k] == chng[k] {
        assert orig[at..at + n][k - at] == chng[at..at + n][k - at];
      }
    }
  }

  /** The plain scan from `at` on ends at `first`. */
  ghost predicate ScanEnds(orig: seq<byte>, chng: seq<byte>, at: nat, hi: nat, first: nat) {
    at <= hi <= |orig| && |chng| == |orig| && SkipEqual(orig, chng, at, hi) == first
  }

  lemma DifferenceEndsScan(orig: seq<byte>, chng: seq<byte>, at: nat, hi: nat, first: nat)
    requires at < hi && ScanEnds(orig, chng, at, hi, first) && exists k :: at <= k < BlockEnd(at, hi) && orig[k] != chng[k]
    ensures first == at
  {}

  /** memcmp over whole blocks: equal ones are skipped, and a single differing one is where a run starts. */
  method SameBlocks(orig: array<byte>, chng: array<byte>, at: nat, blocks: nat, ghost hi: nat, ghost first: nat)
    returns (same: bool)
    requires at + 8 * blocks <= hi && chng.Length == orig.Length && ScanEnds(orig[..], chng[..], at, hi, first)
    ensures same ==> ScanEnds(orig[..], chng[..], at + 8 * blocks, hi, first)
    ensures !same && blocks == 1 ==> first == at
  {
    same := SameBytes(orig, chng, at, 8 * blocks);
    if same {
      SkipWhole(orig[..], chng[..], at, blocks, hi);
    } else if blocks == 1 {
      DifferenceEndsScan(orig[..], chng[..], at, hi, first);
    }
  }

  /** memcmp over the last, incomplete block, if there is one. */
  method SameTail(orig: array<byte>, chng: array<byte>, at: nat, hi: nat, ghost first: nat) returns (same: bool)
    requires hi < at + 8 && chng.Length == orig.Length && ScanEnds(orig[..], chng[..], at, hi, first)
    ensures first == if same then hi else at
  {
    same := true;
    if at < hi {
      same := SameBytes(orig, chng, at, hi - at);
    }
  }

  /** 256 bytes at a time. */
  method SkipWide(orig: array<byte>, chng: array<byte>, start: nat, hi: nat, ghost first: nat) returns (at: nat)
    requires chng.Length == orig.Length && ScanEnds(orig[..], chng[..], start, hi, first)
    ensures start <= at && ScanEnds(orig[..], chng[..], at, hi, first)
  {
    at := start;
    while hi - at >= 256
      invariant start <= at && ScanEnds(orig[..], chng[..], at, hi, first)
    {
      var same := SameBlocks(orig, chng, at, 32, hi, first);
      if !same {
        break;
      }
      at := at + 256;
    }
  }

  /** find_patch_start: an eager first block, then 256 bytes at a time, then 8, then the tail. */
  method FindPatchStart(orig: array<byte>, chng: array<byte>, offset: nat, size: nat) returns (pos: nat)
    requires chng.Length == orig.Length && offset + size <= orig.Length
    ensures pos == SkipEqual(orig[..], chng[..], offset, offset + size) - offset
  {
    var hi := offset + size;
    ghost var first := SkipEqual(orig[..], chng[..], offset, hi);
    var at := offset; // the source keeps pos == at - offset
    if size >= 8 {
      var same := SameBlocks(orig, chng, at, 1, hi, first);
      if !same {
        return 0;
      }
      at := at + 8;
    }
    at := SkipWide(orig, chng, at, hi, first);
    while hi - at >= 8
      invariant offset <= at && ScanEnds(orig[..], chng[..], at, hi, first)
    {
      var same := SameBlocks(orig, chng, at, 1, hi, first);
      if !same {
        return at - offset;
      }
      at := at + 8;
    }
    var same := SameTail(orig, chng, at, hi, first);
    return if same then size else at - offset;
  }

  lemma {:induction false} ScanSameTail(a: seq<byte>, b: seq<byte>, chng: seq<byte>, at: nat, hi: nat)
    requires at <= hi <= |a| == |b| == |chng|
    requires forall k | at <= k < hi :: a[k] == b[k]
    ensures SkipEqual(a, chng, at, hi) == SkipEqual(b, chng, at, hi)
    decreases hi - at
  {
    if at < hi && BlockEqual(a, chng, at, hi) {
      ScanSameTail(a, b, chng, BlockEnd(at, hi), hi);
    }
  }

  /** The clone while write_patch is at `at`: changed up to there, untouched from there on. */
  ghost predicate CloneAt(clone: seq<byte>, orig: seq<byte>, chng: seq<byte>, lo: nat, at: nat) {
    && |clone| == |orig| == |chng|
    && forall k | 0 <= k < |clone| :: clone[k] == if lo <= k < at then chng[k] else orig[k]
  }

  /** The inner loop of write_patch: copy the run of differing blocks at `start` into the clone, the
      incomplete last block included. `left` is what remains to be scanned: an equal incomplete block
      is dropped at once. */
  method CopyRun(orig: array<byte>, chng: array<byte>, start: nat, hi: nat) returns (end: nat, left: nat)
    requires orig != chng && chng.Length == orig.Length && start <= hi <= orig.Length
    modifies orig
    ensures end == RunEnd(old(orig[..]), chng[..], start, hi)
    ensures CloneAt(orig[..], old(orig[..]), chng[..], start, end)
    ensures left == (if hi - end < 8 then 0 else hi - end) && chng[..] == old(chng[..])
    ensures left == 0 ==> forall k | end <= k < hi :: old(orig[k]) == chng[k]
  {
    ghost var was, c := orig[..], chng[..];
    end := start;
    while hi - end >= 8
      invariant start <= end <= hi && chng[..] == c
      invariant RunEnd(was, c, start, hi) == RunEnd(was, c, end, hi)
      invariant CloneAt(orig[..], was, c, start, end)
    {
      var same := SameBytes(orig, chng, end, 8);
      assert BlockEqual(was, c, end, hi) == same;
      if same {
        break;
      }
      forall k | end <= k < end + 8 {
        orig[k] := chng[k];
      }
      end := end + 8;
    }
    left := hi - end;
    if left < 8 {
      var same := SameBytes(orig, chng, end, left);
      assert end < hi ==> BlockEqual(was, c, end, hi) == same;
      if !same {
        forall k | end <= k < hi {
          orig[k] := chng[k];
        }
        end := hi;
      }
      left := 0;
    }
    assert chng[..] == c;
  }

  /** One round of write_patch on the buffers: skip what is equal, then take over one run of differences. */
  method NextRun(orig: array<byte>, chng: array<byte>, ghost o: seq<byte>, ghost c: seq<byte>, ghost lo: nat,
                 at: nat, hi: nat)
      returns (start: nat, end: nat, left: nat)
    requires orig != chng && chng.Length == orig.Length && lo <= at <= hi <= orig.Length
    requires chng[..] == c && CloneAt(orig[..], o, c, lo, at)
    modifies orig
    ensures start == SkipEqual(o, c, at, hi) && end == RunEnd(o, c, start, hi)
    ensures left <= hi - end && chng[..] == c && CloneAt(orig[..], o, c, lo, hi - left)
    ensures left > 0 ==> left == hi - end
    ensures left == 0 && end < hi ==> SkipEqual(o, c, end, hi) == hi
  {
    ghost var now := orig[..];
    ScanSameTail(now, o, c, at, hi);
    var identical := FindPatchStart(orig, chng, at, hi - at);
    start := at + identical;
    assert start == SkipEqual(now, c, at, hi);
    SkipStopsAtDifference(o, c, at, hi);
    assert CloneAt(now, o, c, lo, start);
    RunSameTail(now, o, c, start, hi);
    end, left := CopyRun(orig, chng, start, hi);
  }

  lemma {:induction false} RunSameTail(a: seq<byte>, b: seq<byte>, chng: seq<byte>, at: nat, hi: nat)
    requires at <= hi <= |a| == |b| == |chng|
    requires forall k | at <= k < hi :: a[k] == b[k]
    ensures RunEnd(a, chng, at, hi) == RunEnd(b, chng, at, hi)
    decreases hi - at
  {
    if at < hi && !BlockEqual(a, chng, at, hi) {
      RunSameTail(a, b, chng, BlockEnd(at, hi), hi);
    }
  }

  /** Nothing changes when an equal incomplete block behind a run is dropped from what is to be scanned. */
  lemma DropEqualTail(o: seq<byte>, c: seq<byte>, from: nat, end: nat, left: nat, hi: nat)
    requires from <= end <= hi <= |o| == |c|
    requires left == hi - end || (left == 0 && SkipEqual(o, c, end, hi) == hi)
    ensures left <= hi - end && Diff(o, c, from, end, hi) == Diff(o, c, from, hi - left, hi)
  {}

  /** The diff from `at` on: the change of one round, then the diff of what remains to be scanned. */
  lemma DiffRound(o: seq<byte>, c: seq<byte>, from: nat, at: nat, hi: nat, start: nat, end: nat, left: nat)
    requires from <= at <= hi <= |o| == |c|
    requires start == SkipEqual(o, c, at, hi) && end == RunEnd(o, c, start, hi)
    requires left == hi - end || (left == 0 && SkipEqual(o, c, end, hi) == hi)
    ensures left <= hi - end && (start == end <==> start == hi)
    ensures Diff(o, c, from, at, hi) == if start == end then [] + Diff(o, c, from, hi, hi)
      else [Change(start - from, c[start..end])] + Diff(o, c, end, hi - left, hi)
  {
    SkipStopsAtDifference(o, c, at, hi);
    DropEqualTail(o, c, end, end, left, hi);
  }

  lemma NextDiff(o: seq<byte>, c: seq<byte>, from: nat, at: nat, hi: nat, start: nat, runEnd: nat, left: nat, end: nat,
                 todo: seq<Change>)
      returns (change: Change, later: seq<Change>, next: nat)
    requires from <= at <= hi <= |o| == |c| && todo == ChangesFrom(o, c, from, at, hi)
    requires start == SkipEqual(o, c, at, hi) && runEnd == RunEnd(o, c, start, hi)
    requires left == hi - runEnd || (left == 0 && SkipEqual(o, c, runEnd, hi) == hi)
    requires end + left == hi
    ensures runEnd <= end && (start == runEnd <==> start == hi)
    ensures next <= end && later == ChangesFrom(o, c, next, end, hi)
    ensures if start == runEnd then todo == [] && later == []
      else todo == [change] + later && change.skip == start - from && change.data == c[start..runEnd] && next == runEnd
  {
    DiffRound(o, c, from, at, hi, start, runEnd, left);
    next := if start == runEnd then from else runEnd;
    change, later := Change(start - from, c[start..runEnd]), ChangesFrom(o, c, next, end, hi);
    Unit(Diff(o, c, from, hi, hi));
  }

  /** A register of 32 bits that has been given `total` in all. */
  predicate Holds(register: nat, total: nat) {
    register == total % U32_LIMIT
  }

  method AddToRegister(register: nat, n: nat, ghost before: nat, ghost total: nat) returns (sum: nat)
    requires Holds(register, before) && total == before + n
    ensures Holds(sum, total)
  {
    sum := (register + n) % U32_LIMIT;
  }

  /** `found` is what is written of the first of the changes, if that fits; `later` and `left` are what remains. */
  ghost predicate Taken(todo: seq<Change>, pending: nat, found: Option<seq<Change>>, later: seq<Change>, left: nat) {
    && (SpaceFits(todo) <==> found.Some? && SpaceFits(later))
    && (found.Some? ==> Written(todo, pending) == found.value + Written(later, left))
  }

  lemma NothingTaken(pending: nat)
    ensures Taken([], pending, Some([]), [], pending)
  {}

  /** What happens behind the scan: `offset` is the register, `data` the run just taken over. None when the 32 bits of
      check_space(8 + c) do not hold the record. */
  method WriteRecord(offset: nat, data: seq<byte>, ghost change: Change, ghost later: seq<Change>, ghost todo: seq<Change>,
                     ghost pending: nat, ghost total: nat)
      returns (found: Option<seq<Change>>, register: nat, ghost left: nat)
    requires data == change.data && Holds(offset, total) && total == pending + change.skip && todo == [change] + later
    ensures Taken(todo, pending, found, later, left)
    ensures found.Some? ==> Holds(register, left)
  {
    assert todo[1..] == later;
    var size := |data| % U32_LIMIT;
    if 8 + size >= U32_LIMIT {
      found, register, left := None, 0, 0;
    } else if size > 0 {
      found, register, left := Some([Change(offset, data[..size])]), 0, 0;
    } else {
      found, register, left := Some([]), offset, offset;
      Unit(Written(later, left));
    }
  }

  /** One round of write_patch: at most one record, and the rest of the patch is what remains. */
  method Round(orig: array<byte>, chng: array<byte>, ghost o: seq<byte>, ghost c: seq<byte>, ghost lo: nat,
               ghost from: nat, ghost pending: nat, at: nat, hi: nat, register: nat, ghost todo: seq<Change>)
      returns (found: Option<seq<Change>>, end: nat, nextRegister: nat, ghost next: nat, ghost left: nat,
               ghost later: seq<Change>)
    requires orig != chng && chng.Length == orig.Length && hi <= orig.Length
    requires from <= at && lo <= at < hi && Holds(register, pending + at - from)
    requires chng[..] == c && CloneAt(orig[..], o, c, lo, at) && todo == ChangesFrom(o, c, from, at, hi)
    modifies orig
    ensures chng[..] == c && at < end <= hi && CloneAt(orig[..], o, c, lo, end)
    ensures next <= end && later == ChangesFrom(o, c, next, end, hi)
    ensures Taken(todo, pending, found, later, left)
    ensures found.Some? && end < hi ==> next == end && Holds(nextRegister, left)
  {
    var start, runEnd, rest;
    start, runEnd, rest := NextRun(orig, chng, o, c, lo, at, hi);
    ghost var change;
    end := hi - rest;
    change, later, next := NextDiff(o, c, from, at, hi, start, runEnd, rest, end, todo);
    ghost var total: nat := pending + start - from;
    var offset := AddToRegister(register, start - at, pending + at - from, total);
    if start < runEnd {
      found, nextRegister, left := WriteRecord(offset, chng[start..runEnd], change, later, todo, pending, total);
    } else {
      NothingTaken(pending);
      found, nextRegister, left := Some([]), offset, pending;
    }
  }

  /** `written` is the part of the patch in front of what the changes `todo` still add. */
  ghost predicate UpTo(diff: seq<Change>, written: seq<Change>, pending: nat, todo: seq<Change>) {
    Written(diff, 0) == written + Written(todo, pending) && (SpaceFits(diff) <==> SpaceFits(todo))
  }

  lemma UpToStart(diff: seq<Change>)
    ensures UpTo(diff, [], 0, diff)
  {
    Unit(Written(diff, 0));
  }

  lemma UpToNext(diff: seq<Change>, written: seq<Change>, pending: nat, todo: seq<Change>, found: seq<Change>, left: nat,
                 later: seq<Change>)
    requires UpTo(diff, written, pending, todo) && Taken(todo, pending, Some(found), later, left)
    ensures UpTo(diff, written + found, left, later) && TotalSize(written + found) == TotalSize(written) + TotalSize(found)
  {
    Assoc(written, found, Written(later, left));
    TotalSizeConcat(written, found);
  }

  lemma UpToOverrun(diff: seq<Change>, written: seq<Change>, pending: nat, todo: seq<Change>, later: seq<Change>, left: nat)
    requires UpTo(diff, written, pending, todo) && Taken(todo, pending, None, later, left)
    ensures PatchOf(diff) == None
  {}

  lemma UpToEnd(diff: seq<Change>, written: seq<Change>, pending: nat, todo: seq<Change>) returns (patch: Option<seq<Change>>)
    requires UpTo(diff, written, pending, todo) && todo == []
    ensures patch == Some(written) == PatchOf(diff)
  {
    Unit(written);
    patch := Some(written);
  }

  lemma NothingLeft(o: seq<byte>, c: seq<byte>, from: nat, hi: nat)
    requires from <= hi <= |o| == |c|
    ensures ChangesFrom(o, c, from, hi, hi) == []
  {}

  /** write_patch: the diff of [offset, offset + size) goes to the stream with fields of 32 bits, the clone becomes
      equal to the changed buffer on that range, and the result is the total size of the records. Each change is
      appended as one record, followed by the terminator. None when a record is written beyond its space. */
  method WritePatch(orig: array<byte>, chng: array<byte>, offset: nat, size: nat)
      returns (patch: Option<seq<Change>>, changed: nat)
    requires orig != chng && chng.Length == orig.Length && offset + size <= orig.Length && offset < U32_LIMIT
    modifies orig
    ensures patch == PatchOf(Changes(old(orig[..]), old(chng[..]), offset, offset + size))
    ensures patch.Some? ==> orig[..] == Splice(old(orig[..]), offset, old(chng[..])[offset..offset + size])
    ensures patch.Some? ==> changed == TotalSize(patch.value)
  {
    ghost var o, c := orig[..], chng[..];
    patch, changed := WriteChanges(orig, chng, o, c, Changes(o, c, offset, offset + size), offset, offset + size);
  }

  /** Its loop. */
  method WriteChanges(orig: array<byte>, chng: array<byte>, ghost o: seq<byte>, ghost c: seq<byte>,
                      ghost diff: seq<Change>, offset: nat, hi: nat)
      returns (patch: Option<seq<Change>>, changed: nat)
    requires orig != chng && chng.Length == orig.Length && offset <= hi <= orig.Length && offset < U32_LIMIT
    requires orig[..] == o && chng[..] == c && diff == Changes(o, c, offset, hi)
    modifies orig
    ensures patch == PatchOf(diff)
    ensures patch.Some? ==> CloneAt(orig[..], o, c, offset, hi) && changed == TotalSize(patch.value)
  {
    var at: nat, register: nat := offset, offset; // the source keeps total_left == hi - at
    ghost var from: nat, pending: nat, todo := 0, 0, diff;
    var written: seq<Change> := [];
    changed := 0;
    UpToStart(diff);
    var overrun := false;
    while at < hi && !overrun
      invariant offset <= at <= hi && from <= at && todo == ChangesFrom(o, c, from, at, hi)
      invariant at < hi && !overrun ==> Holds(register, pending + at - from)
      invariant chng[..] == c && CloneAt(orig[..], o, c, offset, at)
      invariant if overrun then PatchOf(diff) == None else UpTo(diff, written, pending, todo) && changed == TotalSize(written)
    {
      var found;
      ghost var rest, left;
      found, at, register, from, left, rest := Round(orig, chng, o, c, offset, from, pending, at, hi, register, todo);
      if found.None? {
        UpToOverrun(diff, written, pending, todo, rest, left);
        overrun := true;
      } else {
        UpToNext(diff, written, pending, todo, found.value, left, rest);
        changed := changed + TotalSize(found.value);
        written := written + found.value;
      }
      pending, todo := left, rest;
    }
    if overrun {
      return None, 0;
    }
    NothingLeft(o, c, from, hi);
    ghost var whole := UpToEnd(diff, written, pending, todo);
    patch := Some(written);
  }

  /** What write_patch appends, one entry for each check_space. */
  function Pieces(written: seq<Change>): seq<seq<byte>> {
    if written == [] then [LittleEndian(0, 4), LittleEndian(0, 4)]
    else [Record(written[0].skip, written[0].data)] + Pieces(written[1..])
  }

  /** Handing the pieces to the writer, in whatever chunks they end up, records exactly the patch. */
  lemma {:induction false} PiecesAreRecorded(written: seq<Change>, stream: seq<byte>)
    ensures Pipeline.Recorded(Writes(Pieces(written)), stream) == stream + Encode(written)
    decreases |written|
  {
    if written == [] {
      var zero := LittleEndian(0, 4);
      Assoc(stream, zero, zero);
      assert Writes([zero]) == [Pipeline.Write(zero)];
      assert Pipeline.Recorded(Writes([zero]), stream + zero) == stream + zero + zero;
    } else {
      var first := Record(written[0].skip, written[0].data);
      PiecesAreRecorded(written[1..], stream + first);
      Assoc(stream, first, Encode(written[1..]));
    }
  }

  function Writes(pieces: seq<seq<byte>>): seq<Pipeline.Step> {
    if pieces == [] then [] else [Pipeline.Write(pieces[0])] + Writes(pieces[1..])
  }
}
