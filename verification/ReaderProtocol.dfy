/** The reader of one trace stream as a step system: the replaying thread, and the decompressor thread
    that runs ahead of it under a throttle (src/filereader.h:26-57, 182-213; src/filereader.cpp:138-158,
    191-254, 272-294). */
module ReaderProtocol {
  import opened Bytes

  datatype Replayer = Running | WaitingForBytes(size: nat) | WaitingForPreload(target: nat)

  datatype Worker = Checking | Decompressing | Exited

  datatype Reader = Reader(
    stream: seq<byte>,        // history: everything the file decodes to
    limit: nat,               // history: how much of it the decompressor will produce
    coming: seq<seq<byte>>,   // content of the frames not yet decompressed
    data: seq<byte>,          // uncompressed_data up to write_position
    wanted: nat,
    done: bool,               // done_decompressing
    worker: Worker,
    last: nat,                // last_chunk_uncompressed_size
    fixedPreload: nat,
    preloadActive: bool,
    preloadFromStart: bool,   // history: preload was active when the reader was made
    replayer: Replayer,
    read: nat,                // read_position
    needed: nat,              // needed_write_position
    base: nat,                // address of uncompressed_data
    pageSize: nat,
    checkpoint: Option<nat>,
    freed: nat)

  datatype Step =
    | Read(size: nat)         // check_space finds enough
    | BeginWait(size: nat)    // check_space has to wait
    | EndWait
    | StartMeasurement
    | EndPreloadWait
    | SetCheckpoint
    | ReleaseCheckpoint
    | Check                   // one evaluation of the throttle
    | Decompress

  function Joined(chunks: seq<seq<byte>>): seq<byte> {
    if chunks == [] then [] else chunks[0] + Joined(chunks[1..])
  }

  /** write_position once the decompressor stops. */
  function WillProduce(write: nat, coming: seq<seq<byte>>, wanted: nat): (n: nat)
    ensures write <= n <= write + |Joined(coming)|
    decreases |coming|
  {
    if coming == [] then write
    else
      var next := write + |coming[0]|;
      if next >= wanted then next else WillProduce(next, coming[1..], wanted)
  }

  function Init(coming: seq<seq<byte>>, wanted: nat, fixedPreload: nat, preloadActive: bool, base: nat, pageSize: nat)
    : Reader
  {
    Reader(Joined(coming), WillProduce(0, coming, wanted), coming, [], wanted, false, Checking, 0,
      fixedPreload, preloadActive, preloadActive, Running, 0, 0, base, pageSize, Some(0), 0)
  }

  function PreloadSize(s: Reader): nat {
    if s.preloadActive && s.fixedPreload > 0 then s.fixedPreload else s.last
  }

  /** The decompressor is far enough ahead and nobody waits for what it would produce. */
  predicate Throttled(s: Reader) {
    PreloadSize(s) > 0 && |s.data| > s.read + PreloadSize(s) && |s.data| >= s.needed
  }

  /** The decompressor is only held back once it is as far ahead as the preload asks. */
  lemma ThrottleLeavesPreload(s: Reader)
    requires Throttled(s)
    ensures s.preloadActive && s.fixedPreload > 0 ==> |s.data| > s.read + s.fixedPreload
    ensures !(s.preloadActive && s.fixedPreload > 0) ==> s.last > 0 && |s.data| > s.read + s.last
    ensures s.needed <= |s.data|
  {}

  /** What start_measurement waits for. */
  function PreloadTarget(s: Reader): nat {
    Min(Min(s.read + s.fixedPreload, s.wanted), |s.stream|)
  }

  function AlignDown(x: nat, pageSize: nat): (r: nat)
    requires pageSize > 0
    ensures r <= x < r + pageSize
  {
    x - x % pageSize
  }

  /** freed_position after release_checkpoint. */
  function Freed(s: Reader, checkpoint: nat): int
    requires s.pageSize > 0 && s.freed <= checkpoint
  {
    var size := AlignDown(checkpoint - s.freed, s.pageSize);
    if size > s.pageSize then AlignDown(s.base + s.freed, s.pageSize) + size - s.base else s.freed
  }

  /** A caller may read only what the decompressor will produce. */
  predicate Enabled(s: Reader, step: Step) {
    match step
    case Read(size) => s.replayer.Running? && s.read + size <= |s.data|
    case BeginWait(size) => s.replayer.Running? && |s.data| < s.read + size <= s.limit
    case EndWait => s.replayer.WaitingForBytes? && s.read + s.replayer.size <= |s.data|
    case StartMeasurement => s.replayer.Running?
    case EndPreloadWait => s.replayer.WaitingForPreload? && s.replayer.target <= |s.data|
    case SetCheckpoint => s.replayer.Running?
    case ReleaseCheckpoint => s.replayer.Running?
    case Check => s.worker.Checking? && (s.done || !Throttled(s)) // otherwise it sleeps and looks again
    case Decompress => s.worker.Decompressing? && s.coming != []
  }

  function Apply(s: Reader, step: Step): Reader
    requires Valid(s) && Enabled(s, step)
  {
    match step
    case Read(size) => s.(read := s.read + size)
    case BeginWait(size) => s.(needed := s.read + size, replayer := WaitingForBytes(size))
    case EndWait => s.(needed := 0, read := s.read + s.replayer.size, replayer := Running)
    case StartMeasurement =>
      s.(preloadActive := true,
         replayer := if s.fixedPreload > 0 then WaitingForPreload(PreloadTarget(s)) else Running)
    case EndPreloadWait => s.(replayer := Running)
    case SetCheckpoint => s.(checkpoint := Some(s.read))
    case ReleaseCheckpoint =>
      if s.checkpoint.None? then s
      else
        FreedStaysBehind(s, s.checkpoint.value);
        s.(freed := Freed(s, s.checkpoint.value), checkpoint := None)
    case Check => s.(worker := if s.done then Exited else Decompressing)
    case Decompress =>
      var data, coming := s.data + s.coming[0], s.coming[1..];
      s.(data := data, coming := coming, last := |s.coming[0]|, worker := Checking,
         done := coming == [] || |data| >= s.wanted)
  }

  lemma FreedStaysBehind(s: Reader, checkpoint: nat)
    requires s.pageSize > 0 && s.freed <= checkpoint
    ensures s.freed <= Freed(s, checkpoint) <= checkpoint < Freed(s, checkpoint) + 2 * s.pageSize
  {}

  // ---- the invariant chain of self_test(), and what else holds between the two threads

  predicate Positions(s: Reader) {
    && s.wanted <= |s.stream| && s.read <= |s.data| <= |s.stream| && s.last <= |s.stream|
    && s.freed <= s.read
    && (s.checkpoint.Some? ==> s.freed <= s.checkpoint.value <= s.read)
    && (s.needed != 0 ==> s.read <= s.needed <= |s.stream|)
  }

  predicate Valid(s: Reader) {
    && s.pageSize > 0
    && s.data + Joined(s.coming) == s.stream
    && (forall chunk | chunk in s.coming :: chunk != [])
    && Positions(s)
    && (if s.done then |s.data| == s.limit && (s.coming == [] || |s.data| >= s.wanted)
        else s.coming != [] && WillProduce(|s.data|, s.coming, s.wanted) == s.limit)
    && (s.worker.Decompressing? ==> !s.done)
    && (s.worker.Exited? ==> s.done)
    && (s.last == 0 ==> s.data == [])
    && (if s.replayer.WaitingForBytes? then s.needed == s.read + s.replayer.size <= s.limit else s.needed == 0)
    && (s.replayer.WaitingForPreload? ==> s.preloadActive && s.fixedPreload > 0 && s.replayer.target == PreloadTarget(s))
    && (s.preloadFromStart ==> s.preloadActive)
  }

  lemma InitIsValid(coming: seq<seq<byte>>, wanted: nat, fixedPreload: nat, preloadActive: bool, base: nat, pageSize: nat)
    requires coming != [] && (forall chunk | chunk in coming :: chunk != [])
    requires wanted <= |Joined(coming)| && pageSize > 0
    ensures Valid(Init(coming, wanted, fixedPreload, preloadActive, base, pageSize))
  {
    var s := Init(coming, wanted, fixedPreload, preloadActive, base, pageSize);
    Unit(Joined(coming));
    assert s.coming == coming;
  }

  lemma DecompressKeepsValid(s: Reader)
    requires Valid(s) && Enabled(s, Decompress)
    ensures Valid(Apply(s, Decompress))
  {
    Assoc(s.data, s.coming[0], Joined(s.coming[1..]));
    assert s.coming[0] in s.coming;
    assert forall chunk | chunk in Apply(s, Decompress).coming :: chunk in s.coming;
  }

  lemma StepKeepsValid(s: Reader, step: Step)
    requires Valid(s) && Enabled(s, step)
    ensures Valid(Apply(s, step))
  {
    if step.Decompress? {
      DecompressKeepsValid(s);
    } else if step.ReleaseCheckpoint? && s.checkpoint.Some? {
      FreedStaysBehind(s, s.checkpoint.value);
    }
  }

  /** What a read returns is the next part of the stream, and no page it touches has been released. */
  lemma ReadsAreFaithful(s: Reader, size: nat)
    requires Valid(s) && s.read + size <= |s.data|
    ensures s.data[s.read..s.read + size] == s.stream[s.read..s.read + size]
    ensures s.freed <= s.read
  {
    assert s.stream[..|s.data|] == s.data;
  }

  // ---- no deadlock

  predicate MustWait(s: Reader) {
    || (s.replayer.WaitingForBytes? && !Enabled(s, EndWait))
    || (s.replayer.WaitingForPreload? && !Enabled(s, EndPreloadWait))
  }

  function WorkAhead(s: Reader): nat {
    2 * |s.coming| + (if s.worker.Checking? then 1 else 0)
  }

  /** While the replayer waits for bytes that are still to come, the throttle is off and the
      decompressor has not stopped: it can always take a step that brings the bytes nearer. */
  lemma WaitIsServed(s: Reader) returns (step: Step)
    requires Valid(s) && MustWait(s)
    ensures !s.done && !Throttled(s)
    ensures step in {Check, Decompress} && Enabled(s, step)
    ensures WorkAhead(Apply(s, step)) < WorkAhead(s)
    ensures Apply(s, step).replayer == s.replayer && Apply(s, step).read == s.read
  {
    if s.done {
      if s.coming == [] {
        Unit(s.data);
      }
      assert false;
    }
    step := if s.worker.Checking? then Check else Decompress;
  }

  function Run(s: Reader, steps: seq<Step>): Option<Reader>
    requires Valid(s)
    decreases |steps|
  {
    if steps == [] then Some(s)
    else if !Enabled(s, steps[0]) then None
    else
      StepKeepsValid(s, steps[0]);
      Run(Apply(s, steps[0]), steps[1..])
  }

  /** What the step hands to its caller. */
  function Returned(s: Reader, step: Step): seq<byte>
    requires Valid(s) && Enabled(s, step)
  {
    match step
    case Read(size) => s.data[s.read..s.read + size]
    case EndWait => s.data[s.read..s.read + s.replayer.size]
    case _ => []
  }

  /** What a whole run hands to its callers, one after the other. */
  function AllReturned(s: Reader, steps: seq<Step>): seq<byte>
    requires Valid(s) && Run(s, steps).Some?
    decreases |steps|
  {
    if steps == [] then [] else
      StepKeepsValid(s, steps[0]);
      Returned(s, steps[0]) + AllReturned(Apply(s, steps[0]), steps[1..])
  }

  lemma StepReturnsNext(s: Reader, step: Step)
    requires Valid(s) && Enabled(s, step)
    ensures var t := Apply(s, step);
      s.read <= t.read <= |s.stream| && t.stream == s.stream && Returned(s, step) == s.stream[s.read..t.read]
  {
    StepKeepsValid(s, step);
    if step.Read? {
      ReadsAreFaithful(s, step.size);
    } else if step.EndWait? {
      ReadsAreFaithful(s, s.replayer.size);
    }
  }

  /** Over every run the reads return the stream, byte by byte and in order, with nothing left out. */
  lemma {:induction false} ReadsAreInOrder(s: Reader, steps: seq<Step>)
    requires Valid(s) && Run(s, steps).Some?
    ensures s.read <= Run(s, steps).value.read <= |s.stream|
    ensures AllReturned(s, steps) == s.stream[s.read..Run(s, steps).value.read]
    decreases |steps|
  {
    if steps != [] {
      var t := Apply(s, steps[0]);
      StepKeepsValid(s, steps[0]);
      StepReturnsNext(s, steps[0]);
      ReadsAreInOrder(t, steps[1..]);
      var end := Run(t, steps[1..]).value.read;
      SlicesJoin(s.stream, s.read, t.read, end);
    }
  }

  lemma SlicesJoin(s: seq<byte>, a: nat, b: nat, c: nat)
    requires a <= b <= c <= |s|
    ensures s[a..b] + s[b..c] == s[a..c]
  {}

  /** After the wait at the start of a measurement, the bytes of the preload can be read without another wait. */
  lemma PreloadIsServed(s: Reader, size: nat)
    requires Valid(s) && Enabled(s, EndPreloadWait)
    requires size <= s.fixedPreload && s.read + size <= s.wanted
    ensures Enabled(Apply(s, EndPreloadWait), Read(size))
  {}

  predicate LeavesCheckpoint(steps: seq<Step>) {
    forall step | step in steps :: step != SetCheckpoint && step != ReleaseCheckpoint
  }

  lemma {:induction false} CheckpointStays(s: Reader, steps: seq<Step>)
    requires Valid(s) && LeavesCheckpoint(steps) && Run(s, steps).Some?
    ensures var t := Run(s, steps).value; Valid(t) && t.checkpoint == s.checkpoint && t.pageSize == s.pageSize
    decreases |steps|
  {
    if steps != [] {
      StepKeepsValid(s, steps[0]);
      assert steps[0] in steps && forall step | step in steps[1..] :: step in steps;
      CheckpointStays(Apply(s, steps[0]), steps[1..]);
    }
  }

  /** Releasing a checkpoint releases all that was read before it was set, up to two pages, and nothing behind it. */
  lemma CheckpointIsReleased(s: Reader, steps: seq<Step>)
    requires Valid(s) && Enabled(s, SetCheckpoint) && Valid(Apply(s, SetCheckpoint)) && LeavesCheckpoint(steps)
    requires Run(Apply(s, SetCheckpoint), steps).Some? && Enabled(Run(Apply(s, SetCheckpoint), steps).value, ReleaseCheckpoint)
    ensures var t := Run(Apply(s, SetCheckpoint), steps).value;
      Valid(t) && Apply(t, ReleaseCheckpoint).freed <= s.read < Apply(t, ReleaseCheckpoint).freed + 2 * s.pageSize
  {
    CheckpointStays(Apply(s, SetCheckpoint), steps);
    var t := Run(Apply(s, SetCheckpoint), steps).value;
    FreedStaysBehind(t, s.read);
  }

  /** Hence every wait ends, after at most WorkAhead steps of the decompressor alone. */
  lemma {:induction false} WaitEnds(s: Reader) returns (steps: seq<Step>)
    requires Valid(s)
    ensures |steps| <= WorkAhead(s)
    ensures Run(s, steps).Some? && !MustWait(Run(s, steps).value)
    decreases WorkAhead(s)
  {
    if !MustWait(s) {
      steps := [];
    } else {
      var step := WaitIsServed(s);
      StepKeepsValid(s, step);
      var rest := WaitEnds(Apply(s, step));
      steps := [step] + rest;
      assert steps[1..] == rest;
    }
  }

  // ---- the assert inside the wait loop (src/filereader.h:36), evaluated on every round of it

  predicate WaitAssert(s: Reader, size: nat) {
    |s.data| + size < |s.stream|
  }

  /** Steps of the decompressor alone, as they happen while the replayer waits. */
  predicate ByWorker(steps: seq<Step>) {
    forall step | step in steps :: step in {Check, Decompress}
  }

  /** The last place before `target` where a chunk ends, `write` itself included. */
  function LastBoundary(write: nat, coming: seq<seq<byte>>, target: nat): (b: nat)
    requires write < target
    ensures write <= b < target
    decreases |coming|
  {
    if coming == [] || write + |coming[0]| >= target then write
    else LastBoundary(write + |coming[0]|, coming[1..], target)
  }

  /** In some round of the wait the assert fails. */
  ghost predicate CanTrip(s: Reader, size: nat)
    requires Valid(s)
  {
    exists steps :: ByWorker(steps) && Run(s, steps).Some? && MustWait(Run(s, steps).value)
                    && !WaitAssert(Run(s, steps).value, size)
  }

  /** The replayer is waiting for bytes up to `target`, and the last boundary in front of it is `last`. */
  ghost predicate Awaits(s: Reader, size: nat, target: nat, last: nat) {
    && Valid(s) && s.replayer == WaitingForBytes(size) && target == s.read + size
    && |s.data| < target && last == LastBoundary(|s.data|, s.coming, target)
  }

  lemma WorkerStep(s: Reader, step: Step, size: nat, target: nat, last: nat)
    requires Awaits(s, size, target, last) && step in {Check, Decompress} && Enabled(s, step)
    ensures var t := Apply(s, step);
      Valid(t) && t.replayer == s.replayer && t.read == s.read && t.stream == s.stream
      && if step.Check? || last != |s.data| then Awaits(t, size, target, last) else |t.data| >= target
  {
    StepKeepsValid(s, step);
    if step.Check? {
      WaitIsServedBy(s);
    } else {
      assert s.coming[0] in s.coming;
    }
  }

  /** The worker does not give up while it is waited for. */
  lemma WaitIsServedBy(s: Reader)
    requires Valid(s) && MustWait(s)
    ensures !s.done
  {
    var step := WaitIsServed(s);
  }

  lemma {:induction false} DoneWaiting(s: Reader, steps: seq<Step>)
    requires Valid(s) && !MustWait(s) && s.replayer.WaitingForBytes? && ByWorker(steps) && Run(s, steps).Some?
    ensures !MustWait(Run(s, steps).value)
    decreases |steps|
  {
    if steps != [] {
      assert steps[0] in steps && forall step | step in steps[1..] :: step in steps;
      StepKeepsValid(s, steps[0]);
      DoneWaiting(Apply(s, steps[0]), steps[1..]);
    }
  }

  /** Whatever the worker does, no round of the wait sees more than the last boundary. */
  lemma {:induction false} RoundsStopAtBoundary(s: Reader, size: nat, target: nat, last: nat, steps: seq<Step>)
    requires Awaits(s, size, target, last) && ByWorker(steps) && Run(s, steps).Some?
    ensures MustWait(Run(s, steps).value) ==> |Run(s, steps).value.data| <= last && Run(s, steps).value.stream == s.stream
    decreases |steps|
  {
    if steps != [] {
      assert steps[0] in steps && forall step | step in steps[1..] :: step in steps;
      WorkerStep(s, steps[0], size, target, last);
      var t := Apply(s, steps[0]);
      if |t.data| < target {
        RoundsStopAtBoundary(t, size, target, last, steps[1..]);
      } else {
        DoneWaiting(t, steps[1..]);
      }
    }
  }

  /** And some run has a round that sees exactly that. */
  lemma {:induction false} BoundaryIsSeen(s: Reader, size: nat, target: nat, last: nat) returns (steps: seq<Step>)
    requires Awaits(s, size, target, last)
    ensures ByWorker(steps) && Run(s, steps).Some? && MustWait(Run(s, steps).value)
    ensures |Run(s, steps).value.data| == last && Run(s, steps).value.stream == s.stream
    decreases WorkAhead(s)
  {
    if |s.data| == last {
      steps := [];
    } else {
      var step := WaitIsServed(s);
      WorkerStep(s, step, size, target, last);
      var rest := BoundaryIsSeen(Apply(s, step), size, target, last);
      steps := [step] + rest;
      assert steps[1..] == rest;
    }
  }

  /** The assert is stricter than a legal read needs. From any state, a wait for bytes that are still to come
      can trip it, in one round or another, if and only if the last chunk that ends before the bytes asked for
      ends less than their size before the end of the stream. */
  lemma WaitTripsExactly(s: Reader, size: nat)
    requires Valid(s) && Enabled(s, BeginWait(size))
    ensures Valid(Apply(s, BeginWait(size)))
    ensures CanTrip(Apply(s, BeginWait(size)), size)
       <==> LastBoundary(|s.data|, s.coming, s.read + size) + size >= |s.stream|
  {
    StepKeepsValid(s, BeginWait(size));
    var w := Apply(s, BeginWait(size));
    var target := s.read + size;
    var last := LastBoundary(|s.data|, s.coming, target);
    if CanTrip(w, size) {
      var steps :| ByWorker(steps) && Run(w, steps).Some? && MustWait(Run(w, steps).value)
                   && !WaitAssert(Run(w, steps).value, size);
      RoundsStopAtBoundary(w, size, target, last, steps);
    }
    if last + size >= |s.stream| {
      var steps := BoundaryIsSeen(w, size, target, last);
    }
  }

  lemma JoinedFirst(chunks: seq<seq<byte>>, rest: seq<seq<byte>>)
    requires chunks != [] && chunks[1..] == rest
    ensures Joined(chunks) == chunks[0] + Joined(rest)
  {}

  /** A legal read that trips it although its first round does not: three chunks of ten bytes, and the first
      twenty bytes asked for at once. */
  lemma LegalReadTrips(chunk: seq<byte>, pageSize: nat)
    requires |chunk| == 10 && pageSize > 0
    ensures var s := Init([chunk, chunk, chunk], 30, 0, false, 0, pageSize);
      && Valid(s) && Enabled(s, BeginWait(20)) && s.read + 20 < |s.stream| && WaitAssert(s, 20)
      && Run(s, [BeginWait(20), Check, Decompress]).Some?
      && var t := Run(s, [BeginWait(20), Check, Decompress]).value; MustWait(t) && !WaitAssert(t, 20)
  {
    var one, two, three := [chunk], [chunk, chunk], [chunk, chunk, chunk];
    assert three[1..] == two && two[1..] == one && one[1..] == [];
    JoinedFirst(one, []);
    JoinedFirst(two, one);
    JoinedFirst(three, two);
    assert WillProduce(20, one, 30) == 30 && WillProduce(10, two, 30) == 30;
    InitIsValid(three, 30, 0, false, 0, pageSize);
    var s := Init(three, 30, 0, false, 0, pageSize);
    var a := Apply(s, BeginWait(20));
    StepKeepsValid(s, BeginWait(20));
    var b := Apply(a, Check);
    StepKeepsValid(a, Check);
    var c := Apply(b, Decompress);
    StepKeepsValid(b, Decompress);
    var steps := [BeginWait(20), Check, Decompress];
    assert steps[1..] == [Check, Decompress] && steps[1..][1..] == [Decompress] && steps[1..][1..][1..] == [];
    assert Run(b, [Decompress]) == Some(c);
    assert Run(a, [Check, Decompress]) == Run(b, [Decompress]);
    assert Run(s, steps) == Run(a, [Check, Decompress]);
  }

  // ---- read-ahead is bounded

  /** How far beyond the read or needed position the decompressor may be before a further chunk is added. */
  function Slack(s: Reader, maxChunk: nat): nat {
    if s.preloadFromStart && s.fixedPreload > 0 then s.fixedPreload else Max(s.fixedPreload, maxChunk)
  }

  predicate Bounded(s: Reader, maxChunk: nat) {
    && (forall chunk | chunk in s.coming :: |chunk| <= maxChunk)
    && s.last <= maxChunk
    && |s.data| <= Max(s.read, s.needed) + Slack(s, maxChunk) + maxChunk
    && (s.worker.Decompressing? ==> |s.data| <= Max(s.read, s.needed) + Slack(s, maxChunk))
  }

  lemma StepKeepsBounded(s: Reader, step: Step, maxChunk: nat)
    requires Valid(s) && Enabled(s, step) && Bounded(s, maxChunk)
    ensures Bounded(Apply(s, step), maxChunk)
  {
    if step.Decompress? {
      assert s.coming[0] in s.coming;
    }
  }

  /** The bound, from any valid bounded state on. */
  lemma {:induction false} RunKeepsBounded(s: Reader, steps: seq<Step>, maxChunk: nat)
    requires Valid(s) && Bounded(s, maxChunk) && Run(s, steps).Some?
    ensures var t := Run(s, steps).value;
      && Valid(t) && SameRun(s, t)
      && |t.data| <= Max(t.read, t.needed) + Slack(s, maxChunk) + maxChunk
    decreases |steps|
  {
    if steps != [] {
      var next := OneStep(s, steps[0], maxChunk);
      RunKeepsBounded(next, steps[1..], maxChunk);
    }
  }

  /** What no step changes. */
  predicate SameRun(s: Reader, t: Reader) {
    && t.stream == s.stream && t.limit == s.limit
    && t.preloadFromStart == s.preloadFromStart && t.fixedPreload == s.fixedPreload
  }

  lemma OneStep(s: Reader, step: Step, maxChunk: nat) returns (t: Reader)
    requires Valid(s) && Bounded(s, maxChunk) && Enabled(s, step)
    ensures t == Apply(s, step) && Valid(t) && Bounded(t, maxChunk) && SameRun(s, t)
  {
    StepKeepsValid(s, step);
    StepKeepsBounded(s, step, maxChunk);
    t := Apply(s, step);
  }

  /** In every reachable state the positions are in order, and the decompressor is at most the preload size
      and one chunk beyond what is read or needed. */
  lemma ReadAheadIsBounded(coming: seq<seq<byte>>, wanted: nat, fixedPreload: nat, preloadActive: bool, base: nat,
                           pageSize: nat, maxChunk: nat, steps: seq<Step>)
    requires coming != [] && (forall chunk | chunk in coming :: 0 < |chunk| <= maxChunk)
    requires wanted <= |Joined(coming)| && pageSize > 0
    ensures Valid(Init(coming, wanted, fixedPreload, preloadActive, base, pageSize))
    ensures var s := Init(coming, wanted, fixedPreload, preloadActive, base, pageSize);
      Run(s, steps).Some? ==> var t := Run(s, steps).value;
        Valid(t) && |t.data| <= Max(t.read, t.needed) + Slack(s, maxChunk) + maxChunk
  {
    InitIsValid(coming, wanted, fixedPreload, preloadActive, base, pageSize);
    var s := Init(coming, wanted, fixedPreload, preloadActive, base, pageSize);
    if Run(s, steps).Some? {
      RunKeepsBounded(s, steps, maxChunk);
    }
  }
}
