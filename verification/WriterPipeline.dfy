/** The writer of one trace stream as a step system: the capturing thread (producer), the compressor
    thread and the serializer thread, interleaved at their mutex sections (src/filewriter.h,
    src/filewriter.cpp), in the default mode where both worker threads run. */
module WriterPipeline {
  import opened Bytes
  import opened TraceFile

  /** How far finalize() has come. */
  datatype Stage = Recording | Queued | DoneFeeding | DoneCompressing | Closed

  /** All queues are newest first: the source pushes at the front and takes from the back. */
  datatype Pipe = Pipe(
    codec: Codec,
    defaultSize: nat,               // size of a fresh chunk
    chunk: seq<byte>,               // used part of the current chunk
    capacity: nat,                  // size of the current chunk
    holding: bool,
    held: seq<seq<byte>>,
    uncompressed: seq<seq<byte>>,
    compressing: Option<seq<byte>>, // taken by the compressor, not yet pushed on
    compressed: seq<seq<byte>>,
    writing: Option<seq<byte>>,     // taken by the serializer, not yet on disk
    disk: seq<byte>,                // the file after its fixed header
    filed: seq<byte>,               // history: the uncompressed content of all frames made so far
    stage: Stage,
    compressorExited: bool,
    serializerExited: bool)

  datatype Step =
    | Write(data: seq<byte>)                                      // write_value, write_array
    | WriteLater(data: seq<byte>)                                 // write_value_later
    | Store(back: nat, at: nat, position: nat, data: seq<byte>)   // through a pointer given out earlier
    | Freeze
    | Thaw
    | Feed                                                        // finalize: queue the last chunk
    | SetDoneFeeding
    | JoinCompressor
    | JoinSerializer
    | CompressorTake
    | CompressorPush(payload: seq<byte>)
    | CompressorExit
    | SerializerTake
    | SerializerWrite
    | SerializerExit

  function Init(codec: Codec, defaultSize: nat): Pipe {
    Pipe(codec, defaultSize, [], defaultSize, false, [], [], None, [], None, [], [], Recording, false, false)
  }

  function OrEmpty(part: Option<seq<byte>>): seq<byte> {
    if part.Some? then part.value else []
  }

  /** Every frame made so far, in the order it reaches the disk. */
  function Frames(s: Pipe): seq<byte> {
    s.disk + OrEmpty(s.writing) + Flatten(s.compressed)
  }

  ghost predicate WellFramed(s: Pipe) {
    Decode(s.codec, Frames(s)) == Some(s.filed)
  }

  /** What has left the producer: no pointer into it is valid any more. */
  function HandedOver(s: Pipe): seq<byte> {
    s.filed + OrEmpty(s.compressing) + Flatten(s.uncompressed)
  }

  /** The whole recorded stream, wherever its bytes currently are. */
  function Stream(s: Pipe): seq<byte> {
    HandedOver(s) + Flatten(s.held) + s.chunk
  }

  predicate FitsHeader(part: seq<byte>) {
    |part| < U32_LIMIT
  }

  predicate Valid(s: Pipe) {
    && |s.chunk| <= s.capacity < U32_LIMIT && s.defaultSize <= s.capacity
    && (forall part | part in s.held :: FitsHeader(part))
    && (forall part | part in s.uncompressed :: FitsHeader(part))
    && FitsHeader(OrEmpty(s.compressing))
    && (!s.holding ==> s.held == [])
    && (!s.stage.Recording? ==> s.chunk == [] && s.held == [])
    && (s.compressorExited ==> s.stage !in {Recording, Queued} && s.uncompressed == [] && s.compressing == None)
    && (s.stage in {DoneCompressing, Closed} ==> s.compressorExited)
    && (s.serializerExited ==> s.stage in {DoneCompressing, Closed} && s.compressed == [] && s.writing == None)
    && (s.stage == Closed ==> s.serializerExited)
  }

  function MakeSpace(s: Pipe, size: nat): Pipe {
    var renewed := s.(chunk := [], capacity := if size > s.defaultSize then size else s.defaultSize);
    if s.holding then renewed.(held := [s.chunk] + s.held)
    else renewed.(uncompressed := [s.chunk] + s.uncompressed)
  }

  function CheckSpace(s: Pipe, size: nat): Pipe {
    if size > s.capacity - |s.chunk| then MakeSpace(s, size) else s
  }

  /** The chunk `back` places behind the current one, counting only chunks not yet handed over. */
  function Pinned(s: Pipe, back: nat): seq<byte>
    requires back <= |s.held|
  {
    if back == 0 then s.chunk else s.held[back - 1]
  }

  /** Where in the stream the first byte of that chunk is. */
  function PinnedStart(s: Pipe, back: nat): nat
    requires back <= |s.held|
  {
    |HandedOver(s)| + |Flatten(s.held[back..])|
  }

  /** Filling a chunk while frozen moves every pinned chunk one place back and nowhere in the stream. */
  lemma MakeSpaceKeepsPositions(s: Pipe, size: nat, back: nat)
    requires s.holding && back <= |s.held|
    ensures Pinned(MakeSpace(s, size), back + 1) == Pinned(s, back)
    ensures PinnedStart(MakeSpace(s, size), back + 1) == PinnedStart(s, back)
  {
    assert MakeSpace(s, size).held[back + 1..] == s.held[back..];
  }

  predicate Enabled(s: Pipe, step: Step) {
    match step
    case Write(data) => s.stage.Recording? && |data| < U32_LIMIT
    case WriteLater(data) => s.stage.Recording? && |data| < U32_LIMIT
    case Store(back, at, position, data) =>
      && s.stage.Recording? && s.holding && back <= |s.held|
      && at + |data| <= |Pinned(s, back)|
      && position == PinnedStart(s, back) + at
    case Freeze => s.stage.Recording?
    case Thaw => s.stage.Recording?
    case Feed => s.stage.Recording? && s.held == []
    case SetDoneFeeding => s.stage.Queued?
    case JoinCompressor => s.stage.DoneFeeding? && s.compressorExited
    case JoinSerializer => s.stage.DoneCompressing? && s.serializerExited
    case CompressorTake => !s.compressorExited && s.compressing.None? && s.uncompressed != []
    case CompressorPush(payload) =>
      s.compressing.Some? && (s.compressing.value != [] ==> s.codec.packs(s.compressing.value, payload))
    case CompressorExit =>
      !s.compressorExited && s.compressing.None? && s.uncompressed == [] && s.stage !in {Recording, Queued}
    case SerializerTake => !s.serializerExited && s.writing.None? && s.compressed != []
    case SerializerWrite => s.writing.Some?
    case SerializerExit =>
      !s.serializerExited && s.writing.None? && s.compressed == [] && s.stage in {DoneCompressing, Closed}
  }

  function Apply(s: Pipe, step: Step): Pipe
    requires Enabled(s, step)
  {
    match step
    case Write(data) => var t := CheckSpace(s, |data|); t.(chunk := t.chunk + data)
    case WriteLater(data) => var t := CheckSpace(s, |data|); t.(holding := true, chunk := t.chunk + data)
    case Store(back, at, _, data) =>
      if back == 0 then s.(chunk := Splice(s.chunk, at, data))
      else s.(held := s.held[back - 1 := Splice(s.held[back - 1], at, data)])
    case Freeze => s.(holding := true)
    case Thaw => if s.holding then s.(uncompressed := s.held + s.uncompressed, held := [], holding := false) else s
    case Feed =>
      s.(uncompressed := [s.chunk] + s.uncompressed, chunk := [], capacity := s.defaultSize, stage := Queued)
    case SetDoneFeeding => s.(stage := DoneFeeding)
    case JoinCompressor => s.(stage := DoneCompressing)
    case JoinSerializer => s.(stage := Closed)
    case CompressorTake =>
      var last := |s.uncompressed| - 1;
      s.(compressing := Some(s.uncompressed[last]), uncompressed := s.uncompressed[..last])
    case CompressorPush(payload) =>
      // a buffer without content is dropped
      if s.compressing.value == [] then s.(compressing := None)
      else s.(compressing := None, filed := s.filed + s.compressing.value,
              compressed := [Frame(s.compressing.value, payload)] + s.compressed)
    case CompressorExit => s.(compressorExited := true)
    case SerializerTake =>
      var last := |s.compressed| - 1;
      s.(writing := Some(s.compressed[last]), compressed := s.compressed[..last])
    case SerializerWrite => s.(writing := None, disk := s.disk + s.writing.value)
    case SerializerExit => s.(serializerExited := true)
  }

  /** What a step means for the stream, seen by a caller who knows nothing of chunks and threads. */
  function Effect(step: Step, stream: seq<byte>): seq<byte> {
    match step
    case Write(data) => stream + data
    case WriteLater(data) => stream + data
    case Store(_, _, position, data) =>
      if position + |data| <= |stream| then Splice(stream, position, data) else stream
    case _ => stream
  }

  // ---- one lemma per group of steps: Valid is kept and the stream changes by Effect only

  predicate Correct(s: Pipe, step: Step)
    requires Enabled(s, step)
  {
    Valid(Apply(s, step)) && Stream(Apply(s, step)) == Effect(step, Stream(s))
  }

  lemma MakeSpaceKeepsStream(s: Pipe, size: nat)
    requires Valid(s) && s.stage.Recording? && size < U32_LIMIT
    ensures var t := MakeSpace(s, size);
      && Valid(t) && Stream(t) == Stream(s) && t.chunk == [] && size <= t.capacity
      && t.holding == s.holding && t.stage == s.stage
  {
    var t := MakeSpace(s, size);
    Unit(HandedOver(t) + Flatten(t.held));
    if s.holding {
      Assoc(HandedOver(s), Flatten(s.held), s.chunk);
    } else {
      Unit(HandedOver(s));
      Unit(HandedOver(t));
      Assoc(s.filed + OrEmpty(s.compressing), Flatten(s.uncompressed), s.chunk);
    }
  }

  lemma CheckSpaceMakesRoom(s: Pipe, size: nat)
    requires Valid(s) && s.stage.Recording? && size < U32_LIMIT
    ensures var t := CheckSpace(s, size);
      && Valid(t) && Stream(t) == Stream(s) && size <= t.capacity - |t.chunk|
      && t.holding == s.holding && t.stage == s.stage
  {
    if size > s.capacity - |s.chunk| {
      MakeSpaceKeepsStream(s, size);
    }
  }

  lemma FillChunk(s: Pipe, data: seq<byte>)
    requires Valid(s) && s.stage.Recording? && |data| <= s.capacity - |s.chunk|
    ensures var t := s.(chunk := s.chunk + data);
      Valid(t) && HandedOver(t) == HandedOver(s) && Stream(t) == Stream(s) + data
  {
    Assoc(HandedOver(s) + Flatten(s.held), s.chunk, data);
  }

  lemma AppendIsCorrect(s: Pipe, step: Step)
    requires Valid(s) && (step.Write? || step.WriteLater?) && Enabled(s, step)
    ensures Correct(s, step)
  {
    CheckSpaceMakesRoom(s, |step.data|);
    FillChunk(CheckSpace(s, |step.data|), step.data);
  }

  /** Overwriting in one entry of a queue overwrites the flattened queue at the matching place. */
  lemma {:induction false} FlattenUpdate(queue: seq<seq<byte>>, i: nat, at: nat, data: seq<byte>)
    requires i < |queue| && at + |data| <= |queue[i]|
    ensures |Flatten(queue[i + 1..])| + at + |data| <= |Flatten(queue)|
    ensures Flatten(queue[i := Splice(queue[i], at, data)])
         == Splice(Flatten(queue), |Flatten(queue[i + 1..])| + at, data)
    decreases i
  {
    var changed := Splice(queue[i], at, data);
    if i == 0 {
      SpliceSecond(Flatten(queue[1..]), queue[0], at, data);
      assert queue[0 := changed][1..] == queue[1..];
    } else {
      FlattenUpdate(queue[1..], i - 1, at, data);
      assert queue[1..][i..] == queue[i + 1..];
      assert queue[i := changed][1..] == queue[1..][i - 1 := changed];
      SpliceFirst(Flatten(queue[1..]), queue[0], |Flatten(queue[i + 1..])| + at, data);
    }
  }

  lemma StoreInHeldChunk(s: Pipe, step: Step)
    requires Valid(s) && step.Store? && step.back > 0 && Enabled(s, step)
    ensures Correct(s, step)
  {
    var t, older := Apply(s, step), |Flatten(s.held[step.back..])|;
    FlattenUpdate(s.held, step.back - 1, step.at, step.data);
    SpliceSecond(HandedOver(s), Flatten(s.held), older + step.at, step.data);
    SpliceFirst(HandedOver(s) + Flatten(s.held), s.chunk, step.position, step.data);
    forall i | 0 <= i < |t.held| ensures FitsHeader(t.held[i]) {
      assert s.held[i] in s.held;
    }
  }

  /** A store through a pinned pointer changes its own bytes of the stream, and none handed over. */
  lemma StoreIsCorrect(s: Pipe, step: Step)
    requires Valid(s) && step.Store? && Enabled(s, step)
    ensures Correct(s, step)
    ensures step.position + |step.data| <= |Stream(s)|
    ensures HandedOver(Apply(s, step)) == HandedOver(s)
    ensures |HandedOver(s)| <= step.position
  {
    if step.back == 0 {
      assert s.held[0..] == s.held;
      SpliceSecond(HandedOver(s) + Flatten(s.held), s.chunk, step.at, step.data);
    } else {
      FlattenUpdate(s.held, step.back - 1, step.at, step.data);
      StoreInHeldChunk(s, step);
    }
  }

  /** A store moves no chunk: live pointers keep their meaning. */
  lemma StoreKeepsPositions(s: Pipe, step: Step, back: nat)
    requires Valid(s) && step.Store? && Enabled(s, step) && back <= |s.held|
    ensures |Pinned(Apply(s, step), back)| == |Pinned(s, back)|
    ensures PinnedStart(Apply(s, step), back) == PinnedStart(s, back)
  {
    var i := step.back - 1;
    if i >= 0 {
      var changed := Splice(s.held[i], step.at, step.data);
      if back <= i {
        assert s.held[i := changed][back..] == s.held[back..][i - back := changed];
        FlattenUpdate(s.held[back..], i - back, step.at, step.data);
      } else {
        assert s.held[i := changed][back..] == s.held[back..];
      }
    }
  }

  lemma ThawIsCorrect(s: Pipe)
    requires Valid(s) && Enabled(s, Thaw)
    ensures Correct(s, Thaw) && !Apply(s, Thaw).holding
    ensures HandedOver(Apply(s, Thaw)) == HandedOver(s) + Flatten(s.held)
  {
    var t := Apply(s, Thaw);
    Unit(HandedOver(s));
    FlattenConcat(s.held, s.uncompressed);
    Assoc(s.filed + OrEmpty(s.compressing), Flatten(s.uncompressed), Flatten(s.held));
    Unit(HandedOver(t));
  }

  lemma FeedIsCorrect(s: Pipe)
    requires Valid(s) && Enabled(s, Feed)
    ensures Correct(s, Feed)
  {
    var t := Apply(s, Feed);
    Assoc(s.filed + OrEmpty(s.compressing), Flatten(s.uncompressed), s.chunk);
    Unit(HandedOver(s));
    Unit(HandedOver(t));
  }

  lemma CompressorStepIsCorrect(s: Pipe, step: Step)
    requires Valid(s) && (step.CompressorTake? || step.CompressorPush?) && Enabled(s, step)
    ensures Correct(s, step) && HandedOver(Apply(s, step)) == HandedOver(s)
  {
    var t := Apply(s, step);
    Unit(s.filed);
    Unit(t.filed);
    if step.CompressorTake? {
      FlattenPopBack(s.uncompressed);
      Assoc(s.filed, t.compressing.value, Flatten(t.uncompressed));
      assert t.compressing.value in s.uncompressed;
    }
    assert HandedOver(t) == HandedOver(s);
  }

  /** Every step of every thread keeps the invariant and acts on the stream as Effect says. */
  lemma StepIsCorrect(s: Pipe, step: Step)
    requires Valid(s) && Enabled(s, step)
    ensures Valid(Apply(s, step))
    ensures Stream(Apply(s, step)) == Effect(step, Stream(s))
  {
    match step
    case Write(_) => AppendIsCorrect(s, step);
    case WriteLater(_) => AppendIsCorrect(s, step);
    case Store(_, _, _, _) => StoreIsCorrect(s, step);
    case Thaw => ThawIsCorrect(s);
    case Feed => FeedIsCorrect(s);
    case CompressorTake => CompressorStepIsCorrect(s, step);
    case CompressorPush(_) => CompressorStepIsCorrect(s, step);
    case _ =>
  }

  // ---- the frames decode to the content that went into them

  lemma SerializerKeepsFrames(s: Pipe, step: Step)
    requires (step.SerializerTake? || step.SerializerWrite?) && Enabled(s, step)
    ensures Frames(Apply(s, step)) == Frames(s)
  {
    var t := Apply(s, step);
    Unit(s.disk);
    Unit(t.disk);
    if step.SerializerTake? {
      FlattenPopBack(s.compressed);
      Assoc(s.disk, t.writing.value, Flatten(t.compressed));
    }
  }

  lemma CompressorAddsFrame(s: Pipe, payload: seq<byte>)
    requires Enabled(s, CompressorPush(payload)) && s.compressing.value != []
    ensures Frames(Apply(s, CompressorPush(payload))) == Frames(s) + Frame(s.compressing.value, payload)
  {
    Assoc(s.disk + OrEmpty(s.writing), Flatten(s.compressed), Frame(s.compressing.value, payload));
  }

  lemma PushIsFramed(s: Pipe, payload: seq<byte>)
    requires Lawful(s.codec) && WellFramed(s) && Enabled(s, CompressorPush(payload)) && s.compressing.value != []
    requires FitsHeader(s.compressing.value)
    ensures WellFramed(Apply(s, CompressorPush(payload)))
  {
    CompressorAddsFrame(s, payload);
    DecodeAppend(s.codec, Frames(s), s.compressing.value, payload);
  }

  lemma FramingIsKept(s: Pipe, step: Step)
    requires Lawful(s.codec) && Valid(s) && WellFramed(s) && Enabled(s, step)
    ensures WellFramed(Apply(s, step))
  {
    if step.SerializerTake? || step.SerializerWrite? {
      SerializerKeepsFrames(s, step);
    } else if step.CompressorPush? && s.compressing.value != [] {
      PushIsFramed(s, step.payload);
    } else {
      assert Frames(Apply(s, step)) == Frames(s);
    }
  }

  // ---- whole runs

  /** The state after the given steps, None when one of them was not enabled. */
  function Run(s: Pipe, steps: seq<Step>): Option<Pipe>
    decreases |steps|
  {
    if steps == [] then Some(s)
    else if !Enabled(s, steps[0]) then None
    else Run(Apply(s, steps[0]), steps[1..])
  }

  /** The stream the producer asked for; worker steps do not matter to it. */
  function Recorded(steps: seq<Step>, stream: seq<byte>): seq<byte> {
    if steps == [] then stream else Recorded(steps[1..], Effect(steps[0], stream))
  }

  ghost predicate Sound(s: Pipe) {
    Lawful(s.codec) && Valid(s) && WellFramed(s)
  }

  lemma StepIsSound(s: Pipe, step: Step)
    requires Sound(s) && Enabled(s, step)
    ensures Sound(Apply(s, step)) && Apply(s, step).codec == s.codec
    ensures Stream(Apply(s, step)) == Effect(step, Stream(s))
  {
    StepIsCorrect(s, step);
    FramingIsKept(s, step);
  }

  lemma {:induction false} RunKeepsStream(s: Pipe, steps: seq<Step>)
    requires Sound(s) && Run(s, steps).Some?
    ensures Sound(Run(s, steps).value) && Run(s, steps).value.codec == s.codec
    ensures Stream(Run(s, steps).value) == Recorded(steps, Stream(s))
    decreases |steps|
  {
    if steps != [] {
      StepIsSound(s, steps[0]);
      RunKeepsStream(Apply(s, steps[0]), steps[1..]);
    }
  }

  lemma HeldStep(s: Pipe, step: Step)
    requires Valid(s) && s.holding && Enabled(s, step) && step != Thaw && step != Feed
    ensures Apply(s, step).holding && HandedOver(Apply(s, step)) == HandedOver(s)
  {
    if step.CompressorTake? || step.CompressorPush? {
      CompressorStepIsCorrect(s, step);
    }
  }

  /** From freezing to thawing nothing new is handed to the compressor, whatever is written and stored meanwhile. */
  lemma {:induction false} HeldUntilThaw(s: Pipe, steps: seq<Step>)
    requires Valid(s) && s.holding && Run(s, steps).Some? && Thaw !in steps && Feed !in steps
    ensures HandedOver(Run(s, steps).value) == HandedOver(s) && Run(s, steps).value.holding
    decreases |steps|
  {
    if steps != [] {
      assert steps[0] in steps && forall step | step in steps[1..] :: step in steps;
      StepIsCorrect(s, steps[0]);
      HeldStep(s, steps[0]);
      HeldUntilThaw(Apply(s, steps[0]), steps[1..]);
    }
  }

  /** So a pointer given out, or a freeze, keeps everything behind it from the compressor. */
  lemma FreezeHoldsBack(s: Pipe, first: Step, steps: seq<Step>)
    requires Valid(s) && (first.Freeze? || first.WriteLater?) && Enabled(s, first)
    requires Run(Apply(s, first), steps).Some? && Thaw !in steps && Feed !in steps
    ensures HandedOver(Run(Apply(s, first), steps).value) == HandedOver(Apply(s, first))
  {
    StepIsCorrect(s, first);
    HeldUntilThaw(Apply(s, first), steps);
  }

  lemma InitIsValid(codec: Codec, defaultSize: nat)
    requires defaultSize < U32_LIMIT
    ensures var s := Init(codec, defaultSize); Valid(s) && (Lawful(codec) ==> WellFramed(s)) && Stream(s) == []
  {}

  /** Whatever the interleaving: disk, queues, in-flight buffers and current chunk together always
      hold the bytes recorded so far, in order. */
  lemma NoByteIsLost(codec: Codec, defaultSize: nat, steps: seq<Step>)
    requires Lawful(codec) && defaultSize < U32_LIMIT
    requires Run(Init(codec, defaultSize), steps).Some?
    ensures var t := Run(Init(codec, defaultSize), steps).value;
      && Stream(t) == Recorded(steps, [])
      && Decode(codec, Frames(t)) == Some(t.filed)
  {
    InitIsValid(codec, defaultSize);
    RunKeepsStream(Init(codec, defaultSize), steps);
  }

  /** Once finalize() is through, the queues are empty (its two asserts hold) and the file alone
      decodes to the recorded stream. */
  lemma ClosedFileIsComplete(codec: Codec, defaultSize: nat, steps: seq<Step>)
    requires Lawful(codec) && defaultSize < U32_LIMIT
    requires Run(Init(codec, defaultSize), steps).Some?
    requires Run(Init(codec, defaultSize), steps).value.stage == Closed
    ensures var t := Run(Init(codec, defaultSize), steps).value;
      && t.uncompressed == [] && t.compressed == []
      && Decode(codec, t.disk) == Some(Recorded(steps, []))
  {
    InitIsValid(codec, defaultSize);
    RunKeepsStream(Init(codec, defaultSize), steps);
    var t := Run(Init(codec, defaultSize), steps).value;
    Unit(t.disk);
    Unit(t.filed);
  }

  // ---- finalize() ends

  predicate IsWork(step: Step) {
    step.CompressorPush?
    || step in {SetDoneFeeding, JoinCompressor, JoinSerializer, CompressorTake, CompressorExit,
                SerializerTake, SerializerWrite, SerializerExit}
  }

  function StageRank(stage: Stage): nat {
    match stage
    case Recording => 4
    case Queued => 3
    case DoneFeeding => 2
    case DoneCompressing => 1
    case Closed => 0
  }

  /** An upper bound on the steps the workers and finalize() can still take. */
  function WorkLeft(s: Pipe): nat {
    4 * |s.uncompressed| + (if s.compressing.Some? then 3 else 0)
    + 2 * |s.compressed| + (if s.writing.Some? then 1 else 0)
    + (if s.compressorExited then 0 else 1) + (if s.serializerExited then 0 else 1)
    + StageRank(s.stage)
  }

  lemma WorkShrinks(s: Pipe, step: Step)
    requires Enabled(s, step) && IsWork(step)
    ensures WorkLeft(Apply(s, step)) < WorkLeft(s)
  {}

  /** From Feed on there is always a thread that can move until the file is closed: no deadlock, and
      with WorkShrinks, no livelock. */
  lemma FinalizeIsNeverStuck(s: Pipe) returns (step: Step)
    requires Lawful(s.codec) && Valid(s) && s.stage != Recording && s.stage != Closed
    ensures IsWork(step) && Enabled(s, step)
  {
    if s.stage == Queued {
      step := SetDoneFeeding;
    } else if s.stage == DoneFeeding && s.compressing.Some? {
      assert Packable(s.codec, s.compressing.value);
      var payload :| s.codec.packs(s.compressing.value, payload);
      step := CompressorPush(payload);
    } else if s.stage == DoneFeeding {
      step := if s.compressorExited then JoinCompressor
              else if s.uncompressed != [] then CompressorTake
              else CompressorExit;
    } else {
      step := if s.serializerExited then JoinSerializer
              else if s.writing.Some? then SerializerWrite
              else if s.compressed != [] then SerializerTake
              else SerializerExit;
    }
  }

  /** Hence any state after Feed can be driven to a closed file, in at most WorkLeft steps. */
  lemma {:induction false} FinalizeCompletes(s: Pipe) returns (steps: seq<Step>)
    requires Lawful(s.codec) && Valid(s) && s.stage != Recording
    ensures |steps| <= WorkLeft(s)
    ensures Run(s, steps).Some? && Run(s, steps).value.stage == Closed
    decreases WorkLeft(s)
  {
    if s.stage == Closed {
      steps := [];
    } else {
      var step := FinalizeIsNeverStuck(s);
      StepIsCorrect(s, step);
      WorkShrinks(s, step);
      var rest := FinalizeCompletes(Apply(s, step));
      steps := [step] + rest;
      assert steps[1..] == rest;
    }
  }
}
