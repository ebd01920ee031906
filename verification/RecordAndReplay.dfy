/** Writer and reader together: the file one thread records, through every buffer, thread and frame on the way,
    is the stream a replayer reads, and a memory patch recorded somewhere in it restores the memory
    (src/filewriter.h, src/filewriter.cpp, src/filereader.h, src/filereader.cpp). */
module RecordAndReplay {
  import opened Bytes
  import opened TraceFile
  import opened PatchCodec
  import opened PatchWriting
  import opened FileWriting
  import opened FileReading
  import Pipeline = WriterPipeline

  // ---- what the producer asked for

  predicate ByProducer(step: Pipeline.Step) {
    step.Write? || step.WriteLater? || step.Store?
  }

  /** The run as the recording thread sees it. */
  function ProducerOf(steps: seq<Pipeline.Step>): seq<Pipeline.Step> {
    if steps == [] then [] else (if ByProducer(steps[0]) then [steps[0]] else []) + ProducerOf(steps[1..])
  }

  lemma {:induction false} WorkersDoNotMatter(steps: seq<Pipeline.Step>, stream: seq<byte>)
    ensures Pipeline.Recorded(steps, stream) == Pipeline.Recorded(ProducerOf(steps), stream)
    decreases |steps|
  {
    if steps != [] {
      var next := Pipeline.Effect(steps[0], stream);
      WorkersDoNotMatter(steps[1..], next);
      if ByProducer(steps[0]) {
        assert ProducerOf(steps)[1..] == ProducerOf(steps[1..]);
      } else {
        assert ProducerOf(steps) == ProducerOf(steps[1..]);
      }
    }
  }

  lemma {:induction false} RecordedInTurn(a: seq<Pipeline.Step>, b: seq<Pipeline.Step>, stream: seq<byte>)
    ensures Pipeline.Recorded(a + b, stream) == Pipeline.Recorded(b, Pipeline.Recorded(a, stream))
    decreases |a|
  {
    if a == [] {
      assert a + b == b;
    } else {
      assert (a + b)[1..] == a[1..] + b;
      RecordedInTurn(a[1..], b, Pipeline.Effect(a[0], stream));
    }
  }

  /** No store through an earlier pointer touches these bytes. */
  predicate Spares(steps: seq<Pipeline.Step>, at: nat, n: nat) {
    forall step | step in steps && step.Store? :: step.position + |step.data| <= at || at + n <= step.position
  }

  lemma StepSpares(step: Pipeline.Step, stream: seq<byte>, at: nat, n: nat)
    requires at + n <= |stream| && Spares([step], at, n)
    ensures |stream| <= |Pipeline.Effect(step, stream)|
    ensures Pipeline.Effect(step, stream)[at..at + n] == stream[at..at + n]
  {
    assert step in [step];
  }

  lemma {:induction false} SparedStays(steps: seq<Pipeline.Step>, stream: seq<byte>, at: nat, n: nat)
    requires at + n <= |stream| && Spares(steps, at, n)
    ensures |stream| <= |Pipeline.Recorded(steps, stream)|
    ensures Pipeline.Recorded(steps, stream)[at..at + n] == stream[at..at + n]
    decreases |steps|
  {
    if steps != [] {
      StepSpares(steps[0], stream, at, n);
      SparedStays(steps[1..], Pipeline.Effect(steps[0], stream), at, n);
    }
  }

  /** Between `ahead` and `behind` the producer writes a patch that nothing behind it overwrites. */
  predicate RecordsPatch(steps: seq<Pipeline.Step>, ahead: seq<Pipeline.Step>, written: seq<Change>,
                         behind: seq<Pipeline.Step>) {
    && ProducerOf(steps) == ahead + Writes(Pieces(written)) + behind
    && Spares(behind, |Pipeline.Recorded(ahead, [])|, |Encode(written)|)
  }

  lemma RecordedAround(ahead: seq<Pipeline.Step>, written: seq<Change>, behind: seq<Pipeline.Step>)
    ensures Pipeline.Recorded(ahead + Writes(Pieces(written)) + behind, [])
         == Pipeline.Recorded(behind, Pipeline.Recorded(ahead, []) + Encode(written))
  {
    RecordedInTurn(ahead + Writes(Pieces(written)), behind, []);
    RecordedInTurn(ahead, Writes(Pieces(written)), []);
    PiecesAreRecorded(written, Pipeline.Recorded(ahead, []));
  }

  /** Then the recorded stream holds the patch where it was written. */
  lemma PatchIsRecorded(steps: seq<Pipeline.Step>, ahead: seq<Pipeline.Step>, written: seq<Change>,
                        behind: seq<Pipeline.Step>, at: nat, stream: seq<byte>)
    requires RecordsPatch(steps, ahead, written, behind)
    requires at == |Pipeline.Recorded(ahead, [])| && stream == Pipeline.Recorded(steps, [])
    ensures at + |Encode(written)| <= |stream| && stream[at..at + |Encode(written)|] == Encode(written)
  {
    var before, patch := Pipeline.Recorded(ahead, []), Encode(written);
    WorkersDoNotMatter(steps, []);
    RecordedAround(ahead, written, behind);
    SparedStays(behind, before + patch, at, |patch|);
    ConcatParts(before, patch);
    assert (before + patch)[at..at + |patch|] == patch;
  }

  // ---- reading the closed file

  /** The writer's state after these steps of the recording thread, the workers and finalize(). */
  ghost predicate HasRun(codec: Codec, defaultSize: nat, steps: seq<Pipeline.Step>, disk: seq<byte>) {
    && Lawful(codec) && defaultSize < U32_LIMIT
    && var end := Pipeline.Run(Pipeline.Init(codec, defaultSize), steps);
       end.Some? && end.value.stage == Pipeline.Closed && end.value.disk == disk
  }

  /** A reader opened on the file of a writer that is through with finalize() will read the recorded stream. */
  method OpenRecorded(codec: Codec, defaultSize: nat, disk: seq<byte>, ghost steps: seq<Pipeline.Step>)
    returns (reader: FileReader)
    requires HasRun(codec, defaultSize, steps, disk)
    ensures fresh(reader) && reader.Valid() && reader.Future() == Pipeline.Recorded(steps, [])
  {
    Pipeline.ClosedFileIsComplete(codec, defaultSize, steps);
    reader := new FileReader(codec, disk);
  }

  method OpenWriter(writer: FileWriter, ghost steps: seq<Pipeline.Step>) returns (reader: FileReader)
    requires writer.Valid() && HasRun(writer.codec, writer.defaultSize, steps, writer.disk)
    ensures fresh(reader) && reader.Valid() && reader.Future() == Pipeline.Recorded(steps, [])
  {
    reader := OpenRecorded(writer.codec, writer.defaultSize, writer.disk, steps);
  }

  lemma PatchIsAhead(stream: seq<byte>, at: nat, written: seq<Change>, s: seq<byte>) returns (rest: seq<byte>)
    requires at + |Encode(written)| <= |stream| && stream[at..at + |Encode(written)|] == Encode(written)
    requires s == stream[at..]
    ensures s == Encode(written) + rest && rest == stream[at + |Encode(written)|..]
  {
    rest := stream[at + |Encode(written)|..];
  }

  /** The patch at the front of what is left to read. */
  method ApplyPatch(reader: FileReader, buf: array<byte>, ghost written: seq<Change>, ghost chng: seq<byte>, ghost lo: nat,
                    ghost hi: nat, ghost rest: seq<byte>)
    requires reader.Valid() && lo <= hi <= |chng| == buf.Length
    requires PatchOf(Changes(buf[..], chng, lo, hi)) == Some(written) && reader.Future() == Encode(written) + rest
    modifies reader, buf
    ensures reader.Valid() && reader.Future() == rest
    ensures buf[..] == Splice(old(buf[..]), lo, chng[lo..hi]) <==> AllRecordable(Changes(old(buf[..]), chng, lo, hi))
  {
    PatchRoundTrip(buf[..], chng, lo, hi, rest);
    ConcatParts(Encode(written), rest);
    var changed := reader.ReadPatch(buf, 0);
  }

  /** A patch that was recorded `at` bytes into the stream is read back from the closed file: the buffer gets the
      changed bytes on the range and keeps all others if and only if every gap and every record can be recorded, and
      the reader goes on behind the patch in any case. */
  method ReplayPatch(codec: Codec, defaultSize: nat, disk: seq<byte>, at: nat, buf: array<byte>,
                     ghost steps: seq<Pipeline.Step>, ghost ahead: seq<Pipeline.Step>, ghost behind: seq<Pipeline.Step>,
                     ghost written: seq<Change>, ghost chng: seq<byte>, ghost lo: nat, ghost hi: nat)
    returns (reader: FileReader)
    requires HasRun(codec, defaultSize, steps, disk)
    requires lo <= hi <= |chng| == buf.Length && at == |Pipeline.Recorded(ahead, [])|
    requires PatchOf(Changes(buf[..], chng, lo, hi)) == Some(written) && RecordsPatch(steps, ahead, written, behind)
    modifies buf
    ensures buf[..] == Splice(old(buf[..]), lo, chng[lo..hi]) <==> AllRecordable(Changes(old(buf[..]), chng, lo, hi))
    ensures fresh(reader) && reader.Valid() && at + |Encode(written)| <= |Pipeline.Recorded(steps, [])|
    ensures reader.Future() == Pipeline.Recorded(steps, [])[at + |Encode(written)|..]
  {
    ghost var stream := Pipeline.Recorded(steps, []);
    PatchIsRecorded(steps, ahead, written, behind, at, stream);
    reader := OpenRecorded(codec, defaultSize, disk, steps);
    var skipped := reader.ReadArray(at);
    ConcatParts(skipped, reader.Future());
    ghost var rest := PatchIsAhead(stream, at, written, reader.Future());
    ApplyPatch(reader, buf, written, chng, lo, hi, rest);
  }
}
