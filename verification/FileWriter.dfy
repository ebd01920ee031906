/** file_writer as an object: the chunks that can still be written to are heap buffers, pointers handed
    out by write_value_later point into them, and each method is one atomic section of one of the three
    threads. Every method is tied to the step of WriterPipeline it implements (src/filewriter.h,
    src/filewriter.cpp). */
module FileWriting {
  import opened Bytes
  import opened TraceFile
  import Pipeline = WriterPipeline

  /** struct buffer: allocated memory and the size it currently claims to have. */
  datatype Buffer = Buffer(mem: array<byte>, size: nat)

  /** What write_value_later returns: an address inside some chunk. */
  datatype Pointer = Pointer(mem: array<byte>, at: nat, size: nat)

  predicate InBounds(buffers: seq<Buffer>) {
    forall b | b in buffers :: b.size <= b.mem.Length
  }

  function Memory(buffers: seq<Buffer>): set<array<byte>> {
    set b | b in buffers :: b.mem
  }

  predicate PairwiseDistinct(buffers: seq<Buffer>) {
    forall i, j | 0 <= i < j < |buffers| :: buffers[i].mem != buffers[j].mem
  }

  function Contents(buffers: seq<Buffer>): (s: seq<seq<byte>>)
    requires InBounds(buffers)
    reads Memory(buffers)
    ensures |s| == |buffers|
    ensures forall i | 0 <= i < |buffers| :: s[i] == buffers[i].mem[..buffers[i].size]
  {
    if buffers == [] then [] else [buffers[0].mem[..buffers[0].size]] + Contents(buffers[1..])
  }

  lemma Pushed(first: Buffer, held: seq<Buffer>)
    requires InBounds(held) && PairwiseDistinct(held) && first.size <= first.mem.Length && first.mem !in Memory(held)
    ensures var all := [first] + held;
      && InBounds(all) && PairwiseDistinct(all) && Memory(all) == {first.mem} + Memory(held)
      && Contents(all) == [first.mem[..first.size]] + Contents(held)
  {
    assert ([first] + held)[0] == first && forall b | b in held :: b in [first] + held;
  }

  lemma OneChanged(buffers: seq<Buffer>, was: seq<seq<byte>>, i: nat)
    requires InBounds(buffers) && |was| == |buffers| && i < |buffers|
    requires forall j | 0 <= j < |buffers| && j != i :: buffers[j].mem[..buffers[j].size] == was[j]
    ensures Contents(buffers) == was[i := buffers[i].mem[..buffers[i].size]]
  {}

  /** memcpy(mem + at, data) */
  method CopyBytes(mem: array<byte>, at: nat, data: seq<byte>)
    requires at + |data| <= mem.Length
    modifies mem
    ensures forall n | at + |data| <= n <= mem.Length :: mem[..n] == Splice(old(mem[..n]), at, data)
  {
    forall k | 0 <= k < |data| {
      mem[at + k] := data[k];
    }
  }

  class FileWriter {
    const codec: Codec
    const defaultSize: nat
    var chunk: Buffer
    var uidx: nat
    var holding: bool
    var held: seq<Buffer>
    // A buffer that has been handed over is not written again, so only its content is kept.
    var uncompressed: seq<seq<byte>>
    var compressing: Option<seq<byte>>
    var compressed: seq<seq<byte>>
    var writing: Option<seq<byte>>
    var disk: seq<byte>
    var stage: Pipeline.Stage
    var compressorExited: bool
    var serializerExited: bool
    var uncompressedBytes: nat
    ghost var filed: seq<byte>
    ghost var pinned: set<(Pointer, nat)> // live pointers, each with the stream position it stands for

    ghost function Repr(): set<array<byte>>
      reads this
    {
      {chunk.mem} + Memory(held)
    }

    ghost predicate WellFormed()
      reads this
    {
      && uidx <= chunk.size == chunk.mem.Length
      && chunk.mem !in Memory(held)
      && PairwiseDistinct(held)
      && InBounds(held)
    }

    ghost function View(): Pipeline.Pipe
      requires WellFormed()
      reads this, Repr()
    {
      Pipeline.Pipe(codec, defaultSize, chunk.mem[..uidx], chunk.size, holding, Contents(held), uncompressed,
        compressing, compressed, writing, disk, filed, stage, compressorExited, serializerExited)
    }

    /** p points into the chunk `back` places behind the current one and stands for `position`. */
    ghost predicate PointsInto(p: Pointer, position: nat, back: nat)
      requires WellFormed()
      reads this, Repr()
    {
      && back <= |held|
      && p.mem == (if back == 0 then chunk.mem else held[back - 1].mem)
      && p.at + p.size <= |Pipeline.Pinned(View(), back)|
      && position == Pipeline.PinnedStart(View(), back) + p.at
    }

    ghost predicate PointersLive()
      requires WellFormed()
      reads this, Repr()
    {
      && (!holding ==> pinned == {})
      && (forall live | live in pinned :: exists back: nat :: PointsInto(live.0, live.1, back))
    }

    ghost predicate Valid()
      reads this, Repr()
    {
      && WellFormed()
      && Pipeline.Valid(View())
      && uncompressedBytes == |Pipeline.Stream(View())|
      && PointersLive()
    }

    constructor (codec: Codec, defaultSize: nat)
      requires defaultSize < U32_LIMIT
      ensures Valid() && fresh(Repr()) && View() == Pipeline.Init(codec, defaultSize)
      ensures this.codec == codec && pinned == {}
    {
      this.codec, this.defaultSize := codec, defaultSize;
      var mem := new byte[defaultSize];
      chunk, uidx, holding, held, uncompressed := Buffer(mem, defaultSize), 0, false, [], [];
      compressing, compressed, writing, disk, filed := None, [], None, [], [];
      stage, compressorExited, serializerExited := Pipeline.Recording, false, false;
      uncompressedBytes, pinned := 0, {};
      new;
      Pipeline.InitIsValid(codec, defaultSize);
      assert View() == Pipeline.Init(codec, defaultSize);
    }

    method NewChunk(capacity: nat)
      modifies this`chunk, this`uidx
      ensures fresh(chunk.mem) && chunk == Buffer(chunk.mem, capacity) && chunk.mem.Length == capacity && uidx == 0
    {
      var mem := new byte[capacity];
      chunk, uidx := Buffer(mem, capacity), 0;
    }

    /** Pointers stay live when the current chunk joins the held ones and a new chunk takes its place. */
    twostate lemma PointersFollowChunk(size: nat)
      requires old(WellFormed()) && old(PointersLive()) && WellFormed()
      requires holding == old(holding) && pinned == old(pinned)
      requires View() == Pipeline.MakeSpace(old(View()), size)
      requires holding && held == [Buffer(old(chunk).mem, old(uidx))] + old(held)
      ensures PointersLive()
    {
      forall live | live in pinned ensures exists back: nat :: PointsInto(live.0, live.1, back) {
        var back: nat :| old(PointsInto(live.0, live.1, back));
        Pipeline.MakeSpaceKeepsPositions(old(View()), size, back);
        assert PointsInto(live.0, live.1, back + 1);
      }
    }

    method HoldChunk(capacity: nat)
      requires WellFormed()
      modifies this`chunk, this`uidx, this`held
      ensures WellFormed() && fresh(chunk.mem) && held == [Buffer(old(chunk).mem, old(uidx))] + old(held)
      ensures View() == old(View()).(chunk := [], capacity := capacity, held := [old(View()).chunk] + old(View()).held)
    {
      var filled := Buffer(chunk.mem, uidx);
      Pushed(filled, held);
      held := [filled] + held;
      NewChunk(capacity);
    }

    /** The new chunk of make_space, with the filled one kept back because of live pointers into it. */
    method HoldPinnedChunk(size: nat)
      requires WellFormed() && PointersLive() && holding
      modifies this`chunk, this`uidx, this`held
      ensures WellFormed() && PointersLive() && fresh(chunk.mem)
      ensures held == [Buffer(old(chunk).mem, old(uidx))] + old(held) && View() == Pipeline.MakeSpace(old(View()), size)
    {
      HoldChunk(if size > defaultSize then size else defaultSize);
      PointersFollowChunk(size);
    }

    /** The new chunk of make_space, with the filled one queued for the compressor. */
    method QueueChunk(capacity: nat)
      requires WellFormed()
      modifies this`chunk, this`uidx, this`uncompressed
      ensures WellFormed() && fresh(chunk.mem)
      ensures View() == old(View()).(chunk := [], capacity := capacity,
                                     uncompressed := [old(View()).chunk] + old(View()).uncompressed)
    {
      uncompressed := [chunk.mem[..uidx]] + uncompressed;
      NewChunk(capacity);
    }

    method MakeSpace(size: nat)
      requires Valid() && stage.Recording? && size < U32_LIMIT
      modifies this`chunk, this`uidx, this`held, this`uncompressed
      ensures Valid() && View() == Pipeline.MakeSpace(old(View()), size)
      ensures fresh(chunk.mem) && Repr() <= old(Repr()) + {chunk.mem}
    {
      Pipeline.MakeSpaceKeepsStream(View(), size);
      if holding {
        HoldPinnedChunk(size);
      } else {
        QueueChunk(if size > defaultSize then size else defaultSize);
      }
    }

    /** memcpy to the end of the current chunk. */
    method CopyIn(data: seq<byte>)
      requires WellFormed() && uidx + |data| <= chunk.size
      modifies chunk.mem, this`uidx
      ensures WellFormed()
      ensures View() == old(View()).(chunk := old(View()).chunk + data)
    {
      ghost var was := Contents(held);
      forall k | 0 <= k < |data| {
        chunk.mem[uidx + k] := data[k];
      }
      uidx := uidx + |data|;
      assert chunk.mem[..uidx] == old(chunk.mem[..uidx]) + data;
    }

    /** Pointers stay live while no chunk moves, bytes being added behind them or stored through them. */
    twostate lemma PointersSurvive()
      requires old(WellFormed()) && old(PointersLive()) && WellFormed()
      requires (old(holding) ==> holding) && pinned == old(pinned) && chunk == old(chunk) && held == old(held)
      requires Pipeline.HandedOver(View()) == Pipeline.HandedOver(old(View()))
      requires View().held == old(View()).held && |View().chunk| >= |old(View()).chunk|
      ensures PointersLive()
    {
      forall live | live in pinned ensures exists back: nat :: PointsInto(live.0, live.1, back) {
        var back: nat :| old(PointsInto(live.0, live.1, back));
        assert PointsInto(live.0, live.1, back);
      }
    }

    method CheckSpace(size: nat)
      requires Valid() && stage.Recording? && size < U32_LIMIT
      modifies this`chunk, this`uidx, this`held, this`uncompressed
      ensures Valid() && View() == Pipeline.CheckSpace(old(View()), size)
      ensures size <= chunk.size - uidx
      ensures fresh(Repr() - old(Repr())) && (chunk == old(chunk) || fresh(chunk.mem))
    {
      if size > chunk.size - uidx {
        MakeSpace(size);
      }
    }

    method Append(data: seq<byte>)
      requires Valid() && stage.Recording? && |data| <= chunk.size - uidx
      modifies this`uidx, this`uncompressedBytes, chunk.mem
      ensures Valid() && View() == old(View()).(chunk := old(View()).chunk + data)
      ensures Pipeline.Stream(View()) == Pipeline.Stream(old(View())) + data
    {
      Pipeline.FillChunk(View(), data);
      CopyIn(data);
      uncompressedBytes := uncompressedBytes + |data|;
      PointersSurvive();
    }

    /** write_array, and write_value for data that encodes one value. */
    method WriteArray(data: seq<byte>)
      requires Valid() && stage.Recording? && |data| < U32_LIMIT
      modifies this`chunk, this`uidx, this`held, this`uncompressed, this`uncompressedBytes, chunk.mem
      ensures Valid() && View() == Pipeline.Apply(old(View()), Pipeline.Write(data))
      ensures Pipeline.Stream(View()) == Pipeline.Stream(old(View())) + data
      ensures fresh(Repr() - old(Repr())) && (chunk == old(chunk) || fresh(chunk.mem))
    {
      Pipeline.CheckSpaceMakesRoom(View(), |data|);
      CheckSpace(|data|);
      Append(data);
    }

    method AppendPinned(data: seq<byte>) returns (p: Pointer)
      requires Valid() && stage.Recording? && |data| <= chunk.size - uidx
      modifies this`uidx, this`uncompressedBytes, this`holding, this`pinned, chunk.mem
      ensures Valid() && View() == old(View()).(holding := true, chunk := old(View()).chunk + data)
      ensures p.size == |data| && pinned == old(pinned) + {(p, old(uncompressedBytes))}
    {
      Freeze();
      p := Pointer(chunk.mem, uidx, |data|);
      Append(data);
      Pin(p, uncompressedBytes - |data|);
    }

    /** write_value_later: the returned pointer stands for the position the value has in the stream. */
    method WriteValueLater(data: seq<byte>) returns (p: Pointer)
      requires Valid() && stage.Recording? && |data| < U32_LIMIT
      modifies this`chunk, this`uidx, this`held, this`uncompressed, this`uncompressedBytes, this`holding, this`pinned
      modifies chunk.mem
      ensures Valid() && View() == Pipeline.Apply(old(View()), Pipeline.WriteLater(data))
      ensures p.size == |data| && pinned == old(pinned) + {(p, |Pipeline.Stream(old(View()))|)}
      ensures fresh(Repr() - old(Repr())) && (chunk == old(chunk) || fresh(chunk.mem))
    {
      CheckSpace(|data|);
      p := AppendPinned(data);
    }

    /** History only: remember a pointer to the last bytes written. */
    ghost method Pin(p: Pointer, position: nat)
      requires Valid() && holding
      requires p.mem == chunk.mem && p.at + p.size == uidx && position + p.size == |Pipeline.Stream(View())|
      modifies this`pinned
      ensures Valid() && View() == old(View()) && pinned == old(pinned) + {(p, position)}
    {
      pinned := pinned + {(p, position)};
      assert held[0..] == held && View().held[0..] == View().held;
      assert PointsInto(p, position, 0);
      forall live | live in old(pinned) ensures exists back: nat :: PointsInto(live.0, live.1, back) {
        var back: nat :| old(PointsInto(live.0, live.1, back));
        assert PointsInto(live.0, live.1, back);
      }
    }

    /** A store through a live pointer: its own bytes of the stream change and nothing else does; in
        particular nothing that was handed to the compressor. */
    method Store(p: Pointer, ghost position: nat, data: seq<byte>) returns (ghost back: nat)
      requires Valid() && stage.Recording? && (p, position) in pinned && |data| == p.size
      modifies p.mem
      ensures Valid() && Pipeline.Enabled(old(View()), Pipeline.Store(back, p.at, position, data))
      ensures View() == Pipeline.Apply(old(View()), Pipeline.Store(back, p.at, position, data))
      ensures position + |data| <= |Pipeline.Stream(old(View()))|
      ensures Pipeline.Stream(View()) == Splice(Pipeline.Stream(old(View())), position, data)
      ensures Pipeline.HandedOver(View()) == Pipeline.HandedOver(old(View()))
    {
      back :| PointsInto(p, position, back);
      ghost var step := Pipeline.Store(back, p.at, position, data);
      Pipeline.StoreIsCorrect(View(), step);
      Poke(p, data, back, position);
      PointersSurviveStore(step);
    }

    lemma PointerFits(p: Pointer, position: nat, back: nat)
      requires WellFormed() && PointsInto(p, position, back)
      ensures p.mem == chunk.mem <==> back == 0
      ensures back == 0 ==> p.at + p.size <= uidx
      ensures back > 0 ==> p.mem == held[back - 1].mem && p.at + p.size <= held[back - 1].size
    {
      if back > 0 {
        assert held[back - 1].mem in Memory(held);
        assert |Contents(held)[back - 1]| == held[back - 1].size;
      }
    }

    method Poke(p: Pointer, data: seq<byte>, ghost back: nat, ghost position: nat)
      requires WellFormed() && PointsInto(p, position, back) && |data| == p.size
      modifies p.mem
      ensures WellFormed()
      ensures View() == if back == 0 then old(View()).(chunk := Splice(old(View()).chunk, p.at, data))
        else old(View()).(held := old(View()).held[back - 1 := Splice(old(View()).held[back - 1], p.at, data)])
    {
      PointerFits(p, position, back);
      if p.mem == chunk.mem {
        PokeCurrent(p.at, data);
      } else {
        PokeHeld(p.mem, p.at, data, back - 1);
      }
    }

    method PokeCurrent(at: nat, data: seq<byte>)
      requires WellFormed() && at + |data| <= uidx
      modifies chunk.mem
      ensures WellFormed()
      ensures View() == old(View()).(chunk := Splice(old(View()).chunk, at, data))
    {
      CopyBytes(chunk.mem, at, data);
    }

    method PokeHeld(mem: array<byte>, at: nat, data: seq<byte>, ghost i: nat)
      requires WellFormed() && i < |held| && held[i].mem == mem && at + |data| <= held[i].size
      modifies mem
      ensures WellFormed()
      ensures View() == old(View()).(held := old(View()).held[i := Splice(old(View()).held[i], at, data)])
    {
      ghost var was := Contents(held);
      assert held[i] in held && mem in Memory(held);
      CopyBytes(mem, at, data);
      assert was[i] == old(mem[..held[i].size]);
      forall j | 0 <= j < |held| && j != i ensures held[j].mem[..held[j].size] == was[j] {
        assert held[j].mem != mem;
        assert was[j] == old(held[j].mem[..held[j].size]);
      }
      OneChanged(held, was, i);
    }

    twostate lemma PointersSurviveStore(step: Pipeline.Step)
      requires old(WellFormed()) && old(PointersLive()) && WellFormed()
      requires step.Store? && Pipeline.Valid(old(View())) && Pipeline.Enabled(old(View()), step)
      requires View() == Pipeline.Apply(old(View()), step)
      requires pinned == old(pinned) && chunk == old(chunk) && held == old(held)
      ensures PointersLive()
    {
      forall live | live in pinned ensures exists back: nat :: PointsInto(live.0, live.1, back) {
        var back: nat :| old(PointsInto(live.0, live.1, back));
        Pipeline.StoreKeepsPositions(old(View()), step, back);
        assert PointsInto(live.0, live.1, back);
      }
    }

    method Freeze()
      requires Valid() && stage.Recording?
      modifies this`holding
      ensures Valid() && View() == Pipeline.Apply(old(View()), Pipeline.Freeze)
      ensures holding && Pipeline.Stream(View()) == Pipeline.Stream(old(View()))
    {
      holding := true;
      PointersSurvive();
    }

    /** Every pointer given out so far is dead from here on. */
    method Thaw()
      requires Valid() && stage.Recording?
      modifies this`holding, this`held, this`uncompressed, this`pinned
      ensures Valid() && View() == Pipeline.Apply(old(View()), Pipeline.Thaw)
      ensures pinned == {} && !holding && Repr() <= old(Repr())
    {
      if holding {
        ReleaseHeld();
      }
    }

    method ReleaseHeld()
      requires Valid() && stage.Recording? && holding
      modifies this`holding, this`held, this`uncompressed, this`pinned
      ensures Valid() && View() == Pipeline.Apply(old(View()), Pipeline.Thaw)
      ensures pinned == {} && !holding && Repr() <= old(Repr())
    {
      Pipeline.ThawIsCorrect(View());
      SpliceHeld();
      pinned := {};
    }

    method SpliceHeld()
      requires WellFormed()
      modifies this`holding, this`held, this`uncompressed
      ensures WellFormed() && held == [] && !holding
      ensures View() == old(View()).(uncompressed := old(View()).held + old(View()).uncompressed, held := [], holding := false)
    {
      uncompressed := Contents(held) + uncompressed;
      held, holding := [], false;
    }

    /** The first part of finalize(): whatever is left in the current chunk goes to the work list. */
    method Feed()
      requires Valid() && stage.Recording? && held == []
      modifies this`chunk, this`uidx, this`uncompressed, this`pinned, this`stage
      ensures Valid() && View() == Pipeline.Apply(old(View()), Pipeline.Feed)
    {
      Pipeline.FeedIsCorrect(View());
      QueueChunk(defaultSize);
      pinned, stage := {}, Pipeline.Queued;
    }

    /** The rest of finalize(): raise the flags and join the threads, each in turn. */
    method Advance(ghost step: Pipeline.Step)
      requires Valid() && step in {Pipeline.SetDoneFeeding, Pipeline.JoinCompressor, Pipeline.JoinSerializer}
      requires Pipeline.Enabled(View(), step)
      modifies this`stage
      ensures Valid() && View() == Pipeline.Apply(old(View()), step)
      ensures stage == Pipeline.Closed ==> uncompressed == [] && compressed == []
    {
      stage := if stage.Queued? then Pipeline.DoneFeeding
               else if stage.DoneFeeding? then Pipeline.DoneCompressing
               else Pipeline.Closed;
      PointersSurvive();
    }

    method CompressorTake()
      requires Valid() && Pipeline.Enabled(View(), Pipeline.CompressorTake)
      modifies this`compressing, this`uncompressed
      ensures Valid() && View() == Pipeline.Apply(old(View()), Pipeline.CompressorTake)
    {
      Pipeline.CompressorStepIsCorrect(View(), Pipeline.CompressorTake);
      compressing := Some(uncompressed[|uncompressed| - 1]);
      uncompressed := uncompressed[..|uncompressed| - 1];
      PointersSurvive();
    }

    /** `payload` is what the compression library made of the taken chunk. */
    method CompressorPush(payload: seq<byte>)
      requires Valid() && Pipeline.Enabled(View(), Pipeline.CompressorPush(payload))
      modifies this`compressing, this`compressed, this`filed
      ensures Valid() && View() == Pipeline.Apply(old(View()), Pipeline.CompressorPush(payload))
    {
      Pipeline.CompressorStepIsCorrect(View(), Pipeline.CompressorPush(payload));
      if |compressing.value| > 0 {
        compressed := [Frame(compressing.value, payload)] + compressed;
        filed := filed + compressing.value;
      }
      compressing := None;
      PointersSurvive();
    }

    method SerializerTake()
      requires Valid() && Pipeline.Enabled(View(), Pipeline.SerializerTake)
      modifies this`writing, this`compressed
      ensures Valid() && View() == Pipeline.Apply(old(View()), Pipeline.SerializerTake)
    {
      writing := Some(compressed[|compressed| - 1]);
      compressed := compressed[..|compressed| - 1];
      PointersSurvive();
    }

    method SerializerWrite()
      requires Valid() && Pipeline.Enabled(View(), Pipeline.SerializerWrite)
      modifies this`writing, this`disk
      ensures Valid() && View() == Pipeline.Apply(old(View()), Pipeline.SerializerWrite)
    {
      disk := disk + writing.value;
      writing := None;
      PointersSurvive();
    }

    method WorkerExit(compressor: bool)
      requires Valid()
      requires Pipeline.Enabled(View(), if compressor then Pipeline.CompressorExit else Pipeline.SerializerExit)
      modifies this`compressorExited, this`serializerExited
      ensures Valid()
      ensures View() == Pipeline.Apply(old(View()),
                                       if compressor then Pipeline.CompressorExit else Pipeline.SerializerExit)
    {
      if compressor {
        compressorExited := true;
      } else {
        serializerExited := true;
      }
      PointersSurvive();
    }
  }
}
