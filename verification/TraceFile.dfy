/** The on-disk form of one thread's stream: a sequence of self-describing compressed frames
    (src/filewriter.cpp, compress_chunk; src/filereader.cpp, decompress_chunk). */
module TraceFile {
  import opened Bytes

  /** A compression library seen from outside. `packs` tells which bytes it may put behind the header of a
      chunk, `unpack` reads such a payload back given the uncompressed size found in that header. */
  datatype Codec = Codec(packs: (seq<byte>, seq<byte>) -> bool, unpack: (seq<byte>, nat) -> seq<byte>)

  ghost predicate RestoresChunk(codec: Codec, chunk: seq<byte>, payload: seq<byte>) {
    |payload| < U64_LIMIT && codec.unpack(payload, |chunk|) == chunk
  }

  ghost predicate Packable(codec: Codec, chunk: seq<byte>) {
    exists payload :: codec.packs(chunk, payload)
  }

  /** The assumption on the library: buffers of up to 2^32 bytes can be packed, and survive the round trip. */
  ghost predicate Lawful(codec: Codec) {
    && (forall chunk: seq<byte> | |chunk| < U32_LIMIT :: Packable(codec, chunk))
    && (forall chunk: seq<byte>, payload: seq<byte> | |chunk| < U32_LIMIT && codec.packs(chunk, payload) ::
          RestoresChunk(codec, chunk, payload))
  }

  /** Header of stored and original size, then the payload. */
  function Frame(chunk: seq<byte>, payload: seq<byte>): seq<byte> {
    LittleEndian(|payload|, 8) + LittleEndian(|chunk|, 8) + payload
  }

  function Field(s: seq<byte>, at: nat, n: nat): nat
    requires at + n <= |s|
  {
    FromLittleEndian(s[at..at + n])
  }

  /** The length of the first frame of a non-empty file, header included; None when it is cut short. */
  function FrameLength(disk: seq<byte>): (n: Option<nat>)
    ensures n.Some? ==> 16 <= n.value <= |disk|
  {
    if |disk| < 16 then None
    else if 16 + Field(disk, 0, 8) > |disk| then None
    else Some(16 + Field(disk, 0, 8))
  }

  function FirstChunk(codec: Codec, disk: seq<byte>): seq<byte>
    requires FrameLength(disk).Some?
  {
    codec.unpack(disk[16..FrameLength(disk).value], Field(disk, 8, 8))
  }

  /** The bytes a reader recovers from a sequence of frames; None when the last frame is cut short. */
  function Decode(codec: Codec, disk: seq<byte>): Option<seq<byte>>
    decreases |disk|
  {
    if disk == [] then Some([])
    else
      var n := FrameLength(disk);
      if n.None? then None
      else
        var rest := Decode(codec, disk[n.value..]);
        if rest.None? then None else Some(FirstChunk(codec, disk) + rest.value)
  }

  /** The two header fields of `a + b + rest`, for 8-byte encodings a and b. */
  lemma FieldsReadBack(m: nat, n: nat, rest: seq<byte>)
    requires m < U64_LIMIT && n < U64_LIMIT
    ensures var s := LittleEndian(m, 8) + LittleEndian(n, 8) + rest;
      Field(s, 0, 8) == m && Field(s, 8, 8) == n && s[16..] == rest
  {
    var a, b := LittleEndian(m, 8), LittleEndian(n, 8);
    var s := a + b + rest;
    assert s[0..8] == a;
    assert s[8..16] == b;
    Pow256Values();
    DecodeEncode(m, 8);
    DecodeEncode(n, 8);
  }

  /** In front of the payload: its size, then that of the chunk, in eight bytes each. */
  lemma FrameLayout(chunk: seq<byte>, payload: seq<byte>)
    requires |chunk| < U64_LIMIT && |payload| < U64_LIMIT
    ensures var f := Frame(chunk, payload);
      |f| == 16 + |payload| && Field(f, 0, 8) == |payload| && Field(f, 8, 8) == |chunk| && f[16..] == payload
  {
    FieldsReadBack(|payload|, |chunk|, payload);
  }

  /** A file whose header fields are right and are followed by the packed chunk reads back that chunk. */
  lemma HeaderGivesChunk(codec: Codec, chunk: seq<byte>, payload: seq<byte>, rest: seq<byte>, disk: seq<byte>)
    requires RestoresChunk(codec, chunk, payload)
    requires |disk| == 16 + |payload| + |rest|
    requires Field(disk, 0, 8) == |payload| && Field(disk, 8, 8) == |chunk|
    requires disk[16..] == payload + rest
    ensures FrameLength(disk) == Some(16 + |payload|)
    ensures FirstChunk(codec, disk) == chunk
    ensures disk[16 + |payload|..] == rest
  {
    ConcatParts(payload, rest);
    SliceOfRest(disk, 16, |payload|);
  }

  /** The first frame of `frame + rest` is read back as its chunk, and what follows it is `rest`. */
  lemma FrameReadsBack(codec: Codec, chunk: seq<byte>, payload: seq<byte>, rest: seq<byte>)
    requires Lawful(codec) && |chunk| < U32_LIMIT && codec.packs(chunk, payload)
    ensures FrameLength(Frame(chunk, payload) + rest) == Some(|Frame(chunk, payload)|)
    ensures FirstChunk(codec, Frame(chunk, payload) + rest) == chunk
    ensures (Frame(chunk, payload) + rest)[|Frame(chunk, payload)|..] == rest
  {
    assert RestoresChunk(codec, chunk, payload);
    var m, n := |payload|, |chunk|;
    var disk := Frame(chunk, payload) + rest;
    assert disk == LittleEndian(m, 8) + LittleEndian(n, 8) + (payload + rest) by {
      Assoc(LittleEndian(m, 8) + LittleEndian(n, 8), payload, rest);
    }
    assert Field(disk, 0, 8) == m && Field(disk, 8, 8) == n && disk[16..] == payload + rest by {
      FieldsReadBack(m, n, payload + rest);
    }
    HeaderGivesChunk(codec, chunk, payload, rest, disk);
  }

  /** Bytes after the first frame do not change how that frame is read. */
  lemma FirstFrameIsPrefix(codec: Codec, disk: seq<byte>, more: seq<byte>)
    requires FrameLength(disk).Some?
    ensures FrameLength(disk + more) == FrameLength(disk)
    ensures FirstChunk(codec, disk + more) == FirstChunk(codec, disk)
    ensures (disk + more)[FrameLength(disk).value..] == disk[FrameLength(disk).value..] + more
  {
    var n := FrameLength(disk).value;
    assert (disk + more)[0..8] == disk[0..8];
    assert (disk + more)[8..16] == disk[8..16];
    assert (disk + more)[16..n] == disk[16..n];
  }

  /** Appending a frame to a well-formed file appends exactly its chunk to what the file decodes to. */
  lemma {:induction false} DecodeAppend(codec: Codec, disk: seq<byte>, chunk: seq<byte>, payload: seq<byte>)
    requires Lawful(codec) && |chunk| < U32_LIMIT && codec.packs(chunk, payload)
    requires Decode(codec, disk).Some?
    ensures Decode(codec, disk + Frame(chunk, payload)) == Some(Decode(codec, disk).value + chunk)
    decreases |disk|
  {
    var frame := Frame(chunk, payload);
    if disk == [] {
      FrameReadsBack(codec, chunk, payload, []);
      Unit(frame);
      Unit(chunk);
    } else {
      var n := FrameLength(disk).value;
      FirstFrameIsPrefix(codec, disk, frame);
      DecodeAppend(codec, disk[n..], chunk, payload);
      Assoc(FirstChunk(codec, disk), Decode(codec, disk[n..]).value, chunk);
    }
  }

  /** With compression switched off the stored length already counts the 16 header bytes
      (src/filewriter.cpp:266, 291-300), so every payload ends in 16 bytes of no meaning, whatever they are. */
  function RawCodec(): Codec {
    Codec(
      (chunk: seq<byte>, payload: seq<byte>) => |payload| == |chunk| + 16 && payload[..|chunk|] == chunk,
      (payload: seq<byte>, size: nat) => if size <= |payload| then payload[..size] else payload)
  }

  lemma RawCodecIsLawful()
    ensures Lawful(RawCodec())
  {
    forall chunk: seq<byte> | |chunk| < U32_LIMIT ensures Packable(RawCodec(), chunk) {
      var payload := chunk + LittleEndian(0, 16);
      assert payload[..|chunk|] == chunk;
      assert RawCodec().packs(chunk, payload);
    }
  }
}
