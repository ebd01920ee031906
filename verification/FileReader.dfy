/** file_reader as an object, with frames decompressed on demand by the reading thread itself
    (src/filereader.h:26-128, src/filereader.cpp:190-228). */
module FileReading {
  import opened Bytes
  import opened TraceFile
  import opened PatchCodec

  class FileReader {
    const codec: Codec
    var disk: seq<byte>         // from compressed_data on
    var data: seq<byte>         // uncompressed_data up to write_position
    var readPosition: nat
    var lastChunkSize: nat

    /** Nothing is cut short, and the reader is not ahead of the writer. */
    predicate Valid()
      reads this
    {
      Decode(codec, disk).Some? && readPosition <= |data|
    }

    /** All that can still be read. */
    function Future(): seq<byte>
      requires Valid()
      reads this
    {
      data[readPosition..] + Decode(codec, disk).value
    }

    constructor (codec: Codec, disk: seq<byte>)
      requires Decode(codec, disk).Some?
      ensures Valid() && Future() == Decode(codec, disk).value
    {
      this.codec, this.disk, data, readPosition, lastChunkSize := codec, disk, [], 0, 0;
      new;
      Unit(Decode(codec, disk).value);
    }

    method DecompressChunk()
      requires Valid() && disk != []
      modifies this`disk, this`data, this`lastChunkSize
      ensures Valid() && Future() == old(Future())
      ensures |disk| < |old(disk)| && |data| == |old(data)| + lastChunkSize
    {
      var chunk := FirstChunk(codec, disk);
      ghost var rest := Decode(codec, disk[FrameLength(disk).value..]).value;
      disk := disk[FrameLength(disk).value..];
      Assoc(data[readPosition..], chunk, rest);
      assert (data + chunk)[readPosition..] == data[readPosition..] + chunk;
      data := data + chunk;
      lastChunkSize := |chunk|;
    }

    method CheckSpace(size: nat)
      requires Valid() && size <= |Future()|
      modifies this`disk, this`data, this`lastChunkSize
      ensures Valid() && Future() == old(Future()) && size <= |data| - readPosition
    {
      while size > |data| - readPosition
        invariant Valid() && Future() == old(Future())
        decreases |disk|
      {
        assert Decode(codec, []) == Some([]);
        DecompressChunk();
      }
    }

    /** read_array and read_value: the next n bytes of the stream. */
    method ReadArray(n: nat) returns (s: seq<byte>)
      requires Valid() && n <= |Future()|
      modifies this
      ensures Valid() && |s| == n
      ensures old(Future()) == s + Future()
    {
      CheckSpace(n);
      s := data[readPosition..readPosition + n];
      ghost var rest := data[readPosition + n..];
      assert data[readPosition..] == s + rest;
      Assoc(s, rest, Decode(codec, disk).value);
      readPosition := readPosition + n;
    }

    method ReadUint32() returns (v: nat)
      requires Valid() && 4 <= |Future()|
      modifies this
      ensures Valid() && |old(Future())| == 4 + |Future()|
      ensures v == Field(old(Future()), 0, 4) && Future() == old(Future())[4..]
    {
      ghost var before := Future();
      var s := ReadArray(4);
      ConcatParts(s, Future());
      assert before[0..4] == s;
      v := FromLittleEndian(s);
    }

    /** One record: offset, size, payload. */
    method ReadRecord() returns (change: Change)
      requires Valid() && 8 <= |Future()| && 8 + Field(Future(), 4, 4) <= |Future()|
      modifies this
      ensures Valid() && |change.data| == Field(old(Future()), 4, 4)
      ensures change == Change(Field(old(Future()), 0, 4), old(Future())[8..8 + |change.data|])
      ensures Future() == old(Future())[8 + |change.data|..]
    {
      ghost var before := Future();
      var offset := ReadUint32();
      assert before[4..][0..4] == before[4..8];
      var size := ReadUint32();
      assert before[4..][4..] == before[8..];
      assert Future() == before[8..];
      var data := ReadArray(size);
      ConcatParts(data, Future());
      SliceOfRest(before, 8, size);
      change := Change(offset, data);
    }

    /** One round of read_patch on the stream: the next change, or the terminator. */
    method NextChange(ghost todo: seq<Change>, ghost consumed: nat, ghost goal: seq<byte>)
        returns (change: Change, more: bool)
      requires Valid() && Awaiting(Future(), todo, consumed, goal)
      modifies this
      ensures Valid() && |Future()| < |old(Future())| && (more <==> todo != [])
      ensures more ==> change == todo[0] && consumed >= 8 + |change.data|
      ensures more ==> Awaiting(Future(), todo[1..], consumed - 8 - |change.data|, goal)
      ensures !more ==> change == Change(0, []) && Future() == goal
    {
      ParseStep(Future(), todo, consumed);
      change := ReadRecord();
      more := !(change.skip == 0 && |change.data| == 0);
    }

    /** One round of read_patch: the next change taken from the stream and applied at its place. */
    method PatchRound(buf: array?<byte>, position: nat, ghost todo: seq<Change>, ghost rest: seq<Change>,
                      ghost consumed: nat, ghost goal: seq<byte>, ghost target: seq<byte>)
        returns (end: nat, size: nat, more: bool, ghost left: nat)
      requires Valid() && Awaiting(Future(), todo, consumed, goal)
      requires rest == if todo == [] then [] else todo[1..]
      requires buf != null ==> Remaining(buf[..], todo, position, target)
      modifies this, buf
      ensures Valid() && |Future()| < |old(Future())| && (more <==> todo != [])
      ensures if more then Awaiting(Future(), rest, left, goal) else Future() == goal
      ensures buf != null ==> Remaining(buf[..], rest, end, target)
      ensures size == if more then |todo[0].data| else 0
    {
      ghost var content := if buf != null then buf[..] else [];
      var change;
      change, more := NextChange(todo, consumed, goal);
      left := if more then consumed - 8 - |change.data| else 0;
      end, size := position + change.skip + |change.data|, |change.data|;
      if buf != null {
        assert buf[..] == content;
        PatchBytes(buf, position + change.skip, end, change.data, todo, rest, position, target);
      }
    }

    /** read_patch: applies the patch at the front of the stream and consumes exactly that. `buf` may be
        null, then the patch is only skipped. The 64-bit count is returned in 32 bits. */
    method ReadPatch(buf: array?<byte>, maxsize: nat) returns (changed: nat)
      requires Valid() && Parse(Future()).Some?
      requires maxsize == 0 || Extent(Parse(Future()).value.changes, 0) <= maxsize
      requires buf != null ==> Extent(Parse(Future()).value.changes, 0) <= buf.Length
      modifies this, buf
      ensures Valid() && Future() == old(Future())[Parse(old(Future())).value.consumed..]
      ensures buf != null ==> buf[..] == Patched(old(buf[..]), Parse(old(Future())).value.changes, 0)
      ensures changed == TotalSize(Parse(old(Future())).value.changes) % U32_LIMIT
    {
      ghost var all := Parse(Future()).value.changes;
      ghost var left: nat := Parse(Future()).value.consumed;
      ghost var goal, target := Future()[left..], if buf != null then Patched(buf[..], all, 0) else [];
      ghost var todo := all;
      var position: nat, total: nat, more := 0, 0, true;
      while more
        invariant Valid()
        invariant if more then Awaiting(Future(), todo, left, goal) else Future() == goal && todo == []
        invariant total + TotalSize(todo) == TotalSize(all)
        invariant buf != null ==> Remaining(buf[..], todo, position, target)
        decreases more, |Future()|
      {
        ghost var rest := if todo == [] then [] else todo[1..];
        var size;
        position, size, more, left := PatchRound(buf, position, todo, rest, left, goal, target);
        total := total + size;
        todo := rest;
      }
      changed := total % U32_LIMIT;
    }
  }

  ghost predicate Awaiting(s: seq<byte>, todo: seq<Change>, consumed: nat, goal: seq<byte>) {
    Parse(s) == Some(Parsed(todo, consumed)) && s[consumed..] == goal
  }

  /** Applying what is left of the patch, from `from` on, would give `target`. */
  ghost predicate Remaining(buf: seq<byte>, todo: seq<Change>, from: nat, target: seq<byte>) {
    Extent(todo, from) <= |buf| && Patched(buf, todo, from) == target
  }

  /** One payload of a patch, copied into place; `todo` is what the patch still holds. */
  method PatchBytes(buf: array<byte>, at: nat, ghost end: nat, data: seq<byte>, ghost todo: seq<Change>, ghost rest: seq<Change>,
                    ghost from: nat, ghost target: seq<byte>)
    requires end == at + |data|
    requires if todo == [] then data == [] && at == from else at == from + todo[0].skip && data == todo[0].data
    requires rest == (if todo == [] then [] else todo[1..]) && Remaining(buf[..], todo, from, target)
    modifies buf
    ensures Remaining(buf[..], rest, end, target)
  {
    ghost var was := buf[..];
    if |data| > 0 {
      forall k | 0 <= k < |data| {
        buf[at + k] := data[k];
      }
    }
    if todo != [] {
      assert buf[..] == Splice(was, at, data);
    } else {
      assert buf[..] == was;
    }
  }

  /** What a successful parse says about the first record, and about what follows it. */
  lemma ParseStep(s: seq<byte>, changes: seq<Change>, consumed: nat)
    requires Parse(s) == Some(Parsed(changes, consumed))
    ensures 8 <= |s| && 8 + Field(s, 4, 4) <= |s|
    ensures var skip, size := Field(s, 0, 4), Field(s, 4, 4); var rest := s[8 + size..];
      if skip == 0 && size == 0 then changes == [] && consumed == 8
      else (changes != [] && changes[0] == Change(skip, s[8..8 + size]) && consumed >= 8 + size
        && Parse(rest) == Some(Parsed(changes[1..], consumed - 8 - size))
        && rest[consumed - 8 - size..] == s[consumed..])
  {
    var size := Field(s, 4, 4);
    if !(Field(s, 0, 4) == 0 && size == 0) {
      SliceOfRest(s, 8 + size, consumed - 8 - size);
    }
  }
}
