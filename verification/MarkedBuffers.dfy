/** A buffer with marked device addresses, descriptors and shader group handles: rewritten for the replay device when
    the memory is updated, and taken back to its captured form when its checksum is asserted
    (src/hardcode_read.cpp:4312-4456, 4650-4727). */
module MarkedBuffers {
  import opened Bytes
  import opened AddressRemapping
  import opened MarkedAddresses
  import opened MarkedChecksum
  import Descriptors = DescriptorRewrites
  import Groups = GroupHandles

  /** The marking types; Metadata are descriptor sizes and offsets. */
  datatype Kind = Address(onStructure: bool) | Descriptor(descriptorType: nat) | Metadata | GroupHandle

  datatype Mark = Mark(offset: nat, kind: Kind)

  /** What replay knows of its device: addresses, descriptors by type and size, and pipelines. */
  datatype Device = Device(
    addresses: World, rewrites: seq<Descriptors.Rewrite>, descriptorSize: nat -> nat, pipelines: seq<Groups.Pipeline>)

  predicate ValidDevice(d: Device) {
    ValidWorld(d.addresses) && Descriptors.Sized(d.rewrites, d.descriptorSize)
  }

  /** The bytes from the mark on; none when it lies outside. */
  function From(data: seq<byte>, m: Mark): seq<byte> {
    if m.offset <= |data| then data[m.offset..] else []
  }

  // ---- translation

  /** What becomes of the bytes from the mark on. */
  ghost function Step(d: Device, kind: Kind, s: seq<byte>): (r: seq<byte>)
    requires ValidDevice(d)
    ensures |r| == |s|
  {
    match kind
    case Address(onStructure) =>
      if |s| < ADDRESS_SIZE then s
      else
        var field := s[..ADDRESS_SIZE];
        LittleEndian(Forward(Side(d.addresses, onStructure), FromLittleEndian(field)), |field|) + s[ADDRESS_SIZE..]
    case Descriptor(descriptorType) =>
      var bytes := Descriptors.Replacement(d.rewrites, descriptorType, s);
      bytes + s[|bytes|..]
    case Metadata => s
    case GroupHandle =>
      if |s| < Groups.HANDLE_SIZE then s
      else
        var handle := Groups.Exchanged(d.pipelines, false, s[..Groups.HANDLE_SIZE]);
        if handle.None? then s else handle.value + s[Groups.HANDLE_SIZE..]
  }

  /** No assertion fails and nothing aborts during replay. */
  ghost predicate Resolves(d: Device, kind: Kind, s: seq<byte>)
    requires ValidDevice(d)
  {
    match kind
    case Address(onStructure) =>
      |s| >= ADDRESS_SIZE && Forward(Side(d.addresses, onStructure), FromLittleEndian(s[..ADDRESS_SIZE])) != 0
    case GroupHandle =>
      |s| >= Groups.HANDLE_SIZE && Groups.Exchanged(d.pipelines, false, s[..Groups.HANDLE_SIZE]).Some?
    case _ => true
  }

  /** What the extension demands of a mark, and the translation asserts. */
  predicate Fits(m: Mark, size: nat) {
    match m.kind
    case Address(_) => m.offset + ADDRESS_SIZE <= size
    case GroupHandle => m.offset + Groups.HANDLE_SIZE <= size
    case _ => m.offset <= size
  }

  predicate AllFit(marks: seq<Mark>, size: nat) {
    forall m | m in marks :: Fits(m, size)
  }

  ghost function Rewritten(d: Device, data: seq<byte>, m: Mark): (r: seq<byte>)
    requires ValidDevice(d) && Fits(m, |data|)
    ensures |r| == |data|
  {
    data[..m.offset] + Step(d, m.kind, data[m.offset..])
  }

  /** The marks applied one after the other. */
  ghost function Translated(d: Device, data: seq<byte>, marks: seq<Mark>): (r: seq<byte>)
    requires ValidDevice(d) && AllFit(marks, |data|)
    ensures |r| == |data|
  {
    if marks == [] then data
    else Rewritten(d, Translated(d, data, marks[..|marks| - 1]), marks[|marks| - 1])
  }

  /** Every mark resolves at its turn. */
  ghost predicate AllResolve(d: Device, data: seq<byte>, marks: seq<Mark>)
    requires ValidDevice(d) && AllFit(marks, |data|)
  {
    marks == []
    || (AllResolve(d, data, marks[..|marks| - 1])
        && Resolves(d, marks[|marks| - 1].kind, From(Translated(d, data, marks[..|marks| - 1]), marks[|marks| - 1])))
  }

  lemma TranslatedStep(d: Device, data: seq<byte>, marks: seq<Mark>, i: nat)
    requires ValidDevice(d) && AllFit(marks, |data|) && i < |marks|
    ensures AllFit(marks[..i], |data|) && Fits(marks[i], |data|) && AllFit(marks[..i + 1], |data|)
    ensures Translated(d, data, marks[..i + 1]) == Rewritten(d, Translated(d, data, marks[..i]), marks[i])
    ensures AllResolve(d, data, marks[..i + 1])
       <==> AllResolve(d, data, marks[..i])
            && Resolves(d, marks[i].kind, From(Translated(d, data, marks[..i]), marks[i]))
  {
    assert marks[..i + 1][..i] == marks[..i] && marks[..i + 1][i] == marks[i] && marks[i] in marks;
  }

  lemma {:induction false} FailureStays(d: Device, data: seq<byte>, marks: seq<Mark>, i: nat)
    requires ValidDevice(d) && AllFit(marks, |data|) && i <= |marks| && AllFit(marks[..i], |data|)
    requires !AllResolve(d, data, marks[..i])
    ensures !AllResolve(d, data, marks)
    decreases |marks| - i
  {
    if i == |marks| {
      assert marks[..i] == marks;
    } else {
      TranslatedStep(d, data, marks, i);
      FailureStays(d, data, marks, i + 1);
    }
  }

  /** translate_marked_offsets during replay: it gets through exactly when every mark resolves at its turn. */
  method TranslateMarkedOffsets(d: Device, buffers: AddressRemapper, structures: AddressRemapper, data: array<byte>,
                                marks: seq<Mark>)
    returns (resolved: bool)
    requires ValidDevice(d) && AllFit(marks, data.Length)
    requires buffers.remapping == d.addresses.buffers.entries && structures.remapping == d.addresses.structures.entries
    modifies data
    ensures resolved <==> AllResolve(d, old(data[..]), marks)
    ensures resolved ==> data[..] == Translated(d, old(data[..]), marks)
  {
    ghost var captured := data[..];
    for i := 0 to |marks|
      invariant AllFit(marks[..i], data.Length)
      invariant data[..] == Translated(d, captured, marks[..i]) && AllResolve(d, captured, marks[..i])
    {
      TranslatedStep(d, captured, marks, i);
      resolved := TranslateMark(d, buffers, structures, data, marks[i]);
      if !resolved {
        FailureStays(d, captured, marks, i + 1);
        return;
      }
    }
    assert marks[..|marks|] == marks;
    resolved := true;
  }

  method TranslateMark(d: Device, buffers: AddressRemapper, structures: AddressRemapper, data: array<byte>, m: Mark)
    returns (resolved: bool)
    requires ValidDevice(d) && Fits(m, data.Length)
    requires buffers.remapping == d.addresses.buffers.entries && structures.remapping == d.addresses.structures.entries
    modifies data
    ensures resolved <==> Resolves(d, m.kind, From(old(data[..]), m))
    ensures resolved ==> data[..] == Rewritten(d, old(data[..]), m)
  {
    var rest := data[m.offset..];
    assert data[..][m.offset..] == rest;
    match m.kind {
      case Address(onStructure) =>
        var value := TranslateOne(d.addresses, buffers, structures, onStructure, FromLittleEndian(rest[..ADDRESS_SIZE]));
        CopyTo(data, m.offset, LittleEndian(value, ADDRESS_SIZE));
        resolved := value != 0;
      case Descriptor(descriptorType) =>
        var bytes := Descriptors.FindRewrite(d.rewrites, descriptorType, rest);
        CopyTo(data, m.offset, bytes);
        resolved := true;
      case Metadata =>
        resolved := true;
      case GroupHandle =>
        var handle := Groups.Exchange(d.pipelines, false, rest[..Groups.HANDLE_SIZE]);
        if handle.Some? {
          CopyTo(data, m.offset, handle.value);
        }
        resolved := handle.Some?;
    }
  }

  method CopyTo(data: array<byte>, at: nat, bytes: seq<byte>)
    requires at + |bytes| <= data.Length
    modifies data
    ensures data[..] == old(data[..at]) + (bytes + old(data[at..])[|bytes|..])
  {
    for i := 0 to |bytes|
      invariant forall k | 0 <= k < data.Length :: data[k] == if at <= k < at + i then bytes[k - at] else old(data[k])
    {
      data[at + i] := bytes[i];
    }
  }

  // ---- the checksum

  datatype Restoring = Abort | Leave | Put(bytes: seq<byte>)

  /** What the checksum takes for the bytes at a mark. */
  ghost function Restore(d: Device, kind: Kind, s: seq<byte>): (r: Restoring)
    requires ValidDevice(d)
    ensures r.Put? ==> 0 < |r.bytes| <= |s|
  {
    match kind
    case Address(onStructure) =>
      if |s| < ADDRESS_SIZE then Abort
      else
        var field := s[..ADDRESS_SIZE];
        var value := Restored(d.addresses, onStructure, FromLittleEndian(field));
        if value.None? then Abort else Put(LittleEndian(value.value, |field|))
    case Descriptor(descriptorType) =>
      if s == [] then Abort
      else
        (match Descriptors.OriginOf(d.rewrites, descriptorType, s)
         case Ambiguous => Abort
         case Unknown => Leave
         case Captured(bytes) => Put(bytes))
    case Metadata => Leave
    case GroupHandle =>
      if |s| < Groups.HANDLE_SIZE then Abort
      else
        var handle := Groups.Exchanged(d.pipelines, true, s[..Groups.HANDLE_SIZE]);
        if handle.None? then Abort else Put(handle.value)
  }

  ghost predicate Reversible(d: Device, data: seq<byte>, m: Mark)
    requires ValidDevice(d)
  {
    !Restore(d, m.kind, From(data, m)).Abort?
  }

  ghost predicate AllReversible(d: Device, data: seq<byte>, marks: seq<Mark>)
    requires ValidDevice(d)
  {
    forall m | m in marks :: Reversible(d, data, m)
  }

  /** The marking type as a span carries it along. */
  function TypeOf(kind: Kind): nat {
    match kind
    case Address(_) => 0
    case Descriptor(_) => 1
    case Metadata => 2
    case GroupHandle => 3
  }

  /** The stretch of the buffer that belongs to the mark, as the checksum takes it. */
  ghost function PartOf(d: Device, data: seq<byte>, m: Mark): Part
    requires ValidDevice(d)
  {
    var rest := From(data, m);
    match Restore(d, m.kind, rest)
    case Put(bytes) => Part(m.offset, bytes, TypeOf(m.kind), true)
    case _ => Part(m.offset, rest[..Min(Extent(d, m.kind), |rest|)], TypeOf(m.kind), false)
  }

  ghost function PartsOf(d: Device, data: seq<byte>, marks: seq<Mark>): (parts: seq<Part>)
    requires ValidDevice(d)
    ensures |parts| == |marks| && forall i | 0 <= i < |marks| :: parts[i] == PartOf(d, data, marks[i])
  {
    if marks == [] then [] else PartsOf(d, data, marks[..|marks| - 1]) + [PartOf(d, data, marks[|marks| - 1])]
  }

  ghost function MarkSpans(d: Device, data: seq<byte>, marks: seq<Mark>): seq<Span>
    requires ValidDevice(d)
  {
    SpansOf(PartsOf(d, data, marks))
  }

  lemma MarkSpansInRange(d: Device, data: seq<byte>, marks: seq<Mark>)
    requires ValidDevice(d)
    ensures InRange(MarkSpans(d, data, marks), |data|)
  {
    forall s | s in MarkSpans(d, data, marks) ensures s.bytes != [] && s.offset + |s.bytes| <= |data| {
      var i := PartOfSpan(PartsOf(d, data, marks), s);
    }
  }

  /** The bytes the checksum is taken over. */
  ghost function Reconstructed(d: Device, data: seq<byte>, marks: seq<Mark>): (r: seq<byte>)
    requires ValidDevice(d)
    ensures |r| == |data|
  {
    MarkSpansInRange(d, data, marks);
    Substituted(data, MarkSpans(d, data, marks))
  }

  /** checksum_marked_buffer_range; None stands for its aborts. */
  method ChecksumMarkedBufferRange(d: Device, data: seq<byte>, marks: seq<Mark>) returns (checksum: Option<nat>)
    requires ValidDevice(d)
    ensures checksum.Some? <==> AllReversible(d, data, marks) && Compatible(MarkSpans(d, data, marks))
    ensures checksum.Some? ==> checksum.value == Adler32(Reconstructed(d, data, marks))
  {
    var spans := ReverseMarks(d, data, marks);
    if spans.None? {
      return None;
    }
    MarkSpansInRange(d, data, marks);
    checksum := ChecksumSpliced(data, spans.value);
  }

  lemma OneMorePart(d: Device, data: seq<byte>, marks: seq<Mark>, i: nat)
    requires ValidDevice(d) && i < |marks|
    ensures PartsOf(d, data, marks[..i + 1]) == PartsOf(d, data, marks[..i]) + [PartOf(d, data, marks[i])]
    ensures AllReversible(d, data, marks[..i + 1]) <==> AllReversible(d, data, marks[..i]) && Reversible(d, data, marks[i])
    ensures AllReversible(d, data, marks) ==> Reversible(d, data, marks[i])
  {
    var front, more := marks[..i], marks[..i + 1];
    assert more[..i] == front && more == front + [marks[i]] && marks[i] in marks;
    assert forall m :: m in more <==> m in front || m == marks[i];
  }

  lemma OneMoreSpan(parts: seq<Part>, p: Part)
    ensures SpansOf(parts + [p])
         == SpansOf(parts) + (if p.replaced then [Span(p.offset, p.bytes, p.kind, |parts|)] else [])
  {
    assert (parts + [p])[..|parts|] == parts;
  }

  method ReverseMarks(d: Device, data: seq<byte>, marks: seq<Mark>) returns (spans: Option<seq<Span>>)
    requires ValidDevice(d)
    ensures spans.Some? <==> AllReversible(d, data, marks)
    ensures spans.Some? ==> spans.value == MarkSpans(d, data, marks)
  {
    var found: seq<Span> := [];
    for i := 0 to |marks|
      invariant AllReversible(d, data, marks[..i]) && found == MarkSpans(d, data, marks[..i])
    {
      OneMorePart(d, data, marks, i);
      OneMoreSpan(PartsOf(d, data, marks[..i]), PartOf(d, data, marks[i]));
      var more := ReverseMark(d, data, marks[i], i);
      if more.None? {
        return None;
      }
      found := found + more.value;
    }
    assert marks[..|marks|] == marks;
    spans := Some(found);
  }

  method ReverseMark(d: Device, data: seq<byte>, m: Mark, index: nat) returns (spans: Option<seq<Span>>)
    requires ValidDevice(d)
    ensures spans.Some? <==> Reversible(d, data, m)
    ensures spans.Some? ==> var p := PartOf(d, data, m);
      spans.value == if p.replaced then [Span(p.offset, p.bytes, p.kind, index)] else []
  {
    var rest := From(data, m);
    match m.kind {
      case Address(onStructure) =>
        if |rest| < ADDRESS_SIZE {
          return None;
        }
        var current := FromLittleEndian(rest[..ADDRESS_SIZE]);
        var capture := ReverseTranslate(d.addresses, onStructure, current);
        if current != 0 && capture.None? {
          return None;
        }
        var value := if current == 0 then current else capture.value;
        spans := Some([Span(m.offset, LittleEndian(value, ADDRESS_SIZE), TypeOf(m.kind), index)]);
      case Descriptor(descriptorType) =>
        if rest == [] {
          return None;
        }
        var origin := Descriptors.FindOrigin(d.rewrites, descriptorType, rest);
        if origin == Descriptors.Ambiguous {
          return None;
        }
        spans := Some(if origin.Unknown? then [] else [Span(m.offset, origin.bytes, TypeOf(m.kind), index)]);
      case Metadata =>
        spans := Some([]);
      case GroupHandle =>
        if |rest| < Groups.HANDLE_SIZE {
          return None;
        }
        var handle := Groups.Exchange(d.pipelines, true, rest[..Groups.HANDLE_SIZE]);
        if handle.None? {
          return None;
        }
        spans := Some([Span(m.offset, handle.value, TypeOf(m.kind), index)]);
    }
  }

  // ---- a mark and its own bytes

  function Extent(d: Device, kind: Kind): nat {
    match kind
    case Address(_) => ADDRESS_SIZE
    case Descriptor(descriptorType) => d.descriptorSize(descriptorType)
    case Metadata => 0
    case GroupHandle => Groups.HANDLE_SIZE
  }

  /** Addresses have 64 bits, and descriptors the sizes of their types. */
  ghost predicate FittingDevice(d: Device) {
    && FittingWorld(d.addresses) && Descriptors.Sized(d.rewrites, d.descriptorSize)
    && forall t: nat :: d.descriptorSize(t) > 0
  }

  /** Moreover, no two objects meet. */
  ghost predicate CoherentDevice(d: Device) {
    FittingDevice(d) && CoherentWorld(d.addresses)
  }

  /** The mark lies in the buffer as a whole. */
  predicate Held(d: Device, m: Mark, size: nat) {
    m.offset + Extent(d, m.kind) <= size
  }

  predicate AllHeld(d: Device, marks: seq<Mark>, size: nat) {
    forall m | m in marks :: Held(d, m, size)
  }

  predicate Within(d: Device, m: Mark, k: nat) {
    m.offset <= k < m.offset + Extent(d, m.kind)
  }

  function Slice(d: Device, data: seq<byte>, m: Mark): (s: seq<byte>)
    requires Held(d, m, |data|)
    ensures |s| == Extent(d, m.kind)
  {
    data[m.offset..m.offset + Extent(d, m.kind)]
  }

  /** Translation and checksum look at the mark's own bytes only. */
  lemma StepIsLocal(d: Device, kind: Kind, s: seq<byte>, n: nat)
    requires FittingDevice(d) && n == Extent(d, kind) <= |s|
    ensures Step(d, kind, s) == Step(d, kind, s[..n]) + s[n..]
    ensures Resolves(d, kind, s) == Resolves(d, kind, s[..n])
  {
    match kind
    case Address(_) => assert s[..n][..n] == s[..n];
    case Descriptor(descriptorType) =>
      Descriptors.ReplacementIsLocal(d.rewrites, d.descriptorSize, descriptorType, s, n);
    case Metadata =>
    case GroupHandle => assert s[..n][..n] == s[..n];
  }

  lemma RestoreIsLocal(d: Device, kind: Kind, s: seq<byte>, n: nat)
    requires FittingDevice(d) && n == Extent(d, kind) <= |s|
    ensures Restore(d, kind, s) == Restore(d, kind, s[..n])
    ensures Restore(d, kind, s).Put? ==> |Restore(d, kind, s).bytes| == n
  {
    match kind
    case Address(_) => assert s[..n][..n] == s[..n];
    case Descriptor(descriptorType) =>
      Descriptors.OriginIsLocal(d.rewrites, d.descriptorSize, descriptorType, s, n);
    case Metadata =>
    case GroupHandle => assert s[..n][..n] == s[..n];
  }

  lemma FromIsSlice(d: Device, data: seq<byte>, m: Mark, n: nat)
    requires Held(d, m, |data|) && n == Extent(d, m.kind)
    ensures n <= |From(data, m)| && From(data, m)[..n] == Slice(d, data, m)
  {}

  lemma RewrittenAt(d: Device, data: seq<byte>, m: Mark)
    requires FittingDevice(d) && Held(d, m, |data|)
    ensures Fits(m, |data|) && Slice(d, Rewritten(d, data, m), m) == Step(d, m.kind, Slice(d, data, m))
    ensures forall k | 0 <= k < |data| && !Within(d, m, k) :: Rewritten(d, data, m)[k] == data[k]
  {
    var n := Extent(d, m.kind);
    FromIsSlice(d, data, m, n);
    StepIsLocal(d, m.kind, From(data, m), n);
    FrontReplaced(data, m.offset, n, Step(d, m.kind, Slice(d, data, m)));
  }

  lemma FrontReplaced(data: seq<byte>, at: nat, n: nat, bytes: seq<byte>)
    requires at + n <= |data| && |bytes| == n
    ensures var r := data[..at] + (bytes + data[at..][n..]);
      |r| == |data| && r[at..at + n] == bytes && forall k | 0 <= k < |data| && !(at <= k < at + n) :: r[k] == data[k]
  {}

  ghost function StepTimes(d: Device, kind: Kind, s: seq<byte>, n: nat): (r: seq<byte>)
    requires ValidDevice(d)
    ensures |r| == |s|
  {
    if n == 0 then s else Step(d, kind, StepTimes(d, kind, s, n - 1))
  }

  // ---- many marks

  predicate Disjoint(d: Device, a: Mark, b: Mark) {
    || Extent(d, a.kind) == 0 || Extent(d, b.kind) == 0
    || a.offset + Extent(d, a.kind) <= b.offset || b.offset + Extent(d, b.kind) <= a.offset
  }

  /** Marks may repeat, but must not otherwise meet. */
  predicate ApartOrSame(d: Device, marks: seq<Mark>) {
    forall a, b | a in marks && b in marks :: a == b || Disjoint(d, a, b)
  }

  function Times(marks: seq<Mark>, m: Mark): nat {
    multiset(marks)[m]
  }

  /** The mark holds its captured bytes, translated n times. */
  ghost predicate Shows(d: Device, captured: seq<byte>, m: Mark, n: nat, r: seq<byte>)
    requires ValidDevice(d)
  {
    && Held(d, m, |captured|) && |r| == |captured|
    && Slice(d, r, m) == StepTimes(d, m.kind, Slice(d, captured, m), n)
  }

  lemma RewrittenShows(d: Device, captured: seq<byte>, m: Mark, n: nat, before: seq<byte>)
    requires FittingDevice(d) && Shows(d, captured, m, n, before)
    ensures Fits(m, |before|) && Shows(d, captured, m, n + 1, Rewritten(d, before, m))
  {
    RewrittenAt(d, before, m);
  }

  lemma StillShows(d: Device, captured: seq<byte>, m: Mark, n: nat, before: seq<byte>, last: Mark, after: seq<byte>)
    requires ValidDevice(d) && Shows(d, captured, m, n, before) && Disjoint(d, last, m)
    requires |after| == |before| && forall k | 0 <= k < |before| && !Within(d, last, k) :: after[k] == before[k]
    ensures Shows(d, captured, m, n, after)
  {
    assert Slice(d, after, m) == Slice(d, before, m);
  }

  /** Every mark is translated as often as it is listed, and nothing else changes. */
  ghost predicate OnlyMarksChanged(d: Device, captured: seq<byte>, marks: seq<Mark>, r: seq<byte>)
    requires ValidDevice(d)
  {
    && |r| == |captured|
    && (forall k | 0 <= k < |captured| && (forall m | m in marks :: !Within(d, m, k)) :: r[k] == captured[k])
    && (forall m | m in marks :: Shows(d, captured, m, Times(marks, m), r))
  }

  lemma HeldFits(d: Device, marks: seq<Mark>, size: nat)
    requires FittingDevice(d) && AllHeld(d, marks, size)
    ensures AllFit(marks, size)
  {}

  /** Marks that repeat or lie apart do not disturb each other, nor anything around them. */
  lemma {:induction false} TranslatedAt(d: Device, captured: seq<byte>, marks: seq<Mark>)
    requires FittingDevice(d) && AllHeld(d, marks, |captured|) && ApartOrSame(d, marks)
    ensures AllFit(marks, |captured|) && OnlyMarksChanged(d, captured, marks, Translated(d, captured, marks))
    decreases |marks|
  {
    HeldFits(d, marks, |captured|);
    if marks != [] {
      var n := |marks| - 1;
      var front, last := marks[..n], marks[n];
      FrontAndLast(marks, n);
      TranslatedAt(d, captured, front);
      var before := Translated(d, captured, front);
      LastAfter(d, captured, front, last, before);
      OneMoreMark(d, captured, front, last, before, Rewritten(d, before, last));
    }
  }

  lemma FrontAndLast(marks: seq<Mark>, n: nat)
    requires n + 1 == |marks|
    ensures marks == marks[..n] + [marks[n]] && forall m :: m in marks <==> m in marks[..n] || m == marks[n]
  {
    assert marks == marks[..n] + [marks[n]];
  }

  lemma TimesOneMore(front: seq<Mark>, last: Mark, m: Mark)
    ensures Times(front + [last], m) == Times(front, m) + (if m == last then 1 else 0)
  {}

  predicate Beside(d: Device, front: seq<Mark>, last: Mark) {
    forall m | m in front :: m == last || Disjoint(d, last, m)
  }

  /** What the mark holds when its turn comes again. */
  lemma BeforeShows(d: Device, captured: seq<byte>, front: seq<Mark>, last: Mark, before: seq<byte>)
    requires ValidDevice(d) && Held(d, last, |captured|) && Beside(d, front, last)
    requires OnlyMarksChanged(d, captured, front, before)
    ensures Shows(d, captured, last, Times(front, last), before)
  {
    if last !in front {
      forall k: nat | Within(d, last, k) ensures before[k] == captured[k] {
        assert forall m | m in front :: !Within(d, m, k);
      }
      assert Slice(d, before, last) == Slice(d, captured, last);
    }
  }

  lemma LastAfter(d: Device, captured: seq<byte>, front: seq<Mark>, last: Mark, before: seq<byte>)
    requires FittingDevice(d) && Held(d, last, |captured|) && Beside(d, front, last)
    requires OnlyMarksChanged(d, captured, front, before)
    ensures Fits(last, |before|)
    ensures Shows(d, captured, last, Times(front, last) + 1, Rewritten(d, before, last))
    ensures forall k | 0 <= k < |before| && !Within(d, last, k) :: Rewritten(d, before, last)[k] == before[k]
  {
    BeforeShows(d, captured, front, last, before);
    RewrittenShows(d, captured, last, Times(front, last), before);
    RewrittenAt(d, before, last);
  }

  lemma OneMoreMark(d: Device, captured: seq<byte>, front: seq<Mark>, last: Mark, before: seq<byte>, after: seq<byte>)
    requires ValidDevice(d) && Beside(d, front, last)
    requires OnlyMarksChanged(d, captured, front, before)
    requires |after| == |before| && forall k | 0 <= k < |before| && !Within(d, last, k) :: after[k] == before[k]
    requires Shows(d, captured, last, Times(front, last) + 1, after)
    ensures OnlyMarksChanged(d, captured, front + [last], after)
  {
    var marks := front + [last];
    assert last in marks && forall m | m in front :: m in marks;
    forall m | m in marks ensures Shows(d, captured, m, Times(marks, m), after) {
      MarkAfter(d, captured, front, last, before, after, m);
    }
  }

  lemma MarkAfter(d: Device, captured: seq<byte>, front: seq<Mark>, last: Mark, before: seq<byte>, after: seq<byte>, m: Mark)
    requires ValidDevice(d) && |after| == |before|
    requires forall k | 0 <= k < |before| && !Within(d, last, k) :: after[k] == before[k]
    requires if m == last then Shows(d, captured, last, Times(front, last) + 1, after)
             else Shows(d, captured, m, Times(front, m), before) && Disjoint(d, last, m)
    ensures Shows(d, captured, m, Times(front + [last], m), after)
  {
    TimesOneMore(front, last, m);
    if m != last {
      StillShows(d, captured, m, Times(front, m), before, last, after);
    }
  }

  // ---- the assertions of the translation

  /** All n translations of the mark resolve: the last one does, since a mark that does not resolve never will. */
  ghost predicate ResolvesTimes(d: Device, captured: seq<byte>, m: Mark, n: nat)
    requires ValidDevice(d)
  {
    Held(d, m, |captured|)
    && (n > 0 ==> Resolves(d, m.kind, StepTimes(d, m.kind, Slice(d, captured, m), n - 1)))
  }

  ghost predicate AllFound(d: Device, captured: seq<byte>, marks: seq<Mark>)
    requires ValidDevice(d)
  {
    forall m | m in marks :: ResolvesTimes(d, captured, m, Times(marks, m))
  }

  /** An address that was lost is zero from then on; a group handle that is not exchanged stays as it is. */
  lemma FailureIsFinal(d: Device, kind: Kind, s: seq<byte>)
    requires FittingDevice(d) && |s| == Extent(d, kind) && Resolves(d, kind, Step(d, kind, s))
    ensures Resolves(d, kind, s)
  {
    if kind.Address? && !Resolves(d, kind, s) {
      var t := Step(d, kind, s);
      assert t[..ADDRESS_SIZE] == LittleEndian(0, ADDRESS_SIZE);
      DecodeEncode(0, ADDRESS_SIZE);
      LandsExactly(Side(d.addresses, kind.onStructure), 0);
    }
  }

  lemma FewerResolve(d: Device, captured: seq<byte>, m: Mark, n: nat)
    requires FittingDevice(d)
    ensures ResolvesTimes(d, captured, m, n + 1) ==> ResolvesTimes(d, captured, m, n)
  {
    if ResolvesTimes(d, captured, m, n + 1) && n > 0 {
      FailureIsFinal(d, m.kind, StepTimes(d, m.kind, Slice(d, captured, m), n - 1));
    }
  }

  lemma FoundOneMore(d: Device, captured: seq<byte>, front: seq<Mark>, last: Mark)
    requires ValidDevice(d)
    requires ResolvesTimes(d, captured, last, Times(front, last) + 1) ==> ResolvesTimes(d, captured, last, Times(front, last))
    ensures AllFound(d, captured, front + [last])
       <==> AllFound(d, captured, front) && ResolvesTimes(d, captured, last, Times(front, last) + 1)
  {
    if AllFound(d, captured, front + [last]) {
      FoundBefore(d, captured, front, last);
    }
    if AllFound(d, captured, front) && ResolvesTimes(d, captured, last, Times(front, last) + 1) {
      FoundAfter(d, captured, front, last);
    }
  }

  lemma FoundBefore(d: Device, captured: seq<byte>, front: seq<Mark>, last: Mark)
    requires ValidDevice(d) && AllFound(d, captured, front + [last])
    requires ResolvesTimes(d, captured, last, Times(front, last) + 1) ==> ResolvesTimes(d, captured, last, Times(front, last))
    ensures AllFound(d, captured, front) && ResolvesTimes(d, captured, last, Times(front, last) + 1)
  {
    var marks := front + [last];
    assert last in marks;
    TimesOneMore(front, last, last);
    forall m | m in front && m != last ensures ResolvesTimes(d, captured, m, Times(front, m)) {
      assert m in marks;
      TimesOneMore(front, last, m);
      assert Times(marks, m) == Times(front, m);
    }
  }

  lemma FoundAfter(d: Device, captured: seq<byte>, front: seq<Mark>, last: Mark)
    requires ValidDevice(d) && AllFound(d, captured, front) && ResolvesTimes(d, captured, last, Times(front, last) + 1)
    ensures AllFound(d, captured, front + [last])
  {
    forall m | m in front + [last] ensures ResolvesTimes(d, captured, m, Times(front + [last], m)) {
      TimesOneMore(front, last, m);
      assert m in front || m == last;
    }
  }

  /** The translation gets through exactly when every mark resolves as often as it is listed. */
  lemma {:induction false} ResolvesExactly(d: Device, captured: seq<byte>, marks: seq<Mark>)
    requires FittingDevice(d) && AllHeld(d, marks, |captured|) && ApartOrSame(d, marks)
    ensures AllFit(marks, |captured|)
    ensures AllResolve(d, captured, marks) <==> AllFound(d, captured, marks)
    decreases |marks|
  {
    HeldFits(d, marks, |captured|);
    if marks != [] {
      var n := |marks| - 1;
      var front, last := marks[..n], marks[n];
      FrontAndLast(marks, n);
      ResolvesExactly(d, captured, front);
      TranslatedAt(d, captured, front);
      var before := Translated(d, captured, front);
      BeforeShows(d, captured, front, last, before);
      LastResolves(d, captured, last, Times(front, last), before);
      FewerResolve(d, captured, last, Times(front, last));
      FoundOneMore(d, captured, front, last);
    }
  }

  lemma LastResolves(d: Device, captured: seq<byte>, m: Mark, n: nat, before: seq<byte>)
    requires FittingDevice(d) && Shows(d, captured, m, n, before)
    ensures Resolves(d, m.kind, From(before, m)) <==> ResolvesTimes(d, captured, m, n + 1)
  {
    FromIsSlice(d, before, m, Extent(d, m.kind));
    StepIsLocal(d, m.kind, From(before, m), Extent(d, m.kind));
  }

  // ---- the checksum of the translated buffer

  /** The bytes the checksum is taken over in place of those of a mark; None when it aborts. */
  ghost function GivesBack(d: Device, kind: Kind, s: seq<byte>): Option<seq<byte>>
    requires ValidDevice(d)
  {
    match Restore(d, kind, s)
    case Abort => None
    case Leave => Some(s)
    case Put(bytes) => Some(bytes)
  }

  /** The bytes survive n translations and the way back. */
  ghost predicate SliceReturns(d: Device, kind: Kind, s: seq<byte>, n: nat)
    requires ValidDevice(d)
  {
    GivesBack(d, kind, StepTimes(d, kind, s, n)) == Some(s)
  }

  ghost predicate AllReturn(d: Device, captured: seq<byte>, marks: seq<Mark>)
    requires ValidDevice(d) && AllHeld(d, marks, |captured|)
  {
    forall m | m in marks :: SliceReturns(d, m.kind, Slice(d, captured, m), Times(marks, m))
  }

  /** The part of a mark that lies in the buffer: its own bytes, or what is put in their place. */
  lemma PartIs(d: Device, data: seq<byte>, m: Mark, p: Part)
    requires FittingDevice(d) && Held(d, m, |data|) && p == PartOf(d, data, m)
    ensures p.offset == m.offset && |p.bytes| == Extent(d, m.kind) && InPlace(data, p)
    ensures Reversible(d, data, m) <==> GivesBack(d, m.kind, Slice(d, data, m)).Some?
    ensures Reversible(d, data, m) ==> GivesBack(d, m.kind, Slice(d, data, m)) == Some(p.bytes)
  {
    FromIsSlice(d, data, m, Extent(d, m.kind));
    RestoreIsLocal(d, m.kind, From(data, m), Extent(d, m.kind));
  }

  predicate Lies(d: Device, p: Part, m: Mark) {
    p.offset == m.offset && |p.bytes| == Extent(d, m.kind)
  }

  lemma PairIsClear(d: Device, m: Mark, p: Part, o: Mark, q: Part)
    requires Lies(d, p, m) && Lies(d, q, o) && (if m == o then p == q else Disjoint(d, m, o))
    ensures p == q || Apart(p, q)
  {}

  lemma PartsLie(d: Device, data: seq<byte>, marks: seq<Mark>, parts: seq<Part>)
    requires FittingDevice(d) && AllHeld(d, marks, |data|) && parts == PartsOf(d, data, marks)
    ensures AllInPlace(data, parts) && forall i | 0 <= i < |marks| :: Lies(d, parts[i], marks[i])
  {
    forall i | 0 <= i < |marks| ensures Lies(d, parts[i], marks[i]) && InPlace(data, parts[i]) {
      assert marks[i] in marks;
      PartIs(d, data, marks[i], parts[i]);
    }
  }

  /** Marks that repeat or lie apart have parts that do. */
  lemma PartsAreClear(d: Device, marks: seq<Mark>, parts: seq<Part>)
    requires ApartOrSame(d, marks) && |parts| == |marks| && forall i | 0 <= i < |marks| :: Lies(d, parts[i], marks[i])
    requires forall i, j | 0 <= i < |marks| && 0 <= j < |marks| && marks[i] == marks[j] :: parts[i] == parts[j]
    ensures Clear(parts)
  {
    forall i, j | 0 <= i < |parts| && 0 <= j < |parts| ensures parts[i] == parts[j] || Apart(parts[i], parts[j]) {
      assert marks[i] in marks && marks[j] in marks;
      PairIsClear(d, marks[i], parts[i], marks[j], parts[j]);
    }
  }

  /** The part shows the captured bytes exactly when the mark gives them back. */
  lemma PartShows(d: Device, captured: seq<byte>, data: seq<byte>, m: Mark)
    requires FittingDevice(d) && Held(d, m, |data|) && |captured| == |data| && Reversible(d, data, m)
    ensures ShownBy(captured, PartOf(d, data, m))
       <==> GivesBack(d, m.kind, Slice(d, data, m)) == Some(Slice(d, captured, m))
  {
    PartIs(d, data, m, PartOf(d, data, m));
  }

  lemma OutsideIsUnchanged(d: Device, captured: seq<byte>, marks: seq<Mark>, t: seq<byte>, parts: seq<Part>, k: nat)
    requires ValidDevice(d) && OnlyMarksChanged(d, captured, marks, t) && |parts| == |marks|
    requires forall i | 0 <= i < |marks| :: Lies(d, parts[i], marks[i])
    requires k < |captured| && Outside(parts, k)
    ensures t[k] == captured[k]
  {
    forall m | m in marks ensures !Within(d, m, k) {
      var i: nat :| i < |marks| && marks[i] == m;
      assert !Spans(parts[i], k);
    }
  }

  /** What the checksum is taken over, mark by mark. */
  lemma ReconstructedExactly(d: Device, captured: seq<byte>, marks: seq<Mark>, t: seq<byte>)
    requires FittingDevice(d) && AllHeld(d, marks, |captured|) && ApartOrSame(d, marks)
    requires OnlyMarksChanged(d, captured, marks, t) && AllReversible(d, t, marks)
    ensures Compatible(MarkSpans(d, t, marks))
    ensures Reconstructed(d, t, marks) == captured
       <==> forall i | 0 <= i < |marks| :: ShownBy(captured, PartOf(d, t, marks[i]))
  {
    var parts := PartsOf(d, t, marks);
    PartsLie(d, t, marks, parts);
    PartsAreClear(d, marks, parts);
    forall k: nat | k < |t| && Outside(parts, k) ensures t[k] == captured[k] {
      OutsideIsUnchanged(d, captured, marks, t, parts, k);
    }
    PartsShow(t, parts, captured);
  }

  /** A mark returns from its translations iff the checksum gives its bytes back. */
  lemma ShownAndReturned(d: Device, captured: seq<byte>, m: Mark, n: nat, t: seq<byte>)
    requires FittingDevice(d) && Shows(d, captured, m, n, t)
    ensures SliceReturns(d, m.kind, Slice(d, captured, m), n)
       <==> Reversible(d, t, m) && ShownBy(captured, PartOf(d, t, m))
  {
    PartIs(d, t, m, PartOf(d, t, m));
    if Reversible(d, t, m) {
      PartShows(d, captured, t, m);
    }
  }

  lemma AllShownAndReturned(d: Device, captured: seq<byte>, marks: seq<Mark>, t: seq<byte>)
    requires FittingDevice(d) && AllHeld(d, marks, |captured|) && OnlyMarksChanged(d, captured, marks, t)
    ensures AllReturn(d, captured, marks)
       <==> AllReversible(d, t, marks) && forall i | 0 <= i < |marks| :: ShownBy(captured, PartOf(d, t, marks[i]))
  {
    forall m | m in marks
      ensures SliceReturns(d, m.kind, Slice(d, captured, m), Times(marks, m))
         <==> Reversible(d, t, m) && ShownBy(captured, PartOf(d, t, m))
    {
      ShownAndReturned(d, captured, m, Times(marks, m), t);
    }
    ByPosition(d, captured, marks, t);
  }

  lemma ByPosition(d: Device, captured: seq<byte>, marks: seq<Mark>, t: seq<byte>)
    requires ValidDevice(d)
    ensures (forall m | m in marks :: ShownBy(captured, PartOf(d, t, m)))
       <==> forall i | 0 <= i < |marks| :: ShownBy(captured, PartOf(d, t, marks[i]))
  {}

  /** The checksum accepts the buffer and is taken over these bytes. */
  ghost predicate ChecksumSees(d: Device, t: seq<byte>, marks: seq<Mark>, bytes: seq<byte>)
    requires ValidDevice(d)
  {
    AllReversible(d, t, marks) && Compatible(MarkSpans(d, t, marks)) && Reconstructed(d, t, marks) == bytes
  }

  /** The checksum of a translated buffer is that of the captured one: with marks that repeat or lie apart, its
      aborts stay away and the bytes it is taken over are the captured bytes, if and only if every mark returns from
      as many translations as it is listed. */
  lemma ChecksumSurvivesTranslation(d: Device, captured: seq<byte>, marks: seq<Mark>)
    requires FittingDevice(d) && AllHeld(d, marks, |captured|) && ApartOrSame(d, marks)
    ensures AllFit(marks, |captured|)
    ensures ChecksumSees(d, Translated(d, captured, marks), marks, captured) <==> AllReturn(d, captured, marks)
  {
    TranslatedAt(d, captured, marks);
    var t := Translated(d, captured, marks);
    AllShownAndReturned(d, captured, marks, t);
    if AllReversible(d, t, marks) {
      ReconstructedExactly(d, captured, marks, t);
    }
  }

  /** Translating the captured bytes in place, then asserting their checksum; None also when the translation does
      not get through, as with a marked address that is zero. */
  method UpdateThenChecksum(d: Device, buffers: AddressRemapper, structures: AddressRemapper, data: array<byte>,
                            marks: seq<Mark>)
    returns (checksum: Option<nat>)
    requires FittingDevice(d) && AllHeld(d, marks, data.Length) && ApartOrSame(d, marks)
    requires buffers.remapping == d.addresses.buffers.entries && structures.remapping == d.addresses.structures.entries
    modifies data
    ensures !AllFound(d, old(data[..]), marks) ==> checksum == None
    ensures AllFound(d, old(data[..]), marks) && AllReturn(d, old(data[..]), marks)
        ==> checksum == Some(Adler32(old(data[..])))
  {
    ghost var captured := data[..];
    ChecksumSurvivesTranslation(d, captured, marks);
    ResolvesExactly(d, captured, marks);
    var resolved := TranslateMarkedOffsets(d, buffers, structures, data, marks);
    if !resolved {
      return None;
    }
    checksum := ChecksumMarkedBufferRange(d, data[..], marks);
  }

  // ---- what returns, by kind

  function SideOf(d: Device, kind: Kind): Registry
    requires kind.Address?
  {
    Side(d.addresses, kind.onStructure)
  }

  lemma StepStores(d: Device, kind: Kind, s: seq<byte>, value: nat)
    requires ValidDevice(d) && kind.Address? && |s| == ADDRESS_SIZE && value == Forward(SideOf(d, kind), FromLittleEndian(s))
    ensures Step(d, kind, s) == LittleEndian(value, |s|)
  {
    assert s[..ADDRESS_SIZE] == s;
    Unit(LittleEndian(value, |s|));
  }

  lemma AddressStep(d: Device, kind: Kind, s: seq<byte>)
    requires FittingDevice(d) && kind.Address? && |s| == ADDRESS_SIZE
    ensures FromLittleEndian(Step(d, kind, s)) == Forward(SideOf(d, kind), FromLittleEndian(s))
  {
    var value := Forward(SideOf(d, kind), FromLittleEndian(s));
    LandsExactly(SideOf(d, kind), FromLittleEndian(s));
    StepStores(d, kind, s, value);
    Pow256Values();
    DecodeEncode(value, |s|);
  }

  /** A marked address, translated n times, is the address it was translated to. */
  lemma AddressTimes(d: Device, kind: Kind, s: seq<byte>, n: nat)
    requires FittingDevice(d) && kind.Address? && |s| == ADDRESS_SIZE
    ensures FromLittleEndian(StepTimes(d, kind, s, n)) == ForwardTimes(SideOf(d, kind), FromLittleEndian(s), n)
  {
    var start, r := FromLittleEndian(s), SideOf(d, kind);
    var t, value := s, start;
    for i := 0 to n
      invariant |t| == ADDRESS_SIZE && t == StepTimes(d, kind, s, i) && value == ForwardTimes(r, start, i)
      invariant FromLittleEndian(t) == value
    {
      AddressStep(d, kind, t);
      t, value := OnceMore(d, kind, s, start, i, t, value);
    }
  }

  lemma OnceMore(d: Device, kind: Kind, s: seq<byte>, start: nat, i: nat, t: seq<byte>, value: nat)
    returns (u: seq<byte>, next: nat)
    requires ValidDevice(d) && kind.Address? && t == StepTimes(d, kind, s, i) && value == ForwardTimes(SideOf(d, kind), start, i)
    requires FromLittleEndian(Step(d, kind, t)) == Forward(SideOf(d, kind), value)
    ensures |u| == |t| && u == StepTimes(d, kind, s, i + 1) && next == ForwardTimes(SideOf(d, kind), start, i + 1)
    ensures FromLittleEndian(u) == next
  {
    u, next := Step(d, kind, t), Forward(SideOf(d, kind), value);
  }

  lemma Encodes(value: nat, s: seq<byte>)
    requires |s| == ADDRESS_SIZE && value < U64_LIMIT
    ensures LittleEndian(value, |s|) == s <==> value == FromLittleEndian(s)
  {
    Pow256Values();
    DecodeEncode(value, |s|);
    EncodeDecode(s);
  }

  /** The checksum gives back the captured bytes iff the address in `t` is turned back into the one they store. */
  lemma AddressGivenBack(d: Device, onStructure: bool, t: seq<byte>, s: seq<byte>)
    requires FittingDevice(d) && |s| == |t| == ADDRESS_SIZE
    ensures GivesBack(d, Address(onStructure), t) == Some(s)
       <==> Restored(d.addresses, onStructure, FromLittleEndian(t)) == Some(FromLittleEndian(s))
  {
    assert t[..ADDRESS_SIZE] == t;
    var capture := Restored(d.addresses, onStructure, FromLittleEndian(t));
    RestoredFits(d.addresses, onStructure, FromLittleEndian(t));
    EncodeDecode(t);
    Pow256Values();
    if capture.Some? {
      Encodes(capture.value, s);
    }
  }

  lemma AddressReturnsOnce(d: Device, onStructure: bool, s: seq<byte>)
    requires FittingDevice(d) && |s| == ADDRESS_SIZE
    ensures SliceReturns(d, Address(onStructure), s, 1) <==> Mirrored(d.addresses, onStructure, FromLittleEndian(s))
  {
    var t := StepTimes(d, Address(onStructure), s, 1);
    assert StepTimes(d, Address(onStructure), s, 0) == s;
    AddressStep(d, Address(onStructure), s);
    OnceReturns(d.addresses, onStructure, FromLittleEndian(s));
    AddressGivenBack(d, onStructure, t, s);
  }

  lemma AddressReturns(d: Device, onStructure: bool, s: seq<byte>, n: nat)
    requires CoherentDevice(d) && |s| == ADDRESS_SIZE && n > 0
    ensures SliceReturns(d, Address(onStructure), s, n) <==> Returns(d.addresses, onStructure, FromLittleEndian(s), n)
  {
    var t := StepTimes(d, Address(onStructure), s, n);
    AddressTimes(d, Address(onStructure), s, n);
    ValueReturns(d.addresses, onStructure, FromLittleEndian(s), n);
    AddressGivenBack(d, onStructure, t, s);
  }

  lemma AddressIsFound(d: Device, onStructure: bool, s: seq<byte>)
    requires FittingDevice(d) && |s| == ADDRESS_SIZE
    ensures Resolves(d, Address(onStructure), s) <==> Lands(Side(d.addresses, onStructure), FromLittleEndian(s))
  {
    assert s[..ADDRESS_SIZE] == s;
    LandsExactly(Side(d.addresses, onStructure), FromLittleEndian(s));
  }

  /** The bytes are those of a mark that its translation finds something for. */
  ghost predicate Findable(d: Device, kind: Kind, s: seq<byte>)
    requires ValidDevice(d)
  {
    match kind
    case Address(onStructure) => Lands(Side(d.addresses, onStructure), FromLittleEndian(s))
    case GroupHandle => Groups.Exchanged(d.pipelines, false, s).Some?
    case _ => true
  }

  /** The bytes are those of a mark that the checksum takes back: a mirrored address; a descriptor whose replay
      form no other captured descriptor has; a group handle whose replay handle only one group shows. */
  ghost predicate Recoverable(d: Device, kind: Kind, s: seq<byte>)
    requires ValidDevice(d)
  {
    match kind
    case Address(onStructure) => Mirrored(d.addresses, onStructure, FromLittleEndian(s))
    case Descriptor(t) => Descriptors.OnlyFrom(d.rewrites, t, Descriptors.Rewritten(d.rewrites, t, s), s)
    case Metadata => true
    case GroupHandle =>
      var handle := Groups.Exchanged(d.pipelines, false, s);
      handle.Some? ==> exists p: nat, g: nat :: Groups.OwnsAlone(d.pipelines, true, handle.value, p, g)
  }

  lemma DescriptorReturns(d: Device, t: nat, s: seq<byte>)
    requires FittingDevice(d) && |s| == d.descriptorSize(t)
    ensures SliceReturns(d, Descriptor(t), s, 1) <==> Recoverable(d, Descriptor(t), s)
  {
    Descriptors.ReplacementIsLocal(d.rewrites, d.descriptorSize, t, s, |s|);
    Descriptors.DescriptorReturns(d.rewrites, d.descriptorSize, t, s);
    assert StepTimes(d, Descriptor(t), s, 0) == s;
    assert Step(d, Descriptor(t), s) == Descriptors.Rewritten(d.rewrites, t, s);
  }

  lemma HandleReturns(d: Device, s: seq<byte>)
    requires FittingDevice(d) && |s| == Groups.HANDLE_SIZE && Groups.Exchanged(d.pipelines, false, s).Some?
    ensures SliceReturns(d, GroupHandle, s, 1) <==> Recoverable(d, GroupHandle, s)
  {
    var t := Groups.Exchanged(d.pipelines, false, s).value;
    assert s[..Groups.HANDLE_SIZE] == s && t[..Groups.HANDLE_SIZE] == t;
    assert StepTimes(d, GroupHandle, s, 0) == s;
    assert Step(d, GroupHandle, s) == t;
    var p, g := Groups.HandleReturns(d.pipelines, s, t);
  }

  /** A mark that is listed once resolves iff it is findable; then it returns iff it is recoverable. */
  lemma OnceExactly(d: Device, captured: seq<byte>, m: Mark)
    requires FittingDevice(d) && Held(d, m, |captured|)
    ensures ResolvesTimes(d, captured, m, 1) <==> Findable(d, m.kind, Slice(d, captured, m))
    ensures ResolvesTimes(d, captured, m, 1) ==>
      (SliceReturns(d, m.kind, Slice(d, captured, m), 1) <==> Recoverable(d, m.kind, Slice(d, captured, m)))
  {
    var s := Slice(d, captured, m);
    assert StepTimes(d, m.kind, s, 0) == s;
    match m.kind {
      case Address(onStructure) =>
        AddressIsFound(d, onStructure, s);
        AddressReturnsOnce(d, onStructure, s);
      case Descriptor(t) =>
        DescriptorReturns(d, t, s);
      case Metadata =>
        assert StepTimes(d, Metadata, s, 1) == s;
      case GroupHandle =>
        assert s[..Groups.HANDLE_SIZE] == s;
        if Groups.Exchanged(d.pipelines, false, s).Some? {
          HandleReturns(d, s);
        }
    }
  }

  // ---- what returns from any number of translations

  /** What the checksum gives back for a descriptor or a handle that was just translated is what it was before. */
  lemma StepBack(d: Device, kind: Kind, u: seq<byte>, s: seq<byte>)
    requires FittingDevice(d) && !kind.Address? && |u| == |s| == Extent(d, kind) && Resolves(d, kind, u)
    requires GivesBack(d, kind, Step(d, kind, u)) == Some(s)
    ensures Step(d, kind, u) == u || u == s
  {
    match kind {
      case Descriptor(t) =>
        Descriptors.ReplacementIsLocal(d.rewrites, d.descriptorSize, t, u, |u|);
        assert Step(d, kind, u) == Descriptors.Rewritten(d.rewrites, t, u);
        Descriptors.GivenBackIsBefore(d.rewrites, d.descriptorSize, t, u, s);
      case Metadata =>
      case GroupHandle =>
        assert u[..Groups.HANDLE_SIZE] == u;
        var t := Groups.Exchanged(d.pipelines, false, u).value;
        assert Step(d, kind, u) == t && t[..Groups.HANDLE_SIZE] == t;
        var p, g := Groups.HandleReturns(d.pipelines, u, t);
        Groups.GivenBackIsOwned(d.pipelines, t, p, g, u, s);
    }
  }

  /** Such a mark returns from n translations exactly when it returns from one and the others change nothing. */
  lemma {:induction false} Settles(d: Device, kind: Kind, s: seq<byte>, n: nat)
    requires FittingDevice(d) && !kind.Address? && |s| == Extent(d, kind) && n > 0
    requires Resolves(d, kind, StepTimes(d, kind, s, n - 1))
    ensures SliceReturns(d, kind, s, n)
       <==> SliceReturns(d, kind, s, 1) && StepTimes(d, kind, s, n) == StepTimes(d, kind, s, 1)
    decreases n
  {
    if n > 1 {
      var u := StepTimes(d, kind, s, n - 1);
      FailureIsFinal(d, kind, StepTimes(d, kind, s, n - 2));
      Settles(d, kind, s, n - 1);
      if SliceReturns(d, kind, s, n) {
        StepBack(d, kind, u, s);
        assert StepTimes(d, kind, s, 0) == s;
      }
    }
  }

  lemma AddressSettles(d: Device, kind: Kind, s: seq<byte>, n: nat)
    requires CoherentDevice(d) && kind.Address? && |s| == ADDRESS_SIZE && n > 0
    ensures SliceReturns(d, kind, s, n)
       <==> SliceReturns(d, kind, s, 1) && StepTimes(d, kind, s, n) == StepTimes(d, kind, s, 1)
  {
    AddressReturns(d, kind.onStructure, s, n);
    AddressReturns(d, kind.onStructure, s, 1);
    AddressTimes(d, kind, s, n);
    AddressTimes(d, kind, s, 1);
    SameNumbers(StepTimes(d, kind, s, n), StepTimes(d, kind, s, 1));
    ForwardTimesOfZero(SideOf(d, kind), FromLittleEndian(s), n);
  }

  lemma SameNumbers(a: seq<byte>, b: seq<byte>)
    requires |a| == |b|
    ensures a == b <==> FromLittleEndian(a) == FromLittleEndian(b)
  {
    EncodeDecode(a);
    EncodeDecode(b);
  }

  lemma ForwardTimesOfZero(r: Registry, value: nat, n: nat)
    requires Fitting(r)
    ensures ForwardTimes(r, value, 1) == Forward(r, value)
    ensures n > 0 && value == 0 ==> ForwardTimes(r, value, n) == Forward(r, value)
  {
    assert ForwardTimes(r, value, 0) == value;
    ZeroStays(r, n);
    LandsExactly(r, 0);
  }

  lemma {:induction false} ResolvesFirst(d: Device, captured: seq<byte>, m: Mark, n: nat)
    requires FittingDevice(d) && n > 0 && ResolvesTimes(d, captured, m, n)
    ensures ResolvesTimes(d, captured, m, 1)
    decreases n
  {
    if n > 1 {
      FewerResolve(d, captured, m, n - 1);
      ResolvesFirst(d, captured, m, n - 1);
    }
  }

  /** A mark that resolves n times returns iff it is recoverable and the later translations change nothing. */
  lemma ListedExactly(d: Device, captured: seq<byte>, m: Mark, n: nat)
    requires CoherentDevice(d) && Held(d, m, |captured|) && n > 0 && ResolvesTimes(d, captured, m, n)
    ensures var s := Slice(d, captured, m);
      SliceReturns(d, m.kind, s, n)
      <==> Recoverable(d, m.kind, s) && StepTimes(d, m.kind, s, n) == Step(d, m.kind, s)
  {
    var s := Slice(d, captured, m);
    ResolvesFirst(d, captured, m, n);
    OnceExactly(d, captured, m);
    if m.kind.Address? {
      AddressSettles(d, m.kind, s, n);
    } else {
      Settles(d, m.kind, s, n);
    }
    assert StepTimes(d, m.kind, s, 0) == s;
  }

  // ---- whole lists

  lemma {:induction false} ListedOnce(marks: seq<Mark>, m: Mark)
    requires NoRepeats(marks)
    ensures Times(marks, m) == if m in marks then 1 else 0
    decreases |marks|
  {
    if marks != [] {
      var n := |marks| - 1;
      FrontAndLast(marks, n);
      TimesOneMore(marks[..n], marks[n], m);
      ListedOnce(marks[..n], m);
    }
  }

  /** Without repeats, the translation gets through iff every mark is findable, and then the checksum survives iff
      every mark is recoverable. */
  lemma OnceFoundAndReturned(d: Device, captured: seq<byte>, marks: seq<Mark>)
    requires FittingDevice(d) && AllHeld(d, marks, |captured|) && NoRepeats(marks)
    ensures AllFound(d, captured, marks) <==> forall m | m in marks :: Findable(d, m.kind, Slice(d, captured, m))
    ensures AllFound(d, captured, marks) ==>
      (AllReturn(d, captured, marks) <==> forall m | m in marks :: Recoverable(d, m.kind, Slice(d, captured, m)))
  {
    forall m | m in marks
      ensures Times(marks, m) == 1
      ensures ResolvesTimes(d, captured, m, 1) <==> Findable(d, m.kind, Slice(d, captured, m))
      ensures ResolvesTimes(d, captured, m, 1) ==>
        (SliceReturns(d, m.kind, Slice(d, captured, m), 1) <==> Recoverable(d, m.kind, Slice(d, captured, m)))
    {
      ListedOnce(marks, m);
      OnceExactly(d, captured, m);
    }
  }

  /** Whatever the repeats: of a list that the translation gets through, the checksum survives iff every mark is
      recoverable and no translation behind its first changes anything. */
  lemma ListedAndReturned(d: Device, captured: seq<byte>, marks: seq<Mark>)
    requires CoherentDevice(d) && AllHeld(d, marks, |captured|) && ApartOrSame(d, marks)
    ensures AllFit(marks, |captured|)
    ensures AllResolve(d, captured, marks) ==>
      (ChecksumSees(d, Translated(d, captured, marks), marks, captured)
       <==> forall m | m in marks :: Settled(d, m.kind, Slice(d, captured, m), Times(marks, m)))
  {
    ChecksumSurvivesTranslation(d, captured, marks);
    ResolvesExactly(d, captured, marks);
    if AllFound(d, captured, marks) {
      forall m | m in marks
        ensures SliceReturns(d, m.kind, Slice(d, captured, m), Times(marks, m))
           <==> Settled(d, m.kind, Slice(d, captured, m), Times(marks, m))
      {
        ListedExactly(d, captured, m, Times(marks, m));
      }
    }
  }

  ghost predicate Settled(d: Device, kind: Kind, s: seq<byte>, n: nat)
    requires ValidDevice(d)
  {
    Recoverable(d, kind, s) && StepTimes(d, kind, s, n) == Step(d, kind, s)
  }

  lemma ListedTwice(d: Device, m: Mark)
    ensures Times([m, m], m) == 2 && (forall a :: a in [m, m] <==> a == m) && ApartOrSame(d, [m, m])
  {
    assert [m, m] == [] + [m] + [m];
  }

  lemma TwiceIs(r: Registry, value: nat)
    requires Fitting(r)
    ensures ForwardTimes(r, value, 2) == Forward(r, Forward(r, value))
  {
    assert ForwardTimes(r, value, 0) == value;
    assert ForwardTimes(r, value, 1) == Forward(r, value);
  }

  /** An address marked twice is translated twice, although the checksum accepts the list. Its bytes come back if
      and only if the value is zero, or it is returnable and its replay address is translated to itself. */
  lemma DuplicateMark(d: Device, captured: seq<byte>, m: Mark)
    requires CoherentDevice(d) && Held(d, m, |captured|) && m.kind.Address?
    ensures AllFit([m, m], |captured|)
    ensures var r, value := Side(d.addresses, m.kind.onStructure), FromLittleEndian(Slice(d, captured, m));
      ChecksumSees(d, Translated(d, captured, [m, m]), [m, m], captured)
      <==> value == 0
           || (Returnable(d.addresses, m.kind.onStructure, value) && Forward(r, Forward(r, value)) == Forward(r, value))
  {
    ListedTwice(d, m);
    TwiceIs(Side(d.addresses, m.kind.onStructure), FromLittleEndian(Slice(d, captured, m)));
    ChecksumSurvivesTranslation(d, captured, [m, m]);
    AddressReturns(d, m.kind.onStructure, Slice(d, captured, m), 2);
  }

  /** Of a buffer address that means: iff replay placed it where capture had it. */
  lemma DuplicateBufferMark(d: Device, captured: seq<byte>, m: Mark)
    requires CoherentDevice(d) && Held(d, m, |captured|) && m.kind == Address(false)
    ensures AllFit([m, m], |captured|)
    ensures var value := FromLittleEndian(Slice(d, captured, m));
      ChecksumSees(d, Translated(d, captured, [m, m]), [m, m], captured)
      <==> value == 0 || (Returnable(d.addresses, false, value) && Forward(d.addresses.buffers, value) == value)
  {
    DuplicateMark(d, captured, m);
    var w, value := d.addresses, FromLittleEndian(Slice(d, captured, m));
    var address := Forward(w.buffers, value);
    if value != 0 && Returnable(w, false, value) && Forward(w.buffers, address) == address {
      ReturnableLands(w, false, value);
      LandsExactly(w.buffers, value);
      BufferReturns(w, value, address);
    }
  }

  lemma SingleMark(d: Device, captured: seq<byte>, m: Mark)
    requires FittingDevice(d) && Held(d, m, |captured|)
    requires Findable(d, m.kind, Slice(d, captured, m)) && Recoverable(d, m.kind, Slice(d, captured, m))
    ensures AllFit([m], |captured|) && ChecksumSees(d, Translated(d, captured, [m]), [m], captured)
  {
    assert forall a :: a in [m] <==> a == m;
    OnceFoundAndReturned(d, captured, [m]);
    ChecksumSurvivesTranslation(d, captured, [m]);
  }

  /** A returnable address of a buffer that moved survives when it is marked once, and not when it is marked twice. */
  lemma MovedAddress(d: Device, captured: seq<byte>, m: Mark, value: nat)
    requires CoherentDevice(d) && Held(d, m, |captured|) && m.kind == Address(false)
    requires value == FromLittleEndian(Slice(d, captured, m)) && value != 0
    requires Returnable(d.addresses, false, value) && Forward(d.addresses.buffers, value) != value
    ensures AllFit([m], |captured|) && AllFit([m, m], |captured|)
    ensures ChecksumSees(d, Translated(d, captured, [m]), [m], captured)
    ensures !ChecksumSees(d, Translated(d, captured, [m, m]), [m, m], captured)
  {
    ReturnableLands(d.addresses, false, value);
    MirroredExactly(d.addresses, false, value);
    SingleMark(d, captured, m);
    DuplicateBufferMark(d, captured, m);
  }

  /** Such a device and such a buffer: one buffer that moved, and its base address as it was captured. */
  lemma DuplicateMarkIsLost(d: Device, captured: seq<byte>, m: Mark)
    requires d == Device(MovedBuffer(), [], (t: nat) => 1, []) && m == Mark(0, Address(false))
    requires captured == LittleEndian(0x1000, ADDRESS_SIZE)
    ensures CoherentDevice(d) && AllFit([m], |captured|) && AllFit([m, m], |captured|)
    ensures ChecksumSees(d, Translated(d, captured, [m]), [m], captured)
    ensures !ChecksumSees(d, Translated(d, captured, [m, m]), [m, m], captured)
  {
    Pow256Values();
    DecodeEncode(0x1000, ADDRESS_SIZE);
    assert Slice(d, captured, m) == captured;
    BaseMoves(d.addresses);
    MovedAddress(d, captured, m, 0x1000);
  }
}
