/** host_write_regions: which packet wrote each byte of an object, kept as fragments of an interval
    tracker, against a plain map from byte to origin (src/containers.h:101-398). */
module HostWrites {
  import opened Bytes

  /** change_source; the packet type is carried along but never compared. */
  datatype Source = Source(packet: nat, frame: nat, thread: nat, callId: nat, packetType: nat)

  datatype Reference = Reference(source: Source, stage: nat, offset: int)

  /** What a byte-by-byte map would remember. */
  datatype Origin = Origin(packet: nat, frame: nat, thread: nat, callId: nat, stage: nat, offset: int)

  /** The origin of the byte `distance` places after the start of something with this reference. */
  function OriginOf(r: Reference, distance: int): Origin {
    Origin(r.source.packet, r.source.frame, r.source.thread, r.source.callId, r.stage, r.offset + distance)
  }

  function Shifted(o: Origin, distance: int): Origin {
    o.(offset := o.offset + distance)
  }

  predicate SameReference(a: Reference, b: Reference) {
    && a.source.packet == b.source.packet && a.source.frame == b.source.frame
    && a.source.thread == b.source.thread && a.source.callId == b.source.callId
    && a.stage == b.stage
  }

  // ---- the naive map

  type Origins = map<nat, Origin>

  function Range(address: nat, size: nat): (r: set<nat>)
    ensures forall a: nat :: a in r <==> address <= a < address + size
  {
    if size == 0 then {} else Range(address, size - 1) + {address + size - 1}
  }

  function Registered(m: Origins, address: nat, size: nat, r: Reference): Origins {
    map a | a in m.Keys + Range(address, size) :: if a in Range(address, size) then OriginOf(r, a - address) else m[a]
  }

  predicate InOneElement(a: nat, address: nat, size: nat, stride: nat, i: nat) {
    address + i * stride <= a < address + i * stride + size
  }

  /** Some element of `size` bytes, one every `stride` bytes, holds the byte. */
  predicate InElement(a: nat, address: nat, size: nat, elements: nat, stride: nat) {
    exists i: nat :: i < elements && InOneElement(a, address, size, stride, i)
  }

  /** m2 is m1 with the elements registered: wherever they fall, a byte is as far into the object as it
      is behind the first element. */
  ghost predicate IsStrided(m1: Origins, m2: Origins, address: nat, size: nat, elements: nat, stride: nat, r: Reference) {
    forall a: nat :: if InElement(a, address, size, elements, stride) then a in m2 && m2[a] == OriginOf(r, a - address)
                     else (a in m2 <==> a in m1) && (a in m1 ==> m2[a] == m1[a])
  }

  /** Bytes without an origin leave the destination as it was. */
  function Copied(m: Origins, from: Origins, to: nat, at: nat, size: nat): Origins {
    map a | a in m.Keys + Range(to, size) && (a in m || a - to + at in from) ::
      if a in Range(to, size) && a - to + at in from then from[a - to + at] else m[a]
  }

  /** One origin explains the whole range. */
  ghost predicate Uniform(m: Origins, address: nat, size: nat) {
    && address in m
    && forall a | address <= a < address + size :: a in m && m[a] == Shifted(m[address], a - address)
  }

  // ---- the tracker, by its contract: each byte belongs to the fragment of its last write

  type Owners = map<nat, nat>

  function Write(owner: Owners, address: nat, size: nat, id: nat): Owners {
    map a | a in owner.Keys + Range(address, size) :: if a in Range(address, size) then id else owner[a]
  }

  datatype Piece = Piece(start: nat, end: nat, id: nat)

  predicate Holds(p: Piece, a: nat) {
    p.start <= a < p.end
  }

  ghost predicate InPieces(answer: seq<Piece>, a: nat) {
    exists i :: 0 <= i < |answer| && Holds(answer[i], a)
  }

  ghost predicate IsFragment(owner: Owners, p: Piece) {
    p.start < p.end && forall a | Holds(p, a) :: a in owner && owner[a] == p.id
  }

  /** Ordered disjoint pieces, each of one fragment, that together hold every tracked byte of the range. */
  ghost predicate IsAnswer(owner: Owners, address: nat, size: nat, answer: seq<Piece>) {
    && (forall i, j | 0 <= i < j < |answer| :: answer[i].end <= answer[j].start)
    && (forall i | 0 <= i < |answer| :: IsFragment(owner, answer[i]))
    && (forall a | a in owner && address <= a < address + size :: InPieces(answer, a))
  }

  lemma AddPiece(owner: Owners, address: nat, size: nat, answer: seq<Piece>)
    requires IsAnswer(owner, address, size, answer) && (forall i | 0 <= i < |answer| :: answer[i].end <= address + size)
    requires address + size in owner
    ensures var r := answer + [Piece(address + size, address + size + 1, owner[address + size])];
      IsAnswer(owner, address, size + 1, r) && (forall i | 0 <= i < |r| :: r[i].end <= address + size + 1)
  {
    var end := address + size;
    var r := answer + [Piece(end, end + 1, owner[end])];
    assert IsFragment(owner, r[|answer|]);
    forall a | a in owner && address <= a < address + size + 1 ensures InPieces(r, a) {
      if a < end {
        var i :| 0 <= i < |answer| && Holds(answer[i], a);
        assert Holds(r[i], a);
      } else {
        assert Holds(r[|answer|], a);
      }
    }
  }

  /** One tracker that meets the contract; nothing below relies on how it cuts its pieces. */
  method QueryRange(owner: Owners, address: nat, size: nat) returns (answer: seq<Piece>)
    ensures IsAnswer(owner, address, size, answer)
  {
    answer := [];
    for i := 0 to size
      invariant IsAnswer(owner, address, i, answer) && forall k | 0 <= k < |answer| :: answer[k].end <= address + i
    {
      if address + i in owner {
        AddPiece(owner, address, i, answer);
        answer := answer + [Piece(address + i, address + i + 1, owner[address + i])];
      }
    }
  }

  // ---- spans

  datatype SourceSpan = SourceSpan(start: nat, end: nat, reference: Reference)

  ghost function ViewOf(owner: Owners, sources: map<nat, Reference>): Origins {
    map a | a in owner && owner[a] in sources :: OriginOf(sources[owner[a]], a)
  }

  predicate Inside(s: SourceSpan, a: nat) {
    s.start <= a < s.end
  }

  /** The span says what the map says. */
  ghost predicate Agrees(m: Origins, s: SourceSpan) {
    s.start < s.end && forall a | s.start <= a < s.end :: a in m && m[a] == OriginOf(s.reference, a - s.start)
  }

  ghost predicate Ordered(spans: seq<SourceSpan>) {
    forall i, j | 0 <= i < j < |spans| :: spans[i].end <= spans[j].start
  }

  ghost predicate InSome(spans: seq<SourceSpan>, a: nat) {
    exists s :: s in spans && Inside(s, a)
  }

  /** The spans say all that the map knows about [address, upTo). */
  ghost predicate Collected(m: Origins, address: nat, upTo: nat, spans: seq<SourceSpan>) {
    && Ordered(spans)
    && (forall s | s in spans :: Agrees(m, s) && address <= s.start && s.end <= upTo)
    && (forall a | a in m && address <= a < upTo :: InSome(spans, a))
  }

  predicate Contiguous(previous: SourceSpan, start: nat, next: Reference) {
    && SameReference(previous.reference, next)
    && previous.reference.offset + (previous.end - previous.start) == next.offset && previous.end == start
  }

  function Extended(spans: seq<SourceSpan>, s: SourceSpan): seq<SourceSpan> {
    if spans != [] && Contiguous(spans[|spans| - 1], s.start, s.reference)
    then spans[|spans| - 1 := spans[|spans| - 1].(end := s.end)]
    else spans + [s]
  }

  lemma AppendCollects(m: Origins, address: nat, pos: nat, spans: seq<SourceSpan>, s: SourceSpan)
    requires Collected(m, address, pos, spans) && Agrees(m, s) && address <= pos <= s.start
    requires forall a | pos <= a < s.start :: a !in m
    ensures Collected(m, address, s.end, spans + [s])
  {
    var r := spans + [s];
    assert forall t | t in r :: t in spans || t == s;
    assert s in r && forall t | t in spans :: t in r;
    forall a | a in m && address <= a < s.end ensures InSome(r, a) {
      if a < pos {
        assert InSome(spans, a);
      } else {
        assert Inside(s, a);
      }
    }
  }

  lemma GrowingAgrees(m: Origins, last: SourceSpan, s: SourceSpan)
    requires Agrees(m, last) && Agrees(m, s) && Contiguous(last, s.start, s.reference)
    ensures Agrees(m, last.(end := s.end))
  {
    forall a | last.start <= a < s.end ensures a in m && m[a] == OriginOf(last.reference, a - last.start) {}
  }

  lemma GrowCollects(m: Origins, address: nat, pos: nat, spans: seq<SourceSpan>, s: SourceSpan)
    requires Collected(m, address, pos, spans) && Agrees(m, s) && address <= pos <= s.start
    requires forall a | pos <= a < s.start :: a !in m
    requires spans != [] && Contiguous(spans[|spans| - 1], s.start, s.reference)
    ensures Collected(m, address, s.end, Extended(spans, s))
  {
    var last := |spans| - 1;
    var before, grown := spans[last], spans[last].(end := s.end);
    var r := spans[last := grown];
    assert before in spans;
    GrowingAgrees(m, before, s);
    assert forall t | t in r :: t in spans || t == grown;
    assert r[last] in r;
    forall t | t in spans && t != before ensures t in r {
      var k :| 0 <= k < |spans| && spans[k] == t;
      assert r[k] == t;
    }
    forall a | a in m && address <= a < s.end ensures InSome(r, a) {
      if a < pos {
        var t :| t in spans && Inside(t, a);
        assert t == before ==> Inside(grown, a);
      } else {
        assert Inside(grown, a);
      }
    }
  }

  /** Merging a contiguous span into the last one says the same. */
  lemma ExtendedCollects(m: Origins, address: nat, pos: nat, spans: seq<SourceSpan>, s: SourceSpan)
    requires Collected(m, address, pos, spans) && Agrees(m, s) && address <= pos <= s.start
    requires forall a | pos <= a < s.start :: a !in m
    ensures Collected(m, address, s.end, Extended(spans, s))
  {
    if spans != [] && Contiguous(spans[|spans| - 1], s.start, s.reference) {
      GrowCollects(m, address, pos, spans, s);
    } else {
      AppendCollects(m, address, pos, spans, s);
    }
  }

  ghost predicate Known(owner: Owners, sources: map<nat, Reference>) {
    forall a | a in owner :: owner[a] in sources
  }

  /** After i pieces: those are used up to `pos`, and the rest lie beyond it. */
  ghost predicate Between(address: nat, end: nat, answer: seq<Piece>, i: nat, pos: nat) {
    && i <= |answer| && address <= pos <= end
    && (forall j | 0 <= j < i :: Min(answer[j].end, end) <= pos || end <= answer[j].start)
    && (forall j | i <= j < |answer| :: pos <= Max(address, answer[j].start))
  }

  lemma NothingBefore(owner: Owners, address: nat, size: nat, answer: seq<Piece>, i: nat, pos: nat)
    requires IsAnswer(owner, address, size, answer) && Between(address, address + size, answer, i, pos)
    ensures forall a | a in owner && pos <= a < address + size :: i < |answer| && answer[i].start <= a
  {
    forall a | a in owner && pos <= a < address + size ensures i < |answer| && answer[i].start <= a {
      assert InPieces(answer, a);
      var j :| 0 <= j < |answer| && Holds(answer[j], a);
      assert j > i ==> IsFragment(owner, answer[i]);
    }
  }

  /** The next piece, cut to the range, starts where nothing is left out and moves on. */
  lemma NextPiece(owner: Owners, address: nat, size: nat, answer: seq<Piece>, i: nat, pos: nat, start: nat, end: nat)
    requires IsAnswer(owner, address, size, answer) && Between(address, address + size, answer, i, pos) && i < |answer|
    requires start == Max(answer[i].start, address) && end == Min(answer[i].end, address + size)
    ensures start < end ==> pos <= start && Between(address, address + size, answer, i + 1, end)
    ensures start < end ==> forall a | pos <= a < start :: a !in owner
    ensures start >= end ==> Between(address, address + size, answer, i + 1, pos)
  {
    NothingBefore(owner, address, size, answer, i, pos);
    assert IsFragment(owner, answer[i]);
    forall j | 0 <= j < i ensures answer[j].end <= answer[i].start {}
  }

  /** The state of the loop below after i pieces. */
  ghost predicate Collecting(owner: Owners, sources: map<nat, Reference>, address: nat, size: nat, full: bool,
                             answer: seq<Piece>, i: nat, pos: nat, out: seq<SourceSpan>)
  {
    && Between(address, address + size, answer, i, pos) && Collected(ViewOf(owner, sources), address, pos, out)
    && (full ==> forall a | address <= a < pos :: a in owner)
  }

  /** One round: a piece cut to the range and turned into a span. */
  method TakePiece(owner: Owners, sources: map<nat, Reference>, address: nat, size: nat, full: bool,
                   ghost answer: seq<Piece>, ghost i: nat, piece: Piece, pos: nat, out: seq<SourceSpan>)
    returns (nextPos: nat, nextOut: seq<SourceSpan>)
    requires Known(owner, sources) && IsAnswer(owner, address, size, answer) && i < |answer| && answer[i] == piece
    requires Collecting(owner, sources, address, size, full, answer, i, pos, out)
    requires full ==> piece.start <= pos < address + size
    ensures Collecting(owner, sources, address, size, full, answer, i + 1, nextPos, nextOut)
  {
    var start := Max(piece.start, if full then pos else address);
    var end := Min(piece.end, address + size);
    assert IsFragment(owner, piece);
    NextPiece(owner, address, size, answer, i, pos, Max(piece.start, address), end);
    if start >= end {
      return pos, out;
    }
    assert Holds(piece, start);
    var stored := sources[piece.id];
    var span := SourceSpan(start, end, stored.(offset := stored.offset + start));
    assert Agrees(ViewOf(owner, sources), span);
    ExtendedCollects(ViewOf(owner, sources), address, pos, out, span);
    nextPos, nextOut := end, Extended(out, span);
  }

  /** collect_spans_unlocked. Without full coverage it collects everything known about the range; with it,
      it fails exactly when something is unknown. */
  method CollectSpans(owner: Owners, sources: map<nat, Reference>, address: nat, size: nat, requireFullCoverage: bool)
    returns (ok: bool, out: seq<SourceSpan>)
    requires Known(owner, sources)
    ensures ok <==> (requireFullCoverage ==> forall a | address <= a < address + size :: a in owner)
    ensures ok ==> Collected(ViewOf(owner, sources), address, address + size, out)
  {
    out := [];
    if size == 0 {
      return true, out;
    }
    var end := address + size;
    var answer := QueryRange(owner, address, size);
    var pos: nat := address; // kept up to date in both modes, read only under full coverage
    for i := 0 to |answer|
      invariant Collecting(owner, sources, address, size, requireFullCoverage, answer, i, pos, out)
      invariant requireFullCoverage ==> pos < end
    {
      NothingBefore(owner, address, size, answer, i, pos);
      if requireFullCoverage && answer[i].start > pos {
        assert pos !in owner;
        return false, out;
      }
      pos, out := TakePiece(owner, sources, address, size, requireFullCoverage, answer, i, answer[i], pos, out);
      if requireFullCoverage && pos == end {
        return true, out;
      }
    }
    FinishCollecting(owner, sources, address, size, requireFullCoverage, answer, pos, out);
    ok := !requireFullCoverage || pos == end;
  }

  lemma FinishCollecting(owner: Owners, sources: map<nat, Reference>, address: nat, size: nat, full: bool,
                         answer: seq<Piece>, pos: nat, out: seq<SourceSpan>)
    requires IsAnswer(owner, address, size, answer) && (full ==> pos < address + size)
    requires Collecting(owner, sources, address, size, full, answer, |answer|, pos, out)
    ensures full ==> pos !in owner && address <= pos < address + size
    ensures Collected(ViewOf(owner, sources), address, address + size, out)
  {
    NothingBefore(owner, address, size, answer, |answer|, pos);
  }

  lemma WriteRegistersAt(owner: Owners, sources: map<nat, Reference>, id: nat, address: nat, size: nat, r: Reference, a: nat)
    requires Known(owner, sources) && id !in sources
    ensures var left := ViewOf(Write(owner, address, size, id), sources[id := r.(offset := r.offset - address)]);
      var right := Registered(ViewOf(owner, sources), address, size, r);
      (a in left <==> a in right) && (a in left ==> left[a] == right[a])
  {
    assert a in owner ==> owner[a] != id;
  }

  lemma WriteRegisters(owner: Owners, sources: map<nat, Reference>, id: nat, address: nat, size: nat, r: Reference)
    requires Known(owner, sources) && id !in sources
    ensures ViewOf(Write(owner, address, size, id), sources[id := r.(offset := r.offset - address)])
         == Registered(ViewOf(owner, sources), address, size, r)
  {
    forall a: nat {
      WriteRegistersAt(owner, sources, id, address, size, r, a);
    }
  }

  ghost predicate Numbered(owner: Owners, sources: map<nat, Reference>, next: nat) {
    && (forall a | a in owner :: owner[a] < next)
    && (forall f | f in sources :: f < next)
  }

  lemma NumberedWrite(owner: Owners, sources: map<nat, Reference>, id: nat, address: nat, size: nat, r: Reference)
    requires Known(owner, sources) && Numbered(owner, sources, id)
    ensures Known(Write(owner, address, size, id), sources[id := r])
    ensures Numbered(Write(owner, address, size, id), sources[id := r], id + 1)
  {}

  // ---- copying

  /** Some span, moved from [at, ..) to [to, ..), holds the byte. */
  ghost predicate Lands(spans: seq<SourceSpan>, to: nat, at: nat, a: nat) {
    to <= a && InSome(spans, a - to + at)
  }

  /** The spans moved and laid over m. */
  ghost predicate IsOverlay(m: Origins, from: Origins, to: nat, at: nat, spans: seq<SourceSpan>, r: Origins) {
    forall a: nat ::
      if Lands(spans, to, at, a) then a - to + at in from && a in r && r[a] == from[a - to + at]
      else (a in r <==> a in m) && (a in m ==> r[a] == m[a])
  }

  lemma OverlayIsCopyAt(m: Origins, from: Origins, to: nat, at: nat, size: nat, spans: seq<SourceSpan>, r: Origins, a: nat)
    requires Collected(from, at, at + size, spans) && IsOverlay(m, from, to, at, spans, r)
    ensures (a in r <==> a in Copied(m, from, to, at, size)) && (a in r ==> r[a] == Copied(m, from, to, at, size)[a])
  {
    assert Lands(spans, to, at, a) <==> to <= a < to + size && a - to + at in from;
  }

  lemma OverlayIsCopy(m: Origins, from: Origins, to: nat, at: nat, size: nat, spans: seq<SourceSpan>, r: Origins)
    requires Collected(from, at, at + size, spans) && IsOverlay(m, from, to, at, spans, r)
    ensures r == Copied(m, from, to, at, size)
  {
    forall a: nat {
      OverlayIsCopyAt(m, from, to, at, size, spans, r, a);
    }
  }

  lemma LandsOneMore(spans: seq<SourceSpan>, to: nat, at: nat, s: SourceSpan, a: nat)
    requires at <= s.start <= s.end
    ensures Lands(spans + [s], to, at, a) <==> Lands(spans, to, at, a) || a in Range(to + (s.start - at), s.end - s.start)
  {
    var all := spans + [s];
    assert s in all && forall t | t in spans :: t in all;
    assert forall t | t in all :: t in spans || t == s;
    if to <= a {
      assert Inside(s, a - to + at) <==> a in Range(to + (s.start - at), s.end - s.start);
    }
  }

  lemma OverlayOneMore(m: Origins, from: Origins, to: nat, at: nat, spans: seq<SourceSpan>, r: Origins, s: SourceSpan,
                       start: nat, length: nat)
    requires IsOverlay(m, from, to, at, spans, r) && Agrees(from, s) && at <= s.start
    requires start == to + (s.start - at) && length == s.end - s.start
    ensures IsOverlay(m, from, to, at, spans + [s], Registered(r, start, length, s.reference))
  {
    forall a: nat {
      OverlayOneMoreAt(m, from, to, at, spans, r, s, start, length, a);
    }
  }

  lemma OverlayOneMoreAt(m: Origins, from: Origins, to: nat, at: nat, spans: seq<SourceSpan>, r: Origins, s: SourceSpan,
                         start: nat, length: nat, a: nat)
    requires IsOverlay(m, from, to, at, spans, r) && Agrees(from, s) && at <= s.start
    requires start == to + (s.start - at) && length == s.end - s.start
    ensures var next := Registered(r, start, length, s.reference);
      if Lands(spans + [s], to, at, a) then a - to + at in from && a in next && next[a] == from[a - to + at]
      else (a in next <==> a in m) && (a in m ==> next[a] == m[a])
  {
    LandsOneMore(spans, to, at, s, a);
    if start <= a < start + length {
      var origin: nat := a - to + at;
      assert s.start <= origin < s.end && from[origin] == OriginOf(s.reference, a - start);
    }
  }

  // ---- elements

  lemma OneElement(m: Origins, address: nat, size: nat, stride: nat, reference: Reference)
    ensures IsStrided(m, Registered(m, address, size, reference), address, size, 1, stride, reference)
    ensures Registered(m, address, size * 1, reference) == Registered(m, address, size, reference)
  {
    forall a: nat ensures InElement(a, address, size, 1, stride) <==> a in Range(address, size) {
      assert InOneElement(a, address, size, stride, 0) <==> a in Range(address, size);
    }
  }

  lemma NothingRegistered(m: Origins, address: nat, elements: nat, stride: nat, r: Reference)
    ensures IsStrided(m, m, address, 0, elements, stride, r) && Registered(m, address, 0 * elements, r) == m
  {
    assert 0 * elements == 0;
  }

  lemma NextElement(m: Origins, before: Origins, address: nat, size: nat, i: nat, stride: nat, r: Reference)
    requires IsStrided(m, before, address, size, i, stride, r)
    ensures IsStrided(m, Registered(before, address + i * stride, size, r.(offset := r.offset + i * stride)),
                      address, size, i + 1, stride, r)
  {
    var start := address + i * stride;
    forall a: nat
      ensures InElement(a, address, size, i + 1, stride) <==> InElement(a, address, size, i, stride) || a in Range(start, size)
    {
      assert InOneElement(a, address, size, stride, i) <==> a in Range(start, size);
      if InElement(a, address, size, i, stride) {
        var j: nat :| j < i && InOneElement(a, address, size, stride, j);
        assert j < i + 1;
      }
    }
  }

  // ---- querying

  predicate Continues(s: SourceSpan, r: Reference, address: nat) {
    SameReference(s.reference, r) && s.reference.offset == r.offset + (s.start - address)
  }

  ghost predicate Full(m: Origins, address: nat, size: nat) {
    forall a | address <= a < address + size :: a in m
  }

  lemma FirstSpanStarts(m: Origins, address: nat, size: nat, spans: seq<SourceSpan>)
    requires Collected(m, address, address + size, spans) && Full(m, address, size) && size > 0
    ensures spans != [] && spans[0].start == address && m[address] == OriginOf(spans[0].reference, 0)
  {
    assert InSome(spans, address);
    var s :| s in spans && Inside(s, address);
    var k :| 0 <= k < |spans| && spans[k] == s;
    assert spans[0] in spans;
    assert Agrees(m, spans[0]);
  }

  lemma NotUniform(m: Origins, address: nat, size: nat, spans: seq<SourceSpan>, r: Reference, i: nat)
    requires Collected(m, address, address + size, spans) && i < |spans| && address in m && m[address] == OriginOf(r, 0)
    requires !Continues(spans[i], r, address)
    ensures !Uniform(m, address, size)
  {
    assert spans[i] in spans && Agrees(m, spans[i]);
    assert m[spans[i].start] == OriginOf(spans[i].reference, 0);
  }

  lemma AllContinue(m: Origins, address: nat, size: nat, spans: seq<SourceSpan>, r: Reference)
    requires Collected(m, address, address + size, spans) && Full(m, address, size) && size > 0
    requires m[address] == OriginOf(r, 0) && forall j | 0 <= j < |spans| :: Continues(spans[j], r, address)
    ensures Uniform(m, address, size)
  {
    forall a | address <= a < address + size ensures a in m && m[a] == Shifted(m[address], a - address) {
      assert InSome(spans, a);
      var s :| s in spans && Inside(s, a);
      var k :| 0 <= k < |spans| && spans[k] == s;
      assert Agrees(m, s) && Continues(spans[k], r, address);
    }
  }

  // ---- the object

  class HostWriteRegions {
    var owner: Owners // the tracker
    var nextFragment: nat
    var fragmentSources: map<nat, Reference> // offsets are stored less the address

    ghost predicate Valid()
      reads this
    {
      Known(owner, fragmentSources) && Numbered(owner, fragmentSources, nextFragment)
    }

    ghost function View(): Origins
      reads this
    {
      ViewOf(owner, fragmentSources)
    }

    constructor ()
      ensures Valid() && View() == map[]
    {
      owner, nextFragment, fragmentSources := map[], 0, map[];
    }

    method RegisterUnlocked(address: nat, size: nat, reference: Reference)
      requires Valid()
      modifies this
      ensures Valid() && View() == Registered(old(View()), address, size, reference)
    {
      if size == 0 {
        assert Registered(View(), address, size, reference) == View();
        return;
      }
      var id := nextFragment; // the tracker gives every write a fragment of its own
      WriteRegisters(owner, fragmentSources, id, address, size, reference);
      NumberedWrite(owner, fragmentSources, id, address, size, reference.(offset := reference.offset - address));
      owner := Write(owner, address, size, id);
      nextFragment := id + 1;
      fragmentSources := fragmentSources[id := reference.(offset := reference.offset - address)];
    }

    method RegisterElements(address: nat, size: nat, elements: nat, stride: nat, reference: Reference)
      requires Valid()
      modifies this
      ensures Valid() && IsStrided(old(View()), View(), address, size, elements, stride, reference)
    {
      ghost var m := View();
      for i := 0 to elements
        invariant Valid() && IsStrided(m, View(), address, size, i, stride, reference)
      {
        RegisterElement(m, address, size, i, stride, reference);
      }
    }

    method RegisterElement(ghost m: Origins, address: nat, size: nat, i: nat, stride: nat, reference: Reference)
      requires Valid() && IsStrided(m, View(), address, size, i, stride, reference)
      modifies this
      ensures Valid() && IsStrided(m, View(), address, size, i + 1, stride, reference)
    {
      NextElement(m, View(), address, size, i, stride, reference);
      RegisterUnlocked(address + i * stride, size, reference.(offset := reference.offset + i * stride));
    }

    /** register_source; an absent object offset means the address itself. */
    method RegisterSource(address: nat, size: nat, source: Source, elements: nat, stride: nat, stage: nat,
                          objectOffset: Option<nat>)
      requires Valid() && elements > 0
      modifies this
      ensures Valid()
      ensures var r := Reference(source, stage, if objectOffset.Some? then objectOffset.value else address);
        if stride == 0 then View() == Registered(old(View()), address, size * elements, r)
        else IsStrided(old(View()), View(), address, size, elements, stride, r)
    {
      var offset := if objectOffset.Some? then objectOffset.value else address;
      var reference := Reference(source, stage, offset);
      if size == 0 {
        NothingRegistered(View(), address, elements, stride, reference);
        return;
      }
      if elements == 1 {
        OneElement(View(), address, size, stride, reference);
        RegisterUnlocked(address, size, reference);
      } else if stride == 0 {
        RegisterUnlocked(address, size * elements, reference);
      } else {
        RegisterElements(address, size, elements, stride, reference);
      }
    }

    /** copy_sources. `regions` may be this object, and the two ranges may overlap. */
    method CopySources(regions: HostWriteRegions, to: nat, at: nat, size: nat)
      requires Valid() && regions.Valid()
      modifies this
      ensures Valid() && View() == Copied(old(View()), old(regions.View()), to, at, size)
    {
      if size == 0 {
        assert Copied(View(), regions.View(), to, at, 0) == View();
        return;
      }
      ghost var before, from := View(), regions.View();
      var ok, pending := CollectSpans(regions.owner, regions.fragmentSources, at, size, false);
      PlaceSpans(pending, from, to, at, size);
      OverlayIsCopy(before, from, to, at, size, pending, View());
    }

    method PlaceSpans(pending: seq<SourceSpan>, ghost from: Origins, to: nat, at: nat, ghost size: nat)
      requires Valid() && Collected(from, at, at + size, pending)
      modifies this
      ensures Valid() && IsOverlay(old(View()), from, to, at, pending, View())
    {
      ghost var before, done: seq<SourceSpan> := View(), [];
      assert forall s | s in pending :: Agrees(from, s) && at <= s.start;
      for i := 0 to |pending|
        invariant done == pending[..i] && Valid() && IsOverlay(before, from, to, at, done, View())
      {
        PlaceSpan(before, from, to, at, done, pending[i]);
        done := done + [pending[i]];
      }
      assert done == pending;
    }

    method PlaceSpan(ghost before: Origins, ghost from: Origins, to: nat, at: nat, ghost done: seq<SourceSpan>, entry: SourceSpan)
      requires Valid() && IsOverlay(before, from, to, at, done, View()) && Agrees(from, entry) && at <= entry.start
      modifies this
      ensures Valid() && IsOverlay(before, from, to, at, done + [entry], View())
    {
      var start: nat, length: nat := to + (entry.start - at), entry.end - entry.start;
      OverlayOneMore(before, from, to, at, done, View(), entry, start, length);
      RegisterUnlocked(start, length, entry.reference);
    }

    /** try_get_reference: it succeeds exactly when one origin explains the whole range. */
    method TryGetReference(address: nat, size: nat) returns (reference: Option<Reference>)
      requires Valid() && size > 0
      ensures reference.Some? <==> Uniform(View(), address, size)
      ensures reference.Some? ==> OriginOf(reference.value, 0) == View()[address]
    {
      var ok, spans := CollectSpans(owner, fragmentSources, address, size, true);
      assert forall a: nat :: a in View() <==> a in owner;
      if !ok {
        return None;
      }
      FirstSpanStarts(View(), address, size, spans);
      var r := spans[0].reference;
      for i := 0 to |spans|
        invariant forall j | 0 <= j < i :: Continues(spans[j], r, address)
      {
        if !SameReference(spans[i].reference, r) || spans[i].reference.offset != r.offset + (spans[i].start - address) {
          NotUniform(View(), address, size, spans, r, i);
          return None;
        }
      }
      AllContinue(View(), address, size, spans, r);
      reference := Some(r);
    }
  }
}
