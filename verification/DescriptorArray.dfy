/** Finding the descriptors of an array binding inside a descriptor buffer, where only the opaque bytes
    of known descriptors tell the slots apart (src/execute_commands.cpp:1144-1283). */
module DescriptorArray {
  import opened Bytes

  datatype Access = Access(buffer: nat, offset: nat, size: nat)

  /** A descriptor whose bytes are known; no access is the null descriptor. */
  datatype Payload = Payload(hasAddress: bool, bytes: seq<byte>, kind: nat, resource: nat, access: Option<Access>)

  /** The mapped descriptor buffer and the descriptors that may be in it. */
  datatype Table = Table(memory: seq<byte>, payloads: seq<Payload>)

  /** The type of the binding in its layout; a mutable one takes any kind. */
  datatype Layout = Mutable | Of(kind: nat)

  // ---- one slot

  predicate MatchesSlot(t: Table, p: Payload, layout: Layout, at: nat) {
    && p.hasAddress && p.bytes != [] && (layout == Mutable || p.kind == layout.kind)
    && at + |p.bytes| <= |t.memory| && t.memory[at..at + |p.bytes|] == p.bytes
  }

  predicate Occupied(t: Table, layout: Layout, at: nat) {
    exists p :: p in t.payloads && MatchesSlot(t, p, layout, at)
  }

  /** Descriptors of different resources have the bytes of this slot. */
  predicate IsAmbiguous(t: Table, layout: Layout, at: nat) {
    exists p, q :: (p in t.payloads && q in t.payloads && p.resource != q.resource
                    && MatchesSlot(t, p, layout, at) && MatchesSlot(t, q, layout, at))
  }

  /** The last of the descriptors that match. */
  predicate LastMatch(t: Table, layout: Layout, at: nat, p: Payload) {
    exists j :: 0 <= j < |t.payloads| && t.payloads[j] == p && IsLast(t, layout, at, j)
  }

  predicate IsLast(t: Table, layout: Layout, at: nat, j: nat) {
    j < |t.payloads| && MatchesSlot(t, t.payloads[j], layout, at)
    && forall k | j < k < |t.payloads| :: !MatchesSlot(t, t.payloads[k], layout, at)
  }

  datatype Slot = Empty | Ambiguous | Holds(payload: Payload)

  /** find_descriptor_buffer_resource; ambiguity stops the program. */
  method FindResource(t: Table, layout: Layout, at: nat) returns (slot: Slot)
    ensures slot.Empty? ==> !Occupied(t, layout, at)
    ensures slot.Holds? ==> Occupied(t, layout, at) && LastMatch(t, layout, at, slot.payload)
    ensures slot.Holds? ==> forall p | p in t.payloads && MatchesSlot(t, p, layout, at) :: p.resource == slot.payload.resource
    ensures slot.Ambiguous? <==> IsAmbiguous(t, layout, at)
  {
    if at >= |t.memory| {
      return Empty;
    }
    slot := Empty;
    ghost var last: nat := 0;
    for i := 0 to |t.payloads|
      invariant slot.Empty? ==> forall j | 0 <= j < i :: !MatchesSlot(t, t.payloads[j], layout, at)
      invariant slot.Holds? ==> last < i && t.payloads[last] == slot.payload && MatchesSlot(t, slot.payload, layout, at)
      invariant slot.Holds? ==> forall j | last < j < i :: !MatchesSlot(t, t.payloads[j], layout, at)
      invariant slot.Holds? ==> (forall j | 0 <= j < i && MatchesSlot(t, t.payloads[j], layout, at) ::
                                   t.payloads[j].resource == slot.payload.resource)
      invariant !slot.Ambiguous?
    {
      var p := t.payloads[i];
      if !p.hasAddress || p.bytes == [] || (layout != Mutable && p.kind != layout.kind) || |p.bytes| > |t.memory| - at
         || t.memory[at..at + |p.bytes|] != p.bytes
      {
        continue;
      }
      if slot.Holds? && slot.payload.resource != p.resource {
        assert MatchesSlot(t, p, layout, at) && p in t.payloads;
        return Ambiguous;
      }
      slot, last := Holds(p), i;
    }
    assert slot.Holds? ==> IsLast(t, layout, at, last);
  }

  // ---- the stride of a mutable array

  /** All slots behind the first are occupied, and the last one starts in the binding. */
  ghost predicate Fits(t: Table, start: nat, end: nat, count: nat, layout: Layout, stride: nat)
    requires count > 0
  {
    && start + stride * (count - 1) < end
    && forall i | 1 <= i < count :: Occupied(t, layout, start + stride * i)
  }

  /** The sizes of the known descriptors, and the binding divided evenly. */
  predicate IsPossible(t: Table, first: nat, start: nat, end: nat, count: nat, stride: nat)
    requires count > 0 && start < end
  {
    || stride == first
    || (exists p :: p in t.payloads && p.hasAddress && p.bytes != [] && stride == |p.bytes|)
    || ((end - start) % count == 0 && stride == (end - start) / count)
  }

  ghost predicate IsCandidate(t: Table, first: nat, start: nat, end: nat, count: nat, layout: Layout, stride: nat)
    requires count > 0 && start < end
  {
    IsPossible(t, first, start, end, count, stride) && stride >= first && Fits(t, start, end, count, layout, stride)
  }

  ghost predicate IsOnlyCandidate(t: Table, first: nat, start: nat, end: nat, count: nat, layout: Layout, stride: nat)
    requires count > 0 && start < end
  {
    && IsCandidate(t, first, start, end, count, layout, stride)
    && forall s: nat | IsCandidate(t, first, start, end, count, layout, s) :: s == stride
  }

  predicate Increasing(s: seq<nat>) {
    forall i, j | 0 <= i < j < |s| :: s[i] < s[j]
  }

  /** Sorted and without repetition. */
  function InsertNew(v: nat, s: seq<nat>): (r: seq<nat>)
    requires Increasing(s)
    ensures Increasing(r) && (forall x: nat :: x in r <==> x == v || x in s)
    ensures r != [] && (r[0] == v || (s != [] && r[0] == s[0])) && r[0] <= v
  {
    if s == [] || v < s[0] then [v] + s
    else if v == s[0] then s
    else
      var rest := InsertNew(v, s[1..]);
      assert s == [s[0]] + s[1..];
      assert forall x | x in rest :: x == v || x in s[1..];
      [s[0]] + rest
  }

  function SortUnique(s: seq<nat>): (r: seq<nat>)
    ensures Increasing(r) && forall x: nat :: x in r <==> x in s
  {
    if s == [] then [] else
      assert s == [s[0]] + s[1..];
      InsertNew(s[0], SortUnique(s[1..]))
  }

  /** The division behind the bound: a stride is not above it exactly when the last slot starts in time. */
  lemma MaxStride(start: nat, end: nat, count: nat, stride: nat)
    requires start < end && count > 1
    ensures stride <= (end - start - 1) / (count - 1) <==> start + stride * (count - 1) < end
  {
    var room, n: nat := end - start - 1, count - 1;
    var q := room / n;
    assert room == q * n + room % n;
    if stride <= q {
      MulMonotone(stride, q, n);
    } else {
      MulMonotone(q + 1, stride, n);
    }
  }

  lemma MulMonotone(a: nat, b: nat, n: nat)
    requires a <= b
    ensures a * n <= b * n
  {}

  method PossibleStrides(t: Table, first: nat, start: nat, end: nat, count: nat) returns (strides: seq<nat>)
    requires count > 0 && start < end
    ensures Increasing(strides) && forall s: nat :: s in strides <==> IsPossible(t, first, start, end, count, s)
  {
    strides := [first];
    for i := 0 to |t.payloads|
      invariant forall s: nat :: s in strides <==> s == first || FromPayload(t.payloads[..i], s)
    {
      assert t.payloads[..i + 1] == t.payloads[..i] + [t.payloads[i]];
      FromOneMore(t.payloads[..i], t.payloads[i]);
      if !t.payloads[i].hasAddress || t.payloads[i].bytes == [] {
        continue;
      }
      strides := strides + [|t.payloads[i].bytes|];
    }
    assert t.payloads[..|t.payloads|] == t.payloads;
    var span := end - start;
    if span % count == 0 {
      strides := strides + [span / count];
    }
    strides := SortUnique(strides);
  }

  predicate FromPayload(payloads: seq<Payload>, s: nat) {
    exists p :: p in payloads && p.hasAddress && p.bytes != [] && s == |p.bytes|
  }

  lemma FromOneMore(payloads: seq<Payload>, p: Payload)
    ensures forall s: nat :: FromPayload(payloads + [p], s) <==> (FromPayload(payloads, s)
                                                                  || (p.hasAddress && p.bytes != [] && s == |p.bytes|))
  {
    assert forall q :: q in payloads + [p] <==> q in payloads || q == p;
  }

  datatype Answer = Aborted | Answer(yes: bool)

  /** Walking the slots behind the first, an ambiguous one is met before an empty one. */
  predicate WalkStops(t: Table, layout: Layout, start: nat, count: nat, stride: nat) {
    exists i: nat :: i < count && WalkStopsAt(t, layout, start, stride, i)
  }

  predicate WalkStopsAt(t: Table, layout: Layout, start: nat, stride: nat, i: nat) {
    && i >= 1 && IsAmbiguous(t, layout, start + stride * i)
    && forall j | 1 <= j < i :: Occupied(t, layout, start + stride * j)
  }

  /** The first i slots behind the first one are occupied, and not ambiguous. */
  predicate Walked(t: Table, layout: Layout, start: nat, stride: nat, i: nat) {
    forall j: nat | 1 <= j < i :: Occupied(t, layout, start + stride * j) && !IsAmbiguous(t, layout, start + stride * j)
  }

  lemma WalkGoesOn(t: Table, layout: Layout, start: nat, count: nat, stride: nat, i: nat)
    requires Walked(t, layout, start, stride, i) && 1 <= i
    ensures i < count && IsAmbiguous(t, layout, start + stride * i) ==> WalkStops(t, layout, start, count, stride)
    ensures i >= count || (!Occupied(t, layout, start + stride * i) && !IsAmbiguous(t, layout, start + stride * i)) ==>
      !WalkStops(t, layout, start, count, stride)
  {
    if i < count && IsAmbiguous(t, layout, start + stride * i) {
      assert WalkStopsAt(t, layout, start, stride, i);
    }
    forall k: nat | k < count && WalkStopsAt(t, layout, start, stride, k) ensures k >= i && (k > i ==> Occupied(t, layout, start + stride * i)) {}
  }

  /** All slots behind the first are occupied. */
  method MatchesAll(t: Table, layout: Layout, start: nat, count: nat, stride: nat) returns (answer: Answer)
    ensures answer.Answer? ==> (answer.yes <==> forall i: nat | 1 <= i < count :: Occupied(t, layout, start + stride * i))
    ensures answer.Aborted? <==> WalkStops(t, layout, start, count, stride)
  {
    var i: nat := 1;
    while i < count
      invariant i >= 1 && Walked(t, layout, start, stride, i)
    {
      var slot := FindResource(t, layout, start + stride * i);
      WalkGoesOn(t, layout, start, count, stride, i);
      if slot.Ambiguous? {
        return Aborted;
      }
      if slot.Empty? {
        return Answer(false);
      }
      i := i + 1;
    }
    WalkGoesOn(t, layout, start, count, stride, i);
    return Answer(true);
  }

  datatype Search = Stopped | NoStride | Stride(stride: nat)

  /** Trying this stride runs into an ambiguous slot. */
  ghost predicate ProbeStops(t: Table, first: nat, start: nat, end: nat, count: nat, layout: Layout, stride: nat)
    requires count > 0 && start < end
  {
    && IsPossible(t, first, start, end, count, stride) && first <= stride && start + stride * (count - 1) < end
    && WalkStops(t, layout, start, count, stride)
  }

  /** Two candidates are found before this stride is tried. */
  ghost predicate TwoBelow(t: Table, first: nat, start: nat, end: nat, count: nat, layout: Layout, stride: nat)
    requires count > 0 && start < end
  {
    exists r: nat, s: nat :: (r < s < stride && IsCandidate(t, first, start, end, count, layout, r)
                              && IsCandidate(t, first, start, end, count, layout, s))
  }

  /** The search runs into an ambiguous slot before it has given up. */
  ghost predicate SearchStops(t: Table, first: nat, start: nat, end: nat, count: nat, layout: Layout)
    requires count > 0 && start < end
  {
    exists s: nat :: ProbeStops(t, first, start, end, count, layout, s) && !TwoBelow(t, first, start, end, count, layout, s)
  }

  /** After the strides tried so far: none stopped the search, and at most one was a candidate. */
  ghost predicate Searched(t: Table, first: nat, start: nat, end: nat, count: nat, layout: Layout, tried: seq<nat>,
                           candidate: nat)
    requires count > 0 && start < end
  {
    && (forall s | s in tried :: !ProbeStops(t, first, start, end, count, layout, s))
    && (candidate != 0 ==> candidate in tried && IsCandidate(t, first, start, end, count, layout, candidate))
    && (forall s | s in tried && IsCandidate(t, first, start, end, count, layout, s) :: s == candidate)
  }

  lemma TriedAreBelow(strides: seq<nat>, i: nat)
    requires Increasing(strides) && i < |strides|
    ensures forall s: nat :: s in strides[..i] <==> s in strides && s < strides[i]
    ensures strides[..i + 1] == strides[..i] + [strides[i]]
  {
    forall s: nat ensures s in strides[..i] <==> s in strides && s < strides[i] {
      if s in strides && s < strides[i] {
        var j :| 0 <= j < |strides| && strides[j] == s;
        assert strides[..i][j] == s;
      }
    }
  }

  lemma TriedOneMore(t: Table, first: nat, start: nat, end: nat, count: nat, layout: Layout, tried: seq<nat>, s: nat,
                     candidate: nat)
    requires count > 0 && start < end && !ProbeStops(t, first, start, end, count, layout, s)
    requires if IsCandidate(t, first, start, end, count, layout, s)
      then candidate == s && Searched(t, first, start, end, count, layout, tried, 0)
      else Searched(t, first, start, end, count, layout, tried, candidate)
    requires first > 0
    ensures Searched(t, first, start, end, count, layout, tried + [s], candidate)
  {
    var all := tried + [s];
    assert all[|tried|] == s && (forall r | r in all :: r in tried || r == s) && forall r | r in tried :: r in all;
  }

  lemma SearchEnds(t: Table, first: nat, start: nat, end: nat, count: nat, layout: Layout, strides: seq<nat>, candidate: nat)
    requires count > 0 && start < end && first > 0 && Searched(t, first, start, end, count, layout, strides, candidate)
    requires forall s: nat :: s in strides <==> IsPossible(t, first, start, end, count, s)
    ensures IsSearchResult(t, first, start, end, count, layout, if candidate == 0 then NoStride else Stride(candidate))
  {}

  lemma SecondCandidate(t: Table, first: nat, start: nat, end: nat, count: nat, layout: Layout, strides: seq<nat>, i: nat,
                        candidate: nat)
    requires count > 0 && start < end && Increasing(strides) && i < |strides| && candidate != 0
    requires forall s: nat :: s in strides <==> IsPossible(t, first, start, end, count, s)
    requires Searched(t, first, start, end, count, layout, strides[..i], candidate)
    requires IsCandidate(t, first, start, end, count, layout, strides[i])
    requires !ProbeStops(t, first, start, end, count, layout, strides[i])
    ensures !SearchStops(t, first, start, end, count, layout)
    ensures forall s: nat :: !IsOnlyCandidate(t, first, start, end, count, layout, s)
  {
    TriedAreBelow(strides, i);
    assert candidate < strides[i];
  }

  lemma SearchIsStopped(t: Table, first: nat, start: nat, end: nat, count: nat, layout: Layout, strides: seq<nat>, i: nat,
                        candidate: nat)
    requires count > 0 && start < end && Increasing(strides) && i < |strides|
    requires forall s: nat :: s in strides <==> IsPossible(t, first, start, end, count, s)
    requires Searched(t, first, start, end, count, layout, strides[..i], candidate)
    requires ProbeStops(t, first, start, end, count, layout, strides[i])
    ensures SearchStops(t, first, start, end, count, layout)
  {
    TriedAreBelow(strides, i);
    assert !TwoBelow(t, first, start, end, count, layout, strides[i]);
  }

  /** One stride that is possible. The source computes the bound once for all of them. */
  method TryStride(t: Table, layout: Layout, first: nat, start: nat, end: nat, count: nat, s: nat) returns (answer: Answer)
    requires start < end && count > 1
    requires IsPossible(t, first, start, end, count, s)
    ensures answer.Aborted? <==> ProbeStops(t, first, start, end, count, layout, s)
    ensures answer.Answer? ==> (answer.yes <==> IsCandidate(t, first, start, end, count, layout, s))
  {
    var maxStride := (end - start - 1) / (count - 1);
    MaxStride(start, end, count, s);
    if s < first || s > maxStride {
      return Answer(false);
    }
    answer := MatchesAll(t, layout, start, count, s);
  }

  /** The one stride under which every slot matches; several are as good as none, and the search is stopped
      exactly when it comes to an ambiguous slot. */
  ghost predicate IsSearchResult(t: Table, first: nat, start: nat, end: nat, count: nat, layout: Layout, found: Search)
    requires count > 0 && start < end
  {
    && (found.Stopped? <==> SearchStops(t, first, start, end, count, layout))
    && (found.Stride? ==> IsOnlyCandidate(t, first, start, end, count, layout, found.stride))
    && (found.NoStride? ==> forall s: nat :: !IsOnlyCandidate(t, first, start, end, count, layout, s))
  }

  /** One round of the search; None when a second candidate turns up. */
  method SearchRound(t: Table, layout: Layout, first: nat, start: nat, end: nat, count: nat,
                     ghost strides: seq<nat>, ghost i: nat, ghost tried: seq<nat>, s: nat, candidate: nat)
    returns (stopped: bool, next: Option<nat>)
    requires start < end && count > 1 && first > 0
    requires Increasing(strides) && i < |strides| && strides[i] == s && tried == strides[..i]
    requires forall r: nat :: r in strides <==> IsPossible(t, first, start, end, count, r)
    requires Searched(t, first, start, end, count, layout, tried, candidate)
    ensures stopped ==> IsSearchResult(t, first, start, end, count, layout, Stopped)
    ensures !stopped && next.None? ==> IsSearchResult(t, first, start, end, count, layout, NoStride)
    ensures !stopped && next.Some? ==> Searched(t, first, start, end, count, layout, tried + [s], next.value)
  {
    TriedAreBelow(strides, i);
    assert s in strides;
    var answer := TryStride(t, layout, first, start, end, count, s);
    if answer.Aborted? {
      SearchIsStopped(t, first, start, end, count, layout, strides, i, candidate);
      return true, None;
    }
    if answer.yes && candidate != 0 {
      SecondCandidate(t, first, start, end, count, layout, strides, i, candidate);
      return false, None;
    }
    stopped, next := false, Some(if answer.yes then s else candidate);
    TriedOneMore(t, first, start, end, count, layout, tried, s, next.value);
  }

  method FindStride(t: Table, layout: Layout, first: nat, start: nat, end: nat, count: nat) returns (found: Search)
    requires start < end && count > 1 && first > 0
    ensures IsSearchResult(t, first, start, end, count, layout, found)
  {
    var candidate: nat := 0;
    var strides := PossibleStrides(t, first, start, end, count);
    ghost var tried: seq<nat> := [];
    for i := 0 to |strides|
      invariant tried == strides[..i] && Searched(t, first, start, end, count, layout, tried, candidate)
    {
      var s := strides[i];
      var stopped, next := SearchRound(t, layout, first, start, end, count, strides, i, tried, s, candidate);
      if stopped {
        return Stopped;
      }
      if next.None? {
        return NoStride;
      }
      candidate := next.value;
      tried := tried + [s];
    }
    assert tried == strides;
    SearchEnds(t, first, start, end, count, layout, strides, candidate);
    return if candidate == 0 then NoStride else Stride(candidate);
  }

  // ---- the whole binding

  class Binding {
    var kind: nat
    var backed: bool
    var buffers: seq<Option<Access>>
    var offsets: seq<nat>
    var kinds: seq<nat>

    constructor () {}
  }

  /** The stride a binding is read with, given its first descriptor. */
  ghost predicate IsStride(t: Table, first: Payload, layout: Layout, start: nat, end: nat, count: nat, stride: nat)
    requires count > 0 && start < end
  {
    if layout == Mutable && count > 1 then IsOnlyCandidate(t, |first.bytes|, start, end, count, layout, stride)
    else stride == |first.bytes|
  }

  /** Slot i starts in the binding and holds a descriptor. */
  ghost predicate SlotResolves(t: Table, layout: Layout, start: nat, end: nat, stride: nat, i: nat) {
    start + stride * i < end && Occupied(t, layout, start + stride * i)
  }

  /** Slot i as it was resolved. */
  ghost predicate IsResolved(t: Table, layout: Layout, start: nat, end: nat, stride: nat, i: nat,
                             access: Option<Access>, at: nat, kind: nat)
  {
    && at == start + stride * i < end
    && exists p :: LastMatch(t, layout, at, p) && access == p.access && kind == p.kind
  }

  ghost predicate IsArray(t: Table, layout: Layout, start: nat, end: nat, count: nat, stride: nat,
                          buffers: seq<Option<Access>>, offsets: seq<nat>, kinds: seq<nat>)
  {
    && |buffers| == |offsets| == |kinds| == count
    && forall i | 0 <= i < count :: IsResolved(t, layout, start, end, stride, i, buffers[i], offsets[i], kinds[i])
  }

  datatype Slots = SlotsStopped | SlotsFailed | Slots(buffers: seq<Option<Access>>, offsets: seq<nat>, kinds: seq<nat>)

  /** The guard in front of the multiplication only turns away slots that lie behind the end anyway. */
  lemma GuardIsSafe(start: nat, end: nat, stride: nat, i: nat)
    requires start < end && i > 0 && stride > (end - start) / i
    ensures start + stride * i >= end
  {
    var room: nat := end - start;
    var q := room / i;
    assert room == q * i + room % i;
    MulMonotone(q + 1, stride, i);
  }

  /** Resolving the slots in turn comes to an ambiguous one. */
  ghost predicate SlotsStop(t: Table, layout: Layout, start: nat, end: nat, count: nat, stride: nat) {
    exists i: nat :: i < count && SlotsStopAt(t, layout, start, end, stride, i)
  }

  ghost predicate SlotsStopAt(t: Table, layout: Layout, start: nat, end: nat, stride: nat, i: nat) {
    && start + stride * i < end && IsAmbiguous(t, layout, start + stride * i)
    && forall j: nat | j < i :: SlotResolves(t, layout, start, end, stride, j)
  }

  /** The first i slots resolve, and none of them is ambiguous. */
  ghost predicate AllClear(t: Table, layout: Layout, start: nat, end: nat, stride: nat, i: nat) {
    forall j: nat | j < i :: SlotResolves(t, layout, start, end, stride, j) && !IsAmbiguous(t, layout, start + stride * j)
  }

  lemma StopsHere(t: Table, layout: Layout, start: nat, end: nat, count: nat, stride: nat, i: nat)
    requires AllClear(t, layout, start, end, stride, i)
    ensures i < count && start + stride * i < end && IsAmbiguous(t, layout, start + stride * i) ==>
      SlotsStop(t, layout, start, end, count, stride)
    ensures i >= count || (!SlotResolves(t, layout, start, end, stride, i)
                           && (start + stride * i >= end || !IsAmbiguous(t, layout, start + stride * i))) ==>
      !SlotsStop(t, layout, start, end, count, stride)
  {
    if i < count && start + stride * i < end && IsAmbiguous(t, layout, start + stride * i) {
      assert SlotsStopAt(t, layout, start, end, stride, i);
    }
    forall k: nat | k < count && SlotsStopAt(t, layout, start, end, stride, k)
      ensures k >= i && (k > i ==> SlotResolves(t, layout, start, end, stride, i)) {}
  }

  /** The first i slots, resolved. */
  ghost predicate SoFar(t: Table, layout: Layout, start: nat, end: nat, stride: nat, i: nat, r: Slots) {
    && r.Slots? && AllClear(t, layout, start, end, stride, i)
    && IsArray(t, layout, start, end, i, stride, r.buffers, r.offsets, r.kinds)
  }

  lemma ArrayOneMore(t: Table, layout: Layout, start: nat, end: nat, stride: nat, i: nat, buffers: seq<Option<Access>>,
                     offsets: seq<nat>, kinds: seq<nat>, access: Option<Access>, at: nat, kind: nat)
    requires IsArray(t, layout, start, end, i, stride, buffers, offsets, kinds)
    requires IsResolved(t, layout, start, end, stride, i, access, at, kind)
    ensures IsArray(t, layout, start, end, i + 1, stride, buffers + [access], offsets + [at], kinds + [kind])
  {}

  /** One slot: its place, and what is found there. */
  method ResolveSlot(t: Table, layout: Layout, start: nat, end: nat, stride: nat, i: nat) returns (at: nat, slot: Slot)
    requires start < end
    ensures slot.Empty? ==> !SlotResolves(t, layout, start, end, stride, i)
    ensures slot.Empty? ==> start + stride * i >= end || !IsAmbiguous(t, layout, start + stride * i)
    ensures slot.Ambiguous? ==> start + stride * i < end && IsAmbiguous(t, layout, start + stride * i)
    ensures slot.Holds? ==> SlotResolves(t, layout, start, end, stride, i) && !IsAmbiguous(t, layout, start + stride * i)
    ensures slot.Holds? ==> IsResolved(t, layout, start, end, stride, i, slot.payload.access, at, slot.payload.kind)
  {
    at := 0;
    if i != 0 && stride > (end - start) / i {
      GuardIsSafe(start, end, stride, i);
      return 0, Empty;
    }
    at := start + stride * i;
    if at >= end {
      return at, Empty;
    }
    slot := FindResource(t, layout, at);
  }

  /** Every slot with its own descriptor, or a slot without one; stopped exactly when an ambiguous one is met. */
  ghost predicate IsSlotsResult(t: Table, layout: Layout, start: nat, end: nat, count: nat, stride: nat, r: Slots) {
    && (r.SlotsStopped? <==> SlotsStop(t, layout, start, end, count, stride))
    && (r.SlotsFailed? ==> exists i: nat :: i < count && !SlotResolves(t, layout, start, end, stride, i))
    && (r.Slots? ==> IsArray(t, layout, start, end, count, stride, r.buffers, r.offsets, r.kinds))
  }

  method NextSlot(t: Table, layout: Layout, start: nat, end: nat, count: nat, stride: nat, i: nat, done: Slots)
    returns (r: Slots)
    requires start < end && i < count && SoFar(t, layout, start, end, stride, i, done)
    ensures if r.Slots? then SoFar(t, layout, start, end, stride, i + 1, r)
            else IsSlotsResult(t, layout, start, end, count, stride, r)
  {
    var at, slot := ResolveSlot(t, layout, start, end, stride, i);
    StopsHere(t, layout, start, end, count, stride, i);
    match slot
    case Ambiguous => r := SlotsStopped;
    case Empty => r := SlotsFailed;
    case Holds(p) =>
      ArrayOneMore(t, layout, start, end, stride, i, done.buffers, done.offsets, done.kinds, p.access, at, p.kind);
      r := Slots(done.buffers + [p.access], done.offsets + [at], done.kinds + [p.kind]);
  }

  lemma SlotsFinished(t: Table, layout: Layout, start: nat, end: nat, count: nat, stride: nat, r: Slots)
    requires SoFar(t, layout, start, end, stride, count, r)
    ensures IsSlotsResult(t, layout, start, end, count, stride, r)
  {
    StopsHere(t, layout, start, end, count, stride, count);
  }

  method ResolveSlots(t: Table, layout: Layout, start: nat, end: nat, count: nat, stride: nat) returns (r: Slots)
    requires start < end
    ensures IsSlotsResult(t, layout, start, end, count, stride, r)
  {
    r := Slots([], [], []);
    for i := 0 to count
      invariant SoFar(t, layout, start, end, stride, i, r)
    {
      r := NextSlot(t, layout, start, end, count, stride, i, r);
      if !r.Slots? {
        return;
      }
    }
    SlotsFinished(t, layout, start, end, count, stride, r);
  }

  /** What the binding should become: every slot of the one possible stride. */
  ghost predicate IsResolution(t: Table, layout: Layout, start: nat, end: nat, count: nat, stride: nat)
    requires count > 0 && start < end
  {
    && LeadsTo(t, layout, start, end, count, stride)
    && forall i: nat | i < count :: SlotResolves(t, layout, start, end, stride, i)
  }

  lemma LastMatchIsUnique(t: Table, layout: Layout, at: nat, p: Payload, q: Payload)
    requires LastMatch(t, layout, at, p) && LastMatch(t, layout, at, q)
    ensures p == q
  {
    var j :| 0 <= j < |t.payloads| && t.payloads[j] == p && IsLast(t, layout, at, j);
    var k :| 0 <= k < |t.payloads| && t.payloads[k] == q && IsLast(t, layout, at, k);
  }

  lemma ArrayResolves(t: Table, layout: Layout, start: nat, end: nat, count: nat, stride: nat,
                      buffers: seq<Option<Access>>, offsets: seq<nat>, kinds: seq<nat>)
    requires IsArray(t, layout, start, end, count, stride, buffers, offsets, kinds)
    ensures forall i: nat | i < count :: SlotResolves(t, layout, start, end, stride, i)
  {
    forall i: nat | i < count ensures SlotResolves(t, layout, start, end, stride, i) {
      assert IsResolved(t, layout, start, end, stride, i, buffers[i], offsets[i], kinds[i]);
    }
  }

  /** The binding's first descriptor makes this its stride. */
  ghost predicate LeadsTo(t: Table, layout: Layout, start: nat, end: nat, count: nat, stride: nat)
    requires count > 0 && start < end
  {
    exists first :: LastMatch(t, layout, start, first) && IsStride(t, first, layout, start, end, count, stride)
  }

  /** Choosing the stride comes to an ambiguous slot: the first one, or one that the search walks over. */
  ghost predicate ChoiceStops(t: Table, layout: Layout, start: nat, end: nat, count: nat)
    requires count > 0 && start < end
  {
    || IsAmbiguous(t, layout, start)
    || (layout == Mutable && count > 1
        && exists first :: LastMatch(t, layout, start, first) && SearchStops(t, |first.bytes|, start, end, count, layout))
  }

  /** The first descriptor, and the stride it leads to. */
  method ChooseStride(t: Table, layout: Layout, start: nat, end: nat, count: nat) returns (found: Search)
    requires count > 0 && start < end
    ensures found.Stride? ==> LeadsTo(t, layout, start, end, count, found.stride)
    ensures !found.Stopped? ==> forall s: nat | LeadsTo(t, layout, start, end, count, s) :: found == Stride(s)
    ensures found.Stopped? <==> ChoiceStops(t, layout, start, end, count)
  {
    var slot := FindResource(t, layout, start);
    if slot.Ambiguous? {
      return Stopped;
    }
    if slot.Empty? {
      return NoStride;
    }
    var first := slot.payload;
    if count > 1 && layout == Mutable {
      found := FindStride(t, layout, |first.bytes|, start, end, count);
    } else {
      found := Stride(|first.bytes|);
    }
    forall p | LastMatch(t, layout, start, p) ensures p == first {
      LastMatchIsUnique(t, layout, start, p, first);
    }
  }

  /** Some slot that has to be looked at is ambiguous. */
  ghost predicate Stops(t: Table, layout: Layout, start: nat, end: nat, count: nat)
    requires count > 0 && start < end
  {
    || ChoiceStops(t, layout, start, end, count)
    || exists s: nat :: LeadsTo(t, layout, start, end, count, s) && SlotsStop(t, layout, start, end, count, s)
  }

  /** resolve_descriptor_buffer_binding: unless a slot it has to look at is ambiguous, it resolves the array
      whenever there is a resolution, and then to it; in every other case the outputs are as before. */
  method ResolveBinding(t: Table, layout: Layout, start: nat, end: nat, count: nat, dst: Binding) returns (answer: Answer)
    modifies dst
    ensures answer == Answer(true) ==> count > 0 && start < end
    ensures answer == Answer(true) ==> exists stride: nat ::
              (IsResolution(t, layout, start, end, count, stride)
               && IsArray(t, layout, start, end, count, stride, dst.buffers, dst.offsets, dst.kinds))
    ensures answer == Answer(true) ==> dst.kind == dst.kinds[0] && !dst.backed
    ensures answer != Answer(true) ==> unchanged(dst)
    ensures answer == Answer(false) && count > 0 && start < end ==>
      forall stride: nat :: !IsResolution(t, layout, start, end, count, stride)
    ensures answer.Aborted? <==> count > 0 && start < end && Stops(t, layout, start, end, count)
  {
    if count == 0 || start >= end {
      return Answer(false);
    }
    var found := ChooseStride(t, layout, start, end, count);
    if found.Stopped? {
      return Aborted;
    }
    if found.NoStride? {
      return Answer(false);
    }
    var slots := ResolveSlots(t, layout, start, end, count, found.stride);
    if slots.SlotsStopped? {
      return Aborted;
    }
    if slots.SlotsFailed? {
      return Answer(false);
    }
    ArrayResolves(t, layout, start, end, count, found.stride, slots.buffers, slots.offsets, slots.kinds);
    dst.kind := slots.kinds[0];
    dst.backed := false;
    dst.buffers, dst.offsets, dst.kinds := slots.buffers, slots.offsets, slots.kinds;
    assert IsResolution(t, layout, start, end, count, found.stride);
    assert IsArray(t, layout, start, end, count, found.stride, dst.buffers, dst.offsets, dst.kinds);
    return Answer(true);
  }

  lemma {:induction false} SlotsGrow(start: nat, stride: nat, i: nat, j: nat)
    requires stride > 0 && i <= j
    ensures start + stride * i <= start + stride * j
    ensures i < j ==> start + stride * i < start + stride * j
    decreases j
  {
    if i < j {
      SlotsGrow(start, stride, i, j - 1);
      assert stride * j == stride * (j - 1) + stride;
    }
  }

  /** A resolved array's offsets strictly increase and stay in the binding. */
  lemma OffsetsIncrease(t: Table, layout: Layout, start: nat, end: nat, count: nat, stride: nat,
                        buffers: seq<Option<Access>>, offsets: seq<nat>, kinds: seq<nat>)
    requires count > 0 && start < end && IsResolution(t, layout, start, end, count, stride)
    requires IsArray(t, layout, start, end, count, stride, buffers, offsets, kinds)
    ensures Increasing(offsets) && forall i | 0 <= i < count :: start <= offsets[i] < end
  {
    var first :| LastMatch(t, layout, start, first) && IsStride(t, first, layout, start, end, count, stride);
    assert first.bytes != [] && stride > 0;
    forall i | 0 <= i < count ensures offsets[i] == start + stride * i < end {
      assert IsResolved(t, layout, start, end, stride, i, buffers[i], offsets[i], kinds[i]);
    }
    forall i, j | 0 <= i < j < count ensures offsets[i] < offsets[j] {
      SlotsGrow(start, stride, i, j);
    }
    forall i | 0 <= i < count ensures start <= offsets[i] {
      SlotsGrow(start, stride, 0, i);
    }
  }
}
