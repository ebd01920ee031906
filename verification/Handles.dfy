/** The handle maps on both sides: trace_remap gives every handle the application creates an index, and
    replay_remap holds the replayed object under that index (src/containers.h:666-833). */
module Handles {
  import opened Bytes

  const CONTAINER_INVALID_INDEX: nat := 0xFFFF_FFFF
  const CONTAINER_NULL_VALUE: nat := 0xFFFF_FFFE

  datatype Mode = Unknown | Automatic | Desired

  // ---- capture side, as a value

  /** live: index of the object each live handle stands for. known: handles at() does not throw on. */
  datatype Trace = Trace(live: map<nat, nat>, known: set<nat>, indices: set<nat>, size: nat, mode: Mode)

  const EMPTY_TRACE: Trace := Trace(map[], {0}, {}, 0, Unknown)

  function RequestedMode(desired: Option<nat>): Mode {
    if desired.Some? then Desired else Automatic
  }

  function NewIndex(t: Trace, desired: Option<nat>): nat {
    if desired.Some? then desired.value else t.size
  }

  /** What add() asserts: a real handle, one indexing mode throughout, and no index given out twice. */
  predicate CanAdd(t: Trace, key: nat, desired: Option<nat>) {
    && key != 0 && t.mode in {Unknown, RequestedMode(desired)}
    && NewIndex(t, desired) !in t.indices && NewIndex(t, desired) < CONTAINER_NULL_VALUE
  }

  function Added(t: Trace, key: nat, desired: Option<nat>): Trace {
    var index := NewIndex(t, desired);
    Trace(t.live[key := index], t.known + {key}, t.indices + {index},
      if t.size < index + 1 then index + 1 else t.size, RequestedMode(desired))
  }

  function Unset(t: Trace, key: nat): Trace {
    if key == 0 then t else t.(live := t.live - {key})
  }

  // ---- replay side, as a value

  datatype Replay = Replay(remapping: seq<nat>, reverse: map<nat, nat>)

  function ReplaySet(r: Replay, index: nat, handle: nat): Replay
    requires index < |r.remapping|
  {
    Replay(r.remapping[index := handle], r.reverse[handle := index])
  }

  /** The dead handle keeps an entry: it is mapped to 0, not forgotten. */
  function ReplayUnset(r: Replay, index: nat): Replay
    requires index < |r.remapping|
  {
    Replay(r.remapping[index := 0], r.reverse[r.remapping[index] := 0])
  }

  // ---- the objects

  class Tracked {
    const index: nat
    var destroyed: bool
    constructor (index: nat)
      ensures this.index == index && !destroyed
    {
      this.index, destroyed := index, false;
    }
  }

  ghost predicate SortedByIndex(storage: seq<Tracked>) {
    forall i, j | 0 <= i < j < |storage| :: storage[i].index < storage[j].index
  }

  function LowerBound(storage: seq<Tracked>, index: nat): (at: nat)
    requires SortedByIndex(storage)
    ensures at <= |storage|
    ensures forall i | 0 <= i < at :: storage[i].index < index
    ensures forall i | at <= i < |storage| :: index <= storage[i].index
  {
    if storage == [] || index <= storage[0].index then 0 else 1 + LowerBound(storage[1..], index)
  }

  ghost function LiveIndices(lookup: map<nat, Tracked?>): map<nat, nat> {
    map key | key in lookup && lookup[key] != null :: lookup[key].index
  }

  ghost predicate WellKept(lookup: map<nat, Tracked?>, storage: seq<Tracked>, size: nat) {
    && 0 in lookup && lookup[0] == null
    && (forall key | key in lookup && lookup[key] != null :: lookup[key] in storage)
    && SortedByIndex(storage)
    && (forall p | p in storage :: p.index < size)
  }

  lemma KeptAfterInsert(lookup: map<nat, Tracked?>, storage: seq<Tracked>, size: nat, key: nat, p: Tracked, bound: nat)
    requires WellKept(lookup, storage, size) && key != 0
    requires p.index !in Indices(storage) && p.index < bound && size <= bound
    ensures WellKept(lookup[key := p], Inserted(storage, p), bound)
  {}

  lemma LiveAfterInsert(lookup: map<nat, Tracked?>, key: nat, p: Tracked)
    ensures LiveIndices(lookup[key := p]) == LiveIndices(lookup)[key := p.index]
  {}

  lemma LiveAfterErase(lookup: map<nat, Tracked?>, key: nat)
    ensures LiveIndices(lookup[key := null]) == LiveIndices(lookup) - {key}
  {}

  function Indices(storage: seq<Tracked>): set<nat> {
    set p | p in storage :: p.index
  }

  /** storage.insert at the lower bound of the new index. */
  function Inserted(storage: seq<Tracked>, p: Tracked): (r: seq<Tracked>)
    requires SortedByIndex(storage) && p.index !in Indices(storage)
    ensures SortedByIndex(r)
    ensures p in r && (forall q | q in storage :: q in r) && (forall q | q in r :: q == p || q in storage)
    ensures Indices(r) == Indices(storage) + {p.index}
  {
    var at := LowerBound(storage, p.index);
    var r := storage[..at] + [p] + storage[at..];
    assert forall i | 0 <= i < |storage| :: storage[i].index in Indices(storage);
    InsertedInOrder(storage, p, at);
    InsertedElements(storage, p, at);
    r
  }

  lemma InsertedInOrder(storage: seq<Tracked>, p: Tracked, at: nat)
    requires SortedByIndex(storage) && at <= |storage|
    requires forall i | 0 <= i < at :: storage[i].index < p.index
    requires forall i | at <= i < |storage| :: p.index < storage[i].index
    ensures SortedByIndex(storage[..at] + [p] + storage[at..])
  {
    var r := storage[..at] + [p] + storage[at..];
    forall i, j | 0 <= i < j < |r| ensures r[i].index < r[j].index {
      assert i < at ==> r[i] == storage[i];
      assert j > at ==> r[j] == storage[j - 1];
    }
  }

  lemma InsertedElements(storage: seq<Tracked>, p: Tracked, at: nat)
    requires at <= |storage|
    ensures var r := storage[..at] + [p] + storage[at..];
      p in r && (forall q | q in storage :: q in r) && (forall q | q in r :: q == p || q in storage)
  {
    var r := storage[..at] + [p] + storage[at..];
    assert r[at] == p;
    forall q | q in storage ensures q in r {
      var i :| 0 <= i < |storage| && storage[i] == q;
      assert r[if i < at then i else i + 1] == q;
    }
  }

  class TraceRemap {
    var lookup: map<nat, Tracked?>
    var storage: seq<Tracked> // sorted by index
    var size: nat
    var mode: Mode

    ghost predicate Valid()
      reads this
    {
      WellKept(lookup, storage, size)
    }

    ghost function View(): Trace
      reads this
    {
      Trace(LiveIndices(lookup), lookup.Keys, Indices(storage), size, mode)
    }

    constructor ()
      ensures Valid() && View() == EMPTY_TRACE
    {
      lookup, storage, size, mode := map[0 := null], [], 0, Unknown;
    }

    method Add(key: nat, desired: Option<nat>) returns (p: Tracked)
      requires Valid() && CanAdd(View(), key, desired)
      modifies this
      ensures Valid() && View() == Added(old(View()), key, desired)
      ensures fresh(p) && p.index == NewIndex(old(View()), desired) && key in lookup && lookup[key] == p
    {
      mode := RequestedMode(desired);
      var index := NewIndexOf(desired);
      var next := if desired.None? then size + 1 else size;
      p := new Tracked(index);
      if desired.Some? && size < index + 1 {
        next := index + 1;
      }
      Insert(key, p, next);
    }

    method Insert(key: nat, p: Tracked, next: nat)
      requires Valid() && key != 0 && p.index !in Indices(storage) && p.index < next && size <= next
      modifies this`lookup, this`storage, this`size
      ensures Valid() && lookup == old(lookup)[key := p]
      ensures View() == Trace(old(View()).live[key := p.index], old(lookup.Keys) + {key}, old(Indices(storage)) + {p.index}, next, mode)
    {
      KeptAfterInsert(lookup, storage, size, key, p, next);
      LiveAfterInsert(lookup, key, p);
      lookup := lookup[key := p];
      storage := Inserted(storage, p);
      size := next;
    }

    function NewIndexOf(desired: Option<nat>): nat
      reads this
    {
      if desired.Some? then desired.value else size
    }

    method Remove(key: nat) returns (p: Tracked?)
      requires Valid() && (key == 0 || key in View().live)
      modifies this, lookup[key]
      ensures Valid() && View() == Unset(old(View()), key)
      ensures key == 0 ==> p == null
      ensures key != 0 ==> p != null && p.index == old(View()).live[key] && p.destroyed
    {
      if key == 0 {
        return null;
      }
      p := lookup[key];
      p.destroyed := true;
      lookup := lookup[key := null];
      LiveAfterErase(old(lookup), key);
      assert lookup.Keys == old(lookup.Keys);
    }

    /** write_handle: the index of a live handle, the null marker for the null handle. */
    method IndexOrNull(key: nat) returns (index: nat)
      requires Valid() && (key == 0 || key in View().live)
      ensures index == if key == 0 then CONTAINER_NULL_VALUE else View().live[key]
    {
      if key == 0 {
        return CONTAINER_NULL_VALUE;
      }
      var p := lookup[key];
      return p.index;
    }

    method Contains(key: nat) returns (found: bool)
      requires Valid()
      ensures found <==> key in View().live
    {
      found := key != 0 && key in lookup && lookup[key] != null;
    }
  }

  class ReplayRemap {
    var remapping: seq<nat>
    var reverse: map<nat, nat>

    function View(): Replay
      reads this
    {
      Replay(remapping, reverse)
    }

    constructor (size: nat)
      ensures View() == Replay(seq(size, _ => 0), map[])
    {
      remapping, reverse := seq(size, _ => 0), map[];
    }

    method Set(index: nat, handle: nat)
      requires index < |remapping| && remapping[index] == 0 && handle != 0
      modifies this
      ensures View() == ReplaySet(old(View()), index, handle)
    {
      remapping := remapping[index := handle];
      reverse := reverse[handle := index];
    }

    method At(index: nat) returns (handle: nat)
      requires index == CONTAINER_NULL_VALUE || (index < |remapping| && remapping[index] != 0)
      ensures index == CONTAINER_NULL_VALUE ==> handle == 0
      ensures index != CONTAINER_NULL_VALUE ==> handle != 0 && handle == remapping[index]
      ensures forall s: Ideal, trace: Trace, capacity: nat, capture: nat ::
                (Simulates(s, World(trace, View()), capacity) && capture in trace.live && trace.live[capture] == index
                 ==> capture in s.owner && handle == s.owner[capture])
    {
      handle := if index == CONTAINER_NULL_VALUE then 0 else remapping[index];
    }

    method IndexOrInvalid(handle: nat) returns (index: nat)
      ensures index == LookupIndex(View(), handle)
    {
      if handle == 0 {
        return CONTAINER_NULL_VALUE;
      }
      if handle !in reverse {
        return CONTAINER_INVALID_INDEX;
      }
      return reverse[handle];
    }

    method Remove(index: nat)
      requires index == CONTAINER_NULL_VALUE || (index < |remapping| && remapping[index] != 0)
      modifies this
      ensures View() == if index == CONTAINER_NULL_VALUE then old(View()) else ReplayUnset(old(View()), index)
    {
      if index != CONTAINER_NULL_VALUE {
        reverse := reverse[remapping[index] := 0];
        remapping := remapping[index := 0];
      }
    }
  }

  function LookupIndex(r: Replay, handle: nat): nat {
    if handle == 0 then CONTAINER_NULL_VALUE
    else if handle !in r.reverse then CONTAINER_INVALID_INDEX
    else r.reverse[handle]
  }

  // ---- both sides over a whole history

  /** An application event at capture, with the handle the driver returns at capture and at replay. */
  datatype Event =
    | Create(capture: nat, replay: nat, desired: Option<nat>)
    | Use(capture: nat)
    | Destroy(capture: nat)

  /** What an observer of the events alone knows: which replay handle belongs to each live creation. */
  datatype Ideal = Ideal(owner: map<nat, nat>, ever: set<nat>, used: set<nat>, created: nat, mode: Mode)

  const NOTHING_YET: Ideal := Ideal(map[], {}, {}, 0, Unknown)

  /** Drivers hand out handles that are not live, possibly ones used before; the index stays in range. */
  predicate Legal(s: Ideal, e: Event, capacity: nat) {
    match e
    case Create(capture, replay, desired) =>
      && capture != 0 && capture !in s.owner && replay != 0 && replay !in s.owner.Values
      && s.mode in {Unknown, RequestedMode(desired)}
      && (desired.Some? ==> desired.value !in s.used && desired.value < capacity)
      && (desired.None? ==> s.created < capacity)
    case Use(capture) => capture == 0 || capture in s.owner
    case Destroy(capture) => capture in s.owner
  }

  function Observe(s: Ideal, e: Event): Ideal {
    match e
    case Create(capture, replay, desired) =>
      Ideal(s.owner[capture := replay], s.ever + {replay},
        s.used + {if desired.Some? then desired.value else s.created}, s.created + 1, RequestedMode(desired))
    case Use(_) => s
    case Destroy(capture) => s.(owner := s.owner - {capture})
  }

  /** The replay handle the event is about. */
  function Expected(s: Ideal, e: Event): nat {
    match e
    case Create(_, replay, _) => replay
    case Use(capture) => if capture in s.owner then s.owner[capture] else 0
    case Destroy(capture) => if capture in s.owner then s.owner[capture] else 0
  }

  datatype World = World(trace: Trace, replay: Replay)

  datatype Outcome = Outcome(world: World, handle: nat)

  /** Capture writes an index, replay reads it. None when an assert of either container fails. */
  function Perform(w: World, e: Event): Option<Outcome> {
    match e
    case Create(capture, replay, desired) =>
      var index := NewIndex(w.trace, desired);
      if CanAdd(w.trace, capture, desired) && index < |w.replay.remapping| && w.replay.remapping[index] == 0
         && replay != 0
      then Some(Outcome(World(Added(w.trace, capture, desired), ReplaySet(w.replay, index, replay)), replay))
      else None
    case Use(capture) =>
      if capture == 0 then Some(Outcome(w, 0))
      else if capture !in w.trace.live then None
      else
        var index := w.trace.live[capture];
        if index < |w.replay.remapping| && w.replay.remapping[index] != 0
        then Some(Outcome(w, w.replay.remapping[index]))
        else None
    case Destroy(capture) =>
      if capture !in w.trace.live then None
      else
        var index := w.trace.live[capture];
        if index < |w.replay.remapping| && w.replay.remapping[index] != 0
        then Some(Outcome(World(Unset(w.trace, capture), ReplayUnset(w.replay, index)), w.replay.remapping[index]))
        else None
  }

  /** The capture side knows the same live handles, and has used up the same indices. */
  ghost predicate Bookkeeping(s: Ideal, w: World, capacity: nat) {
    && |w.replay.remapping| == capacity < CONTAINER_NULL_VALUE
    && w.trace.live.Keys == s.owner.Keys && 0 !in w.trace.live
    && w.trace.indices == s.used && w.trace.mode == s.mode
    && (s.mode != Desired ==> w.trace.size == s.created && forall i :: i in s.used ==> 0 <= i < s.created)
  }

  /** Under the index of a live handle replay holds the handle of the same creation. */
  ghost predicate Forward(s: Ideal, live: map<nat, nat>, remapping: seq<nat>) {
    && (forall h | h in live :: h in s.owner && live[h] in s.used)
    && (forall h | h in live :: live[h] < |remapping| && remapping[live[h]] == s.owner[h] != 0)
    && (forall h, k | h in live && k in live && h != k :: live[h] != live[k])
  }

  /** And under any other index nothing. */
  ghost predicate NoStrays(live: map<nat, nat>, remapping: seq<nat>) {
    forall i | 0 <= i < |remapping| && remapping[i] != 0 :: i in live.Values
  }

  ghost predicate Backward(s: Ideal, live: map<nat, nat>, reverse: map<nat, nat>) {
    && reverse.Keys == s.ever
    && (forall h, k | h in s.owner && k in s.owner && h != k :: s.owner[h] != s.owner[k])
    && (forall h | h in s.owner :: h in live && s.owner[h] in reverse && reverse[s.owner[h]] == live[h])
    && (forall x | x in s.ever && x !in s.owner.Values :: reverse[x] == 0)
  }

  ghost predicate Simulates(s: Ideal, w: World, capacity: nat) {
    && Bookkeeping(s, w, capacity)
    && Forward(s, w.trace.live, w.replay.remapping)
    && NoStrays(w.trace.live, w.replay.remapping)
    && Backward(s, w.trace.live, w.replay.reverse)
  }

  lemma ValuesAfterAdd(m: map<nat, nat>, key: nat, value: nat)
    requires key !in m
    ensures m[key := value].Values == m.Values + {value}
  {
    var n := m[key := value];
    assert n[key] in n.Values;
    forall v | v in m.Values ensures v in n.Values {
      var k :| k in m && m[k] == v;
      assert n[k] in n.Values;
    }
  }

  lemma ValuesAfterRemove(m: map<nat, nat>, key: nat)
    requires key in m && forall h, k | h in m && k in m && h != k :: m[h] != m[k]
    ensures (m - {key}).Values == m.Values - {m[key]}
  {
    var n := m - {key};
    forall v | v in m.Values - {m[key]} ensures v in n.Values {
      var k :| k in m && m[k] == v;
      assert n[k] in n.Values;
    }
  }

  lemma BackwardAfterCreate(s: Ideal, e: Event, live: map<nat, nat>, reverse: map<nat, nat>, index: nat)
    requires e.Create? && e.capture !in s.owner && e.capture !in live && e.replay !in s.owner.Values
    requires Backward(s, live, reverse)
    ensures Backward(Observe(s, e), live[e.capture := index], reverse[e.replay := index])
  {
    ValuesAfterAdd(s.owner, e.capture, e.replay);
    assert forall h | h in s.owner :: s.owner[h] in s.owner.Values;
  }

  lemma ForwardAfterCreate(s: Ideal, e: Event, live: map<nat, nat>, remapping: seq<nat>, index: nat)
    requires e.Create? && e.capture !in live && e.capture !in s.owner && e.replay != 0
    requires index < |remapping| && index !in s.used
    requires index == if e.desired.Some? then e.desired.value else s.created
    requires Forward(s, live, remapping) && NoStrays(live, remapping)
    ensures remapping[index] == 0
    ensures Forward(Observe(s, e), live[e.capture := index], remapping[index := e.replay])
    ensures NoStrays(live[e.capture := index], remapping[index := e.replay])
  {
    ValuesAfterAdd(live, e.capture, index);
  }

  lemma BookkeepingAfterCreate(s: Ideal, w: World, e: Event, capacity: nat)
    requires Bookkeeping(s, w, capacity) && Legal(s, e, capacity) && e.Create?
    ensures var index := NewIndex(w.trace, e.desired);
      && index == (if e.desired.Some? then e.desired.value else s.created) && index !in s.used && index < capacity
      && CanAdd(w.trace, e.capture, e.desired)
      && Bookkeeping(Observe(s, e), World(Added(w.trace, e.capture, e.desired), ReplaySet(w.replay, index, e.replay)),
                     capacity)
  {}

  lemma CreateSimulates(s: Ideal, w: World, e: Event, capacity: nat)
    requires Simulates(s, w, capacity) && Legal(s, e, capacity) && e.Create?
    ensures Perform(w, e).Some? && Perform(w, e).value.handle == Expected(s, e)
    ensures Simulates(Observe(s, e), Perform(w, e).value.world, capacity)
  {
    var index := NewIndex(w.trace, e.desired);
    BookkeepingAfterCreate(s, w, e, capacity);
    ForwardAfterCreate(s, e, w.trace.live, w.replay.remapping, index);
    BackwardAfterCreate(s, e, w.trace.live, w.replay.reverse, index);
  }

  lemma BackwardAfterDestroy(s: Ideal, e: Event, live: map<nat, nat>, reverse: map<nat, nat>)
    requires e.Destroy? && e.capture in s.owner && Backward(s, live, reverse)
    ensures Backward(Observe(s, e), live - {e.capture}, reverse[s.owner[e.capture] := 0])
  {
    ValuesAfterRemove(s.owner, e.capture);
    assert forall h | h in s.owner :: s.owner[h] in s.owner.Values;
  }

  lemma ForwardAfterDestroy(s: Ideal, e: Event, live: map<nat, nat>, remapping: seq<nat>)
    requires e.Destroy? && e.capture in live && Forward(s, live, remapping) && NoStrays(live, remapping)
    ensures Forward(Observe(s, e), live - {e.capture}, remapping[live[e.capture] := 0])
    ensures NoStrays(live - {e.capture}, remapping[live[e.capture] := 0])
  {
    ValuesAfterRemove(live, e.capture);
  }

  lemma DestroySimulates(s: Ideal, w: World, e: Event, capacity: nat)
    requires Simulates(s, w, capacity) && Legal(s, e, capacity) && e.Destroy?
    ensures Perform(w, e).Some? && Perform(w, e).value.handle == Expected(s, e)
    ensures Simulates(Observe(s, e), Perform(w, e).value.world, capacity)
  {
    ForwardAfterDestroy(s, e, w.trace.live, w.replay.remapping);
    BackwardAfterDestroy(s, e, w.trace.live, w.replay.reverse);
  }

  function Outputs(w: World, events: seq<Event>): Option<seq<nat>>
    decreases |events|
  {
    if events == [] then Some([])
    else
      var first := Perform(w, events[0]);
      if first.None? then None
      else
        var rest := Outputs(first.value.world, events[1..]);
        if rest.None? then None else Some([first.value.handle] + rest.value)
  }

  predicate LegalHistory(s: Ideal, events: seq<Event>, capacity: nat)
    decreases |events|
  {
    events == [] || (Legal(s, events[0], capacity) && LegalHistory(Observe(s, events[0]), events[1..], capacity))
  }

  function ExpectedOutputs(s: Ideal, events: seq<Event>): seq<nat>
    decreases |events|
  {
    if events == [] then [] else [Expected(s, events[0])] + ExpectedOutputs(Observe(s, events[0]), events[1..])
  }

  lemma EventSimulates(s: Ideal, w: World, e: Event, capacity: nat) returns (next: World)
    requires Simulates(s, w, capacity) && Legal(s, e, capacity)
    ensures Perform(w, e) == Some(Outcome(next, Expected(s, e)))
    ensures Simulates(Observe(s, e), next, capacity)
  {
    match e
    case Create(_, _, _) => CreateSimulates(s, w, e, capacity); next := Perform(w, e).value.world;
    case Destroy(_) => DestroySimulates(s, w, e, capacity); next := Perform(w, e).value.world;
    case Use(_) => next := w;
  }

  lemma {:induction false} HistorySimulates(s: Ideal, w: World, events: seq<Event>, capacity: nat)
    requires Simulates(s, w, capacity) && LegalHistory(s, events, capacity)
    ensures Outputs(w, events) == Some(ExpectedOutputs(s, events))
    decreases |events|
  {
    if events != [] {
      var next := EventSimulates(s, w, events[0], capacity);
      HistorySimulates(Observe(s, events[0]), next, events[1..], capacity);
    }
  }

  /** Over every legal history, drivers reusing dead handle values included: no assert of either
      container fails, and every index written at capture is the one under which replay holds the
      handle of the same creation. */
  lemma ReplayFindsTheSameObject(events: seq<Event>, capacity: nat)
    requires capacity < CONTAINER_NULL_VALUE && LegalHistory(NOTHING_YET, events, capacity)
    ensures Outputs(World(EMPTY_TRACE, Replay(seq(capacity, _ => 0), map[])), events)
         == Some(ExpectedOutputs(NOTHING_YET, events))
  {
    HistorySimulates(NOTHING_YET, World(EMPTY_TRACE, Replay(seq(capacity, _ => 0), map[])), events, capacity);
  }

  /** The reverse direction is exact for live handles, but a handle that is dead looks like object 0. */
  lemma ReverseLookup(s: Ideal, w: World, capacity: nat, handle: nat)
    requires Simulates(s, w, capacity)
    ensures handle == 0 ==> LookupIndex(w.replay, handle) == CONTAINER_NULL_VALUE
    ensures handle in s.owner.Values ==>
      exists h :: h in s.owner && s.owner[h] == handle && LookupIndex(w.replay, handle) == w.trace.live[h]
    ensures handle != 0 && handle !in s.owner.Values ==>
      LookupIndex(w.replay, handle) == if handle in s.ever then 0 else CONTAINER_INVALID_INDEX
  {
    if handle in s.owner.Values {
      var h :| h in s.owner && s.owner[h] == handle;
      assert h in w.trace.live && LookupIndex(w.replay, handle) == w.trace.live[h];
    }
  }
}
