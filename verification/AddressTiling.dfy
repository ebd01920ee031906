/** Recognising a 64-bit address put together from pieces of memory: the pieces must tile its eight bytes
    from one run of bytes. The run is then marked where the host wrote it
    (src/execute_commands.cpp:155-232, 260-332). */
module AddressTiling {
  import opened Bytes
  import opened Sorting
  import HostWrites

  const ADDRESS_BITS: nat := 64
  const ADDRESS_BYTES: nat := 8

  datatype Location = SpecConstant | StorageClass | Elsewhere

  datatype Storage = PushConstant | Uniform | StorageBuffer | UniformConstant | OtherStorage

  /** One entry of the simulator's bit provenance; a null pointer is 0. */
  datatype SourceBits = SourceBits(
    location: Location, storage: Storage, pointer: nat, byteOffset: nat, descriptorSet: nat, binding: nat,
    bitOffset: nat, bitCount: nat, valueBitOffset: nat)

  /** simulator_buffer_range: memory the simulator may read, backed by a tracked buffer (`buffer` is what the host
      wrote to it) or by regions of its own. */
  datatype HostRange = HostRange(
    base: nat, size: nat, buffer: Option<HostWrites.HostWriteRegions>, bufferOffset: nat,
    regions: Option<HostWrites.HostWriteRegions>, descriptorSet: nat, binding: nat,
    objectType: nat, objectIndex: nat, stage: Option<nat>)

  /** A place in the range at this position. */
  datatype Place = Place(range: nat, localOffset: nat)

  // ---- finding the range of a source

  /** The pointer points into the range, and so do the bytes from `byteOffset` behind it on. */
  predicate PointsInto(r: HostRange, s: SourceBits, size: nat) {
    && s.pointer != 0 && size != 0 && r.base <= s.pointer <= r.base + r.size
    && s.pointer + s.byteOffset + size <= r.base + r.size
  }

  /** The range is bound where the source's storage class says, and long enough. */
  predicate IsBoundTo(r: HostRange, s: SourceBits, size: nat) {
    && size != 0 && s.byteOffset + size <= r.size
    && match s.storage
       case PushConstant => r.regions.Some?
       case OtherStorage => false
       case _ => r.buffer.Some? && r.descriptorSet == s.descriptorSet && r.binding == s.binding
  }

  predicate Suits(r: HostRange, s: SourceBits, size: nat, byPointer: bool) {
    if byPointer then PointsInto(r, s, size) else IsBoundTo(r, s, size)
  }

  /** The first range from `from` on that suits; their number when none does. */
  function FirstSuited(ranges: seq<HostRange>, s: SourceBits, size: nat, byPointer: bool, from: nat): (k: nat)
    requires from <= |ranges|
    ensures from <= k <= |ranges|
    ensures k < |ranges| ==> Suits(ranges[k], s, size, byPointer)
    ensures forall j | from <= j < k :: !Suits(ranges[j], s, size, byPointer)
    decreases |ranges| - from
  {
    if from == |ranges| || Suits(ranges[from], s, size, byPointer) then from
    else FirstSuited(ranges, s, size, byPointer, from + 1)
  }

  predicate IsFirst(ranges: seq<HostRange>, s: SourceBits, size: nat, byPointer: bool, k: nat) {
    && k < |ranges| && Suits(ranges[k], s, size, byPointer)
    && forall j | 0 <= j < k :: !Suits(ranges[j], s, size, byPointer)
  }

  /** Where the source's bytes lie: where its pointer and offset say, in the first range that has them there; failing
      that, of a storage class, at the offset in the first range bound to it; otherwise nowhere. */
  ghost predicate IsPlace(ranges: seq<HostRange>, s: SourceBits, size: nat, place: Option<Place>) {
    if s.location != Elsewhere && exists r :: r in ranges && PointsInto(r, s, size) then
      && place.Some? && IsFirst(ranges, s, size, true, place.value.range)
      && ranges[place.value.range].base + place.value.localOffset == s.pointer + s.byteOffset
    else if s.location == StorageClass && exists r :: r in ranges && IsBoundTo(r, s, size) then
      place.Some? && IsFirst(ranges, s, size, false, place.value.range) && place.value.localOffset == s.byteOffset
    else place.None?
  }

  lemma PlaceIsUnique(ranges: seq<HostRange>, s: SourceBits, size: nat, a: Option<Place>, b: Option<Place>)
    requires IsPlace(ranges, s, size, a) && IsPlace(ranges, s, size, b)
    ensures a == b
  {
    if a.Some? && b.Some? {
      assert a.value.range == b.value.range;
    }
  }

  /** By the pointer, or failing that, by storage class and binding. */
  function PlaceOf(ranges: seq<HostRange>, s: SourceBits, size: nat): (place: Option<Place>)
    ensures place.Some? ==> place.value.range < |ranges| && place.value.localOffset + size <= ranges[place.value.range].size
    ensures IsPlace(ranges, s, size, place)
  {
    var pointed := FirstSuited(ranges, s, size, true, 0);
    var bound := FirstSuited(ranges, s, size, false, 0);
    if s.location == Elsewhere then None
    else if pointed < |ranges| then Some(Place(pointed, s.pointer - ranges[pointed].base + s.byteOffset))
    else if s.location == StorageClass && bound < |ranges| then Some(Place(bound, s.byteOffset))
    else None
  }

  /** find_simulator_source_range */
  method FindSourceRange(ranges: seq<HostRange>, s: SourceBits, size: nat) returns (place: Option<Place>)
    ensures IsPlace(ranges, s, size, place) && place == PlaceOf(ranges, s, size)
  {
    if s.location == Elsewhere {
      return None;
    }
    var pointed := FindRange(ranges, s, size, true);
    if pointed.Some? {
      return Some(Place(pointed.value, s.pointer - ranges[pointed.value].base + s.byteOffset));
    }
    if s.location == StorageClass {
      var bound := FindRange(ranges, s, size, false);
      return if bound.Some? then Some(Place(bound.value, s.byteOffset)) else None;
    }
    return None;
  }

  /** find_simulator_range and find_simulator_storage_class_range */
  method FindRange(ranges: seq<HostRange>, s: SourceBits, size: nat, byPointer: bool) returns (k: Option<nat>)
    ensures var first := FirstSuited(ranges, s, size, byPointer, 0);
      k == if first < |ranges| then Some(first) else None
  {
    for i := 0 to |ranges|
      invariant FirstSuited(ranges, s, size, byPointer, 0) == FirstSuited(ranges, s, size, byPointer, i)
    {
      if Suits(ranges[i], s, size, byPointer) {
        return Some(i);
      }
    }
    return None;
  }

  // ---- the components

  datatype Component = Component(range: nat, localOffset: nat, bitCount: nat, valueBitOffset: nat)

  predicate WholeBytes(c: Component) {
    && c.bitCount > 0 && c.bitCount % 8 == 0 && c.valueBitOffset % 8 == 0
    && c.valueBitOffset + c.bitCount <= ADDRESS_BITS
  }

  predicate Counts(s: SourceBits) {
    && s.location != Elsewhere && s.bitOffset == 0 && s.bitCount != 0 && s.bitCount % 8 == 0
    && s.valueBitOffset % 8 == 0 && s.valueBitOffset + s.bitCount <= ADDRESS_BITS
  }

  /** A source that counts and lies somewhere, as a component. */
  function AsComponent(ranges: seq<HostRange>, s: SourceBits): (c: Option<Component>)
    ensures c.Some? ==> WholeBytes(c.value) && InRange(ranges, c.value)
  {
    if !Counts(s) then None else
      var place := PlaceOf(ranges, s, s.bitCount / 8);
      if place.None? then None
      else Some(Component(place.value.range, place.value.localOffset, s.bitCount, s.valueBitOffset))
  }

  predicate InRange(ranges: seq<HostRange>, c: Component) {
    c.range < |ranges| && c.localOffset + c.bitCount / 8 <= ranges[c.range].size
  }

  function Components(ranges: seq<HostRange>, sources: seq<SourceBits>): (cs: seq<Component>)
    ensures forall c | c in cs :: WholeBytes(c) && InRange(ranges, c)
  {
    if sources == [] then [] else
      var front := Components(ranges, sources[..|sources| - 1]);
      var last := AsComponent(ranges, sources[|sources| - 1]);
      if last.Some? then front + [last.value] else front
  }

  // ---- what should be recognised

  /** The component holds byte k of the address. */
  predicate Covers(c: Component, k: nat) {
    c.valueBitOffset <= 8 * k < c.valueBitOffset + c.bitCount
  }

  function Count(cs: seq<Component>, k: nat): nat {
    if cs == [] then 0 else (if Covers(cs[0], k) then 1 else 0) + Count(cs[1..], k)
  }

  /** The component takes byte k of the address from byte base + k of the range. */
  predicate TakesFrom(c: Component, range: nat, base: nat) {
    c.range == range && c.localOffset == base + c.valueBitOffset / 8
  }

  /** Each byte of the address has exactly one component, and all take it from the same run. */
  ghost predicate Tiled(cs: seq<Component>, p: Place) {
    && (forall k: nat | k < ADDRESS_BYTES :: Count(cs, k) == 1)
    && (forall c | c in cs :: TakesFrom(c, p.range, p.localOffset))
  }

  lemma {:induction false} CountWithout(cs: seq<Component>, j: nat, k: nat)
    requires j < |cs|
    ensures Count(cs, k) == Count([cs[j]], k) + Count(cs[..j] + cs[j + 1..], k)
  {
    if j == 0 {
      assert cs[..0] + cs[1..] == cs[1..];
    } else {
      CountWithout(cs[1..], j - 1, k);
      assert (cs[..j] + cs[j + 1..])[1..] == cs[1..][..j - 1] + cs[1..][(j - 1) + 1..];
    }
  }

  lemma Removing(cs: seq<Component>, j: nat)
    requires j < |cs|
    ensures multiset(cs[..j] + cs[j + 1..]) == multiset(cs) - multiset{cs[j]}
  {
    assert cs == cs[..j] + [cs[j]] + cs[j + 1..];
  }

  lemma SameHead(a: seq<Component>, b: seq<Component>) returns (j: nat, rest: seq<Component>)
    requires a != [] && multiset(a) == multiset(b)
    ensures j < |b| && b[j] == a[0] && rest == b[..j] + b[j + 1..] && multiset(a[1..]) == multiset(rest)
  {
    assert a[0] in multiset(b);
    j :| 0 <= j < |b| && b[j] == a[0];
    rest := b[..j] + b[j + 1..];
    Removing(b, j);
    assert a == [a[0]] + a[1..];
  }

  lemma {:induction false} CountIsOrderFree(a: seq<Component>, b: seq<Component>, k: nat)
    requires multiset(a) == multiset(b)
    ensures Count(a, k) == Count(b, k)
    decreases |a|
  {
    if a == [] {
      assert |multiset(b)| == 0;
    } else {
      var j, rest := SameHead(a, b);
      CountIsOrderFree(a[1..], rest, k);
      CountWithout(b, j, k);
    }
  }

  /** The order in which the components come does not matter. */
  lemma TilingIsOrderFree(a: seq<Component>, b: seq<Component>, p: Place)
    requires multiset(a) == multiset(b)
    ensures Tiled(a, p) <==> Tiled(b, p)
  {
    forall k: nat ensures Count(a, k) == Count(b, k) {
      CountIsOrderFree(a, b, k);
    }
    assert forall c :: c in multiset(a) <==> c in a;
    assert forall c :: c in multiset(b) <==> c in b;
  }

  // ---- sorting

  predicate Less(a: Component, b: Component) {
    a.valueBitOffset < b.valueBitOffset
  }

  predicate Sorted(cs: seq<Component>) {
    forall i, j | 0 <= i < j < |cs| :: cs[i].valueBitOffset <= cs[j].valueBitOffset
  }

  // ---- the loop

  /** The rest of the sorted components continues the run without a gap. */
  predicate Continues(cs: seq<Component>, covered: nat, p: Place) {
    if cs == [] then covered == ADDRESS_BITS
    else TakesFrom(cs[0], p.range, p.localOffset) && cs[0].valueBitOffset == covered
         && Continues(cs[1..], covered + cs[0].bitCount, p)
  }

  lemma {:induction false} SomeCovers(cs: seq<Component>, k: nat)
    ensures Count(cs, k) > 0 <==> exists c :: c in cs && Covers(c, k)
  {
    if cs != [] {
      SomeCovers(cs[1..], k);
      assert forall c | c in cs :: c == cs[0] || c in cs[1..];
    }
  }

  /** Byte k has no component below `covered` and exactly one from there on. */
  predicate Expected(cs: seq<Component>, covered: nat, k: nat) {
    Count(cs, k) == if 8 * k < covered then 0 else 1
  }

  ghost predicate AllExpected(cs: seq<Component>, covered: nat) {
    forall k: nat | k < ADDRESS_BYTES :: Expected(cs, covered, k)
  }

  predicate AllTake(cs: seq<Component>, p: Place) {
    forall c | c in cs :: TakesFrom(c, p.range, p.localOffset)
  }

  lemma NotExpected(cs: seq<Component>, covered: nat)
    requires cs != [] && Sorted(cs) && WholeBytes(cs[0]) && covered % 8 == 0 && covered <= ADDRESS_BITS
    requires cs[0].valueBitOffset != covered
    ensures !AllExpected(cs, covered)
  {
    if cs[0].valueBitOffset < covered {
      var k := cs[0].valueBitOffset / 8;
      assert Covers(cs[0], k) && !Expected(cs, covered, k);
    } else {
      var k := covered / 8;
      SomeCovers(cs, k);
      assert !Expected(cs, covered, k);
    }
  }

  lemma ExpectedOfRest(cs: seq<Component>, covered: nat, next: nat)
    requires cs != [] && WholeBytes(cs[0]) && cs[0].valueBitOffset == covered && next == covered + cs[0].bitCount
    ensures AllExpected(cs, covered) <==> AllExpected(cs[1..], next)
  {
    assert forall k: nat | k < ADDRESS_BYTES :: Expected(cs, covered, k) <==> Expected(cs[1..], next, k);
  }

  lemma {:induction false} ContinuesIsTiling(cs: seq<Component>, covered: nat, p: Place)
    requires Sorted(cs) && (forall c | c in cs :: WholeBytes(c)) && covered % 8 == 0 && covered <= ADDRESS_BITS
    ensures Continues(cs, covered, p) <==> AllExpected(cs, covered) && AllTake(cs, p)
  {
    if cs == [] {
      assert covered < ADDRESS_BITS ==> !Expected(cs, covered, covered / 8);
    } else {
      var first, rest := cs[0], cs[1..];
      assert first in cs && forall c | c in rest :: c in cs;
      if first.valueBitOffset == covered {
        var next := covered + first.bitCount;
        ContinuesIsTiling(rest, next, p);
        ExpectedOfRest(cs, covered, next);
        assert forall c | c in cs :: c == first || c in rest;
      } else {
        NotExpected(cs, covered);
      }
    }
  }

  /** The first half of collect_contiguous_device_address_marking: it recognises an address exactly when the
      components tile it, in whatever order they come. */
  method CollectContiguous(ranges: seq<HostRange>, sources: seq<SourceBits>) returns (found: Option<Place>)
    ensures forall p :: found == Some(p) <==> Tiled(Components(ranges, sources), p)
  {
    var components: seq<Component> := [];
    for i := 0 to |sources|
      invariant components == Components(ranges, sources[..i])
    {
      assert sources[..i + 1][..i] == sources[..i];
      var c := ComponentOf(ranges, sources[i]);
      if c.Some? {
        components := components + [c.value];
      }
    }
    assert sources[..|sources|] == sources;
    found := SortAndCheck(components);
  }

  method ComponentOf(ranges: seq<HostRange>, s: SourceBits) returns (c: Option<Component>)
    ensures c == AsComponent(ranges, s)
  {
    if !Counts(s) {
      return None;
    }
    var place := FindSourceRange(ranges, s, s.bitCount / 8);
    return if place.None? then None
           else Some(Component(place.value.range, place.value.localOffset, s.bitCount, s.valueBitOffset));
  }

  method SortAndCheck(components: seq<Component>) returns (found: Option<Place>)
    requires forall c | c in components :: WholeBytes(c)
    ensures forall p :: found == Some(p) <==> Tiled(components, p)
  {
    var sorted := Sort(components, Less);
    SortKeeps(components, Less);
    if components != [] {
      assert components[0] in sorted;
      found := CheckRun(sorted);
    } else {
      found := None;
    }
    forall p ensures Tiled(components, p) <==> found == Some(p) {
      TilingIsOrderFree(components, sorted, p);
      TilingOfAll(sorted, p);
    }
  }

  method CheckRun(sorted: seq<Component>) returns (found: Option<Place>)
    requires sorted != [] && forall c | c in sorted :: WholeBytes(c)
    ensures forall p :: found == Some(p) <==> Continues(sorted, 0, p)
  {
    var place := Place(sorted[0].range, sorted[0].localOffset);
    assert forall p :: Continues(sorted, 0, p) ==> p == place;
    var covered: nat := 0;
    for i := 0 to |sorted|
      invariant Continues(sorted, 0, place) <==> Continues(sorted[i..], covered, place)
    {
      var c := sorted[i];
      if c.range != place.range || c.valueBitOffset != covered || c.localOffset != place.localOffset + c.valueBitOffset / 8 {
        return None;
      }
      covered := covered + c.bitCount;
    }
    if covered != ADDRESS_BITS {
      return None;
    }
    return Some(place);
  }

  lemma TilingOfAll(sorted: seq<Component>, p: Place)
    requires Sorted(sorted) && forall c | c in sorted :: WholeBytes(c)
    ensures Tiled(sorted, p) <==> Continues(sorted, 0, p)
  {
    ContinuesIsTiling(sorted, 0, p);
    assert forall k: nat | k < ADDRESS_BYTES :: Expected(sorted, 0, k) <==> Count(sorted, k) == 1;
  }

  /** A recognised address lies in its range with all eight bytes. */
  lemma TiledIsInRange(ranges: seq<HostRange>, cs: seq<Component>, p: Place)
    requires Tiled(cs, p) && forall c | c in cs :: WholeBytes(c) && InRange(ranges, c)
    ensures p.range < |ranges| && p.localOffset + ADDRESS_BYTES <= ranges[p.range].size
  {
    SomeCovers(cs, ADDRESS_BYTES - 1);
    var c :| c in cs && Covers(c, ADDRESS_BYTES - 1);
    assert TakesFrom(c, p.range, p.localOffset);
  }

  // ---- the same, source by source

  /** The source lies somewhere in memory and holds byte k of the address. */
  predicate Supplies(ranges: seq<HostRange>, s: SourceBits, k: nat) {
    AsComponent(ranges, s).Some? && Covers(AsComponent(ranges, s).value, k)
  }

  /** A source is used if and only if its bits count and it lies somewhere, and then for its own bits. */
  lemma SuppliesExactly(ranges: seq<HostRange>, s: SourceBits, k: nat)
    ensures Supplies(ranges, s, k)
       <==> Counts(s) && !IsPlace(ranges, s, s.bitCount / 8, None) && s.valueBitOffset <= 8 * k < s.valueBitOffset + s.bitCount
    ensures Supplies(ranges, s, k) ==>
      var c := AsComponent(ranges, s).value; IsPlace(ranges, s, s.bitCount / 8, Some(Place(c.range, c.localOffset)))
  {
    if Counts(s) && IsPlace(ranges, s, s.bitCount / 8, None) {
      PlaceIsUnique(ranges, s, s.bitCount / 8, None, PlaceOf(ranges, s, s.bitCount / 8));
    }
  }

  ghost function Serving(ranges: seq<HostRange>, sources: seq<SourceBits>, k: nat): set<nat> {
    set i | 0 <= i < |sources| && Supplies(ranges, sources[i], k)
  }

  lemma CountLast(cs: seq<Component>, c: Component, k: nat)
    ensures Count(cs + [c], k) == Count(cs, k) + if Covers(c, k) then 1 else 0
  {
    if cs == [] {
      assert cs + [c] == [c];
    } else {
      CountLast(cs[1..], c, k);
      assert (cs + [c])[1..] == cs[1..] + [c];
    }
  }

  lemma ServingOneMore(ranges: seq<HostRange>, front: seq<SourceBits>, last: SourceBits, k: nat)
    ensures |Serving(ranges, front + [last], k)| == |Serving(ranges, front, k)| + if Supplies(ranges, last, k) then 1 else 0
  {
    var all, n := front + [last], |front|;
    var a, b := Serving(ranges, all, k), Serving(ranges, front, k);
    var more: set<nat> := if Supplies(ranges, last, k) then {n} else {};
    forall i: nat ensures i in a <==> i in b + more {
      if i < n {
        assert all[i] == front[i];
      } else if i == n {
        assert all[i] == last;
      }
    }
    assert a == b + more && b !! more;
  }

  /** Every source that holds the byte counts once. */
  lemma {:induction false} CountsSources(ranges: seq<HostRange>, sources: seq<SourceBits>, k: nat)
    ensures Count(Components(ranges, sources), k) == |Serving(ranges, sources, k)|
    decreases |sources|
  {
    if sources != [] {
      var n := |sources| - 1;
      var front, last := sources[..n], AsComponent(ranges, sources[n]);
      CountsSources(ranges, front, k);
      assert sources == front + [sources[n]];
      ServingOneMore(ranges, front, sources[n], k);
      if last.Some? {
        CountLast(Components(ranges, front), last.value, k);
      }
    }
  }

  lemma {:induction false} ComponentsAreSources(ranges: seq<HostRange>, sources: seq<SourceBits>, i: nat)
    requires i < |sources| && AsComponent(ranges, sources[i]).Some?
    ensures AsComponent(ranges, sources[i]).value in Components(ranges, sources)
    decreases |sources|
  {
    var n := |sources| - 1;
    if i < n {
      ComponentsAreSources(ranges, sources[..n], i);
    }
  }

  lemma {:induction false} TakesExactly(ranges: seq<HostRange>, sources: seq<SourceBits>, p: Place)
    ensures (forall c | c in Components(ranges, sources) :: TakesFrom(c, p.range, p.localOffset))
       <==> forall s | s in sources :: LiesAlong(ranges, s, p)
    decreases |sources|
  {
    if sources != [] {
      var n := |sources| - 1;
      var front, last := sources[..n], sources[n];
      TakesExactly(ranges, front, p);
      LiesAlongExactly(ranges, last, p);
      assert sources == front + [last];
    }
  }

  lemma LiesAlongExactly(ranges: seq<HostRange>, s: SourceBits, p: Place)
    ensures LiesAlong(ranges, s, p)
       <==> (AsComponent(ranges, s).Some? ==> TakesFrom(AsComponent(ranges, s).value, p.range, p.localOffset))
  {
    var place := PlaceOf(ranges, s, s.bitCount / 8);
    var wanted := Some(Place(p.range, p.localOffset + s.valueBitOffset / 8));
    if IsPlace(ranges, s, s.bitCount / 8, None) {
      PlaceIsUnique(ranges, s, s.bitCount / 8, place, None);
    }
    if IsPlace(ranges, s, s.bitCount / 8, wanted) {
      PlaceIsUnique(ranges, s, s.bitCount / 8, place, wanted);
    }
  }

  /** The source does not count, lies nowhere, or lies where its bits have to be for the address to lie at p. */
  ghost predicate LiesAlong(ranges: seq<HostRange>, s: SourceBits, p: Place) {
    || !Counts(s) || IsPlace(ranges, s, s.bitCount / 8, None)
    || IsPlace(ranges, s, s.bitCount / 8, Some(Place(p.range, p.localOffset + s.valueBitOffset / 8)))
  }

  /** So an address is recognised at p if and only if one source supplies each of its bytes, and all sources that count
      and lie somewhere lie along p. */
  lemma RecognisedExactly(ranges: seq<HostRange>, sources: seq<SourceBits>, p: Place)
    ensures Tiled(Components(ranges, sources), p)
       <==> (forall k: nat | k < ADDRESS_BYTES :: |Serving(ranges, sources, k)| == 1)
            && (forall s | s in sources :: LiesAlong(ranges, s, p))
  {
    TakesExactly(ranges, sources, p);
    forall k: nat {
      CountsSources(ranges, sources, k);
    }
  }

  /** Byte k of a recognised address has one source, and lies in memory where that source says. */
  lemma BytesLieAtTheirSource(ranges: seq<HostRange>, sources: seq<SourceBits>, p: Place, k: nat) returns (i: nat)
    requires Tiled(Components(ranges, sources), p) && k < ADDRESS_BYTES
    ensures Serving(ranges, sources, k) == {i} && i < |sources| && Counts(sources[i])
    ensures var s := sources[i];
      && s.valueBitOffset <= 8 * k < s.valueBitOffset + s.bitCount
      && IsPlace(ranges, s, s.bitCount / 8, Some(Place(p.range, p.localOffset + s.valueBitOffset / 8)))
  {
    CountsSources(ranges, sources, k);
    assert Count(Components(ranges, sources), k) == 1;
    i :| i in Serving(ranges, sources, k);
    assert |Serving(ranges, sources, k) - {i}| == 0;
    SuppliesExactly(ranges, sources[i], k);
    var c := AsComponent(ranges, sources[i]).value;
    ComponentsAreSources(ranges, sources, i);
    assert c in Components(ranges, sources) && TakesFrom(c, p.range, p.localOffset);
  }

  // ---- the marking

  /** A marking that postprocessing puts into the trace: this address, at this offset of an object, as the
      packet `source` wrote it. */
  datatype Marking = Marking(
    objectType: nat, objectIndex: nat, stage: nat, offset: nat, size: nat, source: HostWrites.Source)

  datatype Outcome = NotFound | Aborted | Marked(marking: Marking)

  /** What get_range_source_reference asks. */
  function RegionsOf(r: HostRange): Option<HostWrites.HostWriteRegions> {
    if r.regions.Some? then r.regions else r.buffer
  }

  ghost predicate Tracked(ranges: seq<HostRange>)
    reads set r | r in ranges && RegionsOf(r).Some? :: RegionsOf(r).value
  {
    forall r | r in ranges && RegionsOf(r).Some? :: RegionsOf(r).value.Valid()
  }

  /** One host write explains all eight bytes. */
  ghost predicate Explained(r: HostRange, p: Place)
    reads if RegionsOf(r).Some? then {RegionsOf(r).value} else {}
  {
    RegionsOf(r).Some? && HostWrites.Uniform(RegionsOf(r).value.View(), r.bufferOffset + p.localOffset, ADDRESS_BYTES)
  }

  /** The marking names the object of the range, and the packet and the place of the first byte's origin; bytes
      of no known object are marked where they lie. */
  ghost predicate Names(m: Marking, r: HostRange, p: Place, origin: HostWrites.Origin) {
    var s := m.source;
    && (m.objectType, m.objectIndex, m.size) == (r.objectType, r.objectIndex, ADDRESS_BYTES)
    && (s.packet, s.frame, s.thread, s.callId) == (origin.packet, origin.frame, origin.thread, origin.callId)
    && m.stage == (if r.stage.Some? then r.stage.value else origin.stage)
    && m.offset == (if origin.offset >= 0 then origin.offset else r.bufferOffset + p.localOffset)
  }

  /** collect_contiguous_device_address_marking: an address is marked exactly when its pieces tile it and one host
      write explains the run; tiled bytes that no single write explains end the program. */
  method MarkContiguous(ranges: seq<HostRange>, sources: seq<SourceBits>) returns (outcome: Outcome)
    requires Tracked(ranges)
    ensures outcome != NotFound <==> exists p :: Tiled(Components(ranges, sources), p)
    ensures forall p | Tiled(Components(ranges, sources), p) ::
      p.range < |ranges|
      && (outcome.Marked? <==> Explained(ranges[p.range], p))
      && (outcome.Marked? ==> Names(outcome.marking, ranges[p.range], p,
            RegionsOf(ranges[p.range]).value.View()[ranges[p.range].bufferOffset + p.localOffset]))
  {
    var found := CollectContiguous(ranges, sources);
    if found.None? {
      return NotFound;
    }
    var p := found.value;
    TiledIsInRange(ranges, Components(ranges, sources), p);
    outcome := MarkRun(ranges[p.range], p);
    assert Tiled(Components(ranges, sources), p);
    assert exists q :: Tiled(Components(ranges, sources), q);
  }

  method MarkRun(r: HostRange, p: Place) returns (outcome: Outcome)
    requires RegionsOf(r).Some? ==> RegionsOf(r).value.Valid()
    ensures outcome != NotFound && (outcome.Marked? <==> Explained(r, p))
    ensures outcome.Marked? ==>
      Names(outcome.marking, r, p, RegionsOf(r).value.View()[r.bufferOffset + p.localOffset])
  {
    var regions := RegionsOf(r);
    if regions.None? {
      return Aborted;
    }
    var address := r.bufferOffset + p.localOffset;
    var reference := regions.value.TryGetReference(address, ADDRESS_BYTES);
    if reference.None? {
      return Aborted;
    }
    var stage := if r.stage.Some? then r.stage.value else reference.value.stage;
    var offset := if reference.value.offset >= 0 then reference.value.offset else address;
    outcome := Marked(Marking(r.objectType, r.objectIndex, stage, offset, ADDRESS_BYTES, reference.value.source));
  }
}
