/** Captured device addresses turned into replay addresses, any number of times, and back
    (src/hardcode_read.cpp:1120-1139, 4139-4158, 4340-4356, 4668-4676). */
module MarkedAddresses {
  import opened Bytes
  import opened AddressRemapping

  /** Tracked objects of one kind, with the capture addresses they are registered at. */
  datatype Registry = Registry(entries: seq<Entry>, table: seq<Resource>)

  datatype World = World(buffers: Registry, structures: Registry)

  const ADDRESS_SIZE: nat := 8

  predicate ValidWorld(w: World) {
    && WellFormed(w.buffers.entries, w.buffers.table)
    && WellFormed(w.structures.entries, w.structures.table)
  }

  function Side(w: World, onStructure: bool): Registry {
    if onStructure then w.structures else w.buffers
  }

  // ---- forward

  ghost function Forward(r: Registry, stored: nat): nat
    requires WellFormed(r.entries, r.table)
  {
    if exists c :: Meets(r.entries, r.table, stored, c) then
      var c :| Meets(r.entries, r.table, stored, c);
      Translation(r.table, stored, c)
    else 0
  }

  lemma ForwardIs(r: Registry, stored: nat, c: Candidate)
    requires WellFormed(r.entries, r.table) && Meets(r.entries, r.table, stored, c)
    ensures Forward(r, stored) == Translation(r.table, stored, c)
  {
    var d :| Meets(r.entries, r.table, stored, d) && Forward(r, stored) == Translation(r.table, stored, d);
    MeetsIsUnique(r.entries, r.table, stored, c, d);
  }

  method TranslateOne(w: World, buffers: AddressRemapper, structures: AddressRemapper, onStructure: bool, current: nat)
    returns (value: nat)
    requires ValidWorld(w) && buffers.remapping == w.buffers.entries && structures.remapping == w.structures.entries
    ensures value == Forward(Side(w, onStructure), current)
  {
    var side := Side(w, onStructure);
    if onStructure {
      value := structures.TranslateAddress(w.structures.table, current);
    } else {
      value := buffers.TranslateAddress(w.buffers.table, current);
    }
    ghost var c :| Meets(side.entries, side.table, current, c) && value == Translation(side.table, current, c);
    ForwardIs(side, current, c);
  }

  // ---- backward

  /** The bytes lie in the object at replay, and the object may be found by them. */
  predicate Fits(o: Resource, address: nat, size: nat) {
    o.state.Bound? && o.deviceAddress != 0 && o.size != 0 && o.deviceAddress <= address
    && address - o.deviceAddress + size <= o.size
  }

  /** The first of the largest buffers that hold the bytes. */
  predicate FirstLargest(table: seq<Resource>, address: nat, size: nat, k: nat) {
    && k < |table| && Fits(table[k], address, size)
    && (forall j | 0 <= j < |table| && Fits(table[j], address, size) ::
          table[j].size <= table[k].size && (j < k ==> table[j].size < table[k].size))
  }

  predicate FirstAt(table: seq<Resource>, address: nat, k: nat) {
    k < |table| && table[k].deviceAddress == address && forall j | 0 <= j < k :: table[j].deviceAddress != address
  }

  /** What a reverse lookup should return. */
  ghost predicate IsBackward(w: World, onStructure: bool, address: nat, capture: Option<nat>) {
    if onStructure then
      if exists k: nat :: FirstAt(w.structures.table, address, k) then
        exists k: nat :: FirstAt(w.structures.table, address, k)
                 && capture == CaptureOf(w.structures.table[k], w.structures.table[k].deviceAddress)
      else capture == None
    else
      if exists k: nat :: FirstLargest(w.buffers.table, address, 1, k) then
        exists k: nat :: FirstLargest(w.buffers.table, address, 1, k) && capture == CaptureOf(w.buffers.table[k], address)
      else capture == None
  }

  function CaptureOf(o: Resource, address: nat): Option<nat>
    requires o.deviceAddress <= address
  {
    if o.captureAddress == 0 then None else Some(o.captureAddress + (address - o.deviceAddress))
  }

  lemma BackwardIsUnique(w: World, onStructure: bool, address: nat, a: Option<nat>, b: Option<nat>)
    requires IsBackward(w, onStructure, address, a) && IsBackward(w, onStructure, address, b)
    ensures a == b
  {}

  ghost function Backward(w: World, onStructure: bool, address: nat): (capture: Option<nat>)
    ensures IsBackward(w, onStructure, address, capture)
  {
    if onStructure then
      if exists k: nat :: FirstAt(w.structures.table, address, k) then
        var k: nat :| FirstAt(w.structures.table, address, k);
        CaptureOf(w.structures.table[k], w.structures.table[k].deviceAddress)
      else None
    else
      if exists k: nat :: FirstLargest(w.buffers.table, address, 1, k) then
        var k: nat :| FirstLargest(w.buffers.table, address, 1, k);
        CaptureOf(w.buffers.table[k], address)
      else None
  }

  /** find_buffer_by_replay_address */
  method FindBufferByReplayAddress(table: seq<Resource>, address: nat, size: nat) returns (best: Option<nat>)
    ensures best.Some? ==> FirstLargest(table, address, size, best.value)
    ensures best.None? ==> forall k: nat :: !FirstLargest(table, address, size, k)
  {
    best := None;
    for i := 0 to |table|
      invariant best.None? ==> forall j | 0 <= j < i :: !Fits(table[j], address, size)
      invariant best.Some? ==> best.value < i && Fits(table[best.value], address, size)
      invariant best.Some? ==> forall j | 0 <= j < i && Fits(table[j], address, size) ::
        table[j].size <= table[best.value].size && (j < best.value ==> table[j].size < table[best.value].size)
    {
      var o := table[i];
      if !o.state.Bound? || o.deviceAddress == 0 || o.size == 0 || address < o.deviceAddress {
        continue;
      }
      if address - o.deviceAddress + size > o.size {
        continue;
      }
      if best.None? || o.size > table[best.value].size {
        best := Some(i);
      }
    }
  }

  method ReverseTranslate(w: World, onStructure: bool, address: nat) returns (capture: Option<nat>)
    ensures capture == Backward(w, onStructure, address)
  {
    if onStructure {
      capture := None;
      for i := 0 to |w.structures.table|
        invariant forall j | 0 <= j < i :: w.structures.table[j].deviceAddress != address
      {
        if w.structures.table[i].deviceAddress == address {
          assert FirstAt(w.structures.table, address, i);
          capture := if w.structures.table[i].captureAddress == 0 then None else Some(w.structures.table[i].captureAddress);
          BackwardIsUnique(w, onStructure, address, capture, Backward(w, onStructure, address));
          return;
        }
      }
    } else {
      var found := FindBufferByReplayAddress(w.buffers.table, address, 1);
      if found.None? {
        return None;
      }
      var buffer := w.buffers.table[found.value];
      capture := if buffer.captureAddress == 0 then None else Some(buffer.captureAddress + (address - buffer.deviceAddress));
      BackwardIsUnique(w, onStructure, address, capture, Backward(w, onStructure, address));
    }
  }

  /** What the checksum puts in place of a marked address. */
  ghost function Restored(w: World, onStructure: bool, address: nat): Option<nat> {
    if address == 0 then Some(0) else Backward(w, onStructure, address)
  }

  // ---- one value there and back, whatever is registered

  /** Addresses have 64 bits. */
  predicate Fitting(r: Registry) {
    && WellFormed(r.entries, r.table)
    && forall o | o in r.table :: FitsIn64(o.captureAddress, o.size) && FitsIn64(o.deviceAddress, o.size)
  }

  predicate FitsIn64(address: nat, size: nat) {
    address < U64_LIMIT && address + size <= U64_LIMIT
  }

  predicate FittingWorld(w: World) {
    Fitting(w.buffers) && Fitting(w.structures)
  }

  /** Nothing registered above this base may hold the address. */
  predicate NoneAbove(r: Registry, base: nat, value: nat)
    requires WellFormed(r.entries, r.table)
  {
    forall f | f in r.entries && base < f.base <= value :: NoneEligible(f.objects, r.table, f.base, value)
  }

  /** Of the objects that may hold the address, one at the greatest base has a replay address. */
  ghost predicate Lands(r: Registry, value: nat)
    requires WellFormed(r.entries, r.table)
  {
    exists e, i: nat :: e in r.entries && i < |e.objects| && LandsAt(r, value, e, i)
  }

  predicate LandsAt(r: Registry, value: nat, e: Entry, i: nat)
    requires WellFormed(r.entries, r.table) && e in r.entries && i < |e.objects|
  {
    && EligibleAt(e.objects, r.table, e.base, value, i) && r.table[e.objects[i]].deviceAddress != 0
    && NoneAbove(r, e.base, value)
  }

  /** The lookup ends at this object, and it has a replay address. */
  ghost predicate Serves(r: Registry, value: nat, k: nat, base: nat)
    requires WellFormed(r.entries, r.table)
  {
    k < |r.table| && r.table[k].deviceAddress != 0 && Meets(r.entries, r.table, value, Found(k, base))
  }

  lemma ServesIs(r: Registry, value: nat, k: nat, base: nat)
    requires Fitting(r) && Serves(r, value, k, base)
    ensures 0 < base <= value < base + r.table[k].size
    ensures Forward(r, value) == r.table[k].deviceAddress + (value - base) < U64_LIMIT
  {
    var e, i := FoundIsEligible(r.entries, r.table, value, Found(k, base));
    ForwardIs(r, value, Found(k, base));
    assert r.table[k] in r.table;
  }

  lemma LandsIsServed(r: Registry, value: nat, e: Entry, i: nat) returns (k: nat)
    requires Fitting(r) && e in r.entries && i < |e.objects| && LandsAt(r, value, e, i)
    ensures Serves(r, value, k, e.base)
  {
    var at := BestExists(e.objects, r.table, e.base, value, |e.objects|, i);
    k := e.objects[at];
    assert LastBest(e.objects, r.table, e.base, value, at);
  }

  /** A value is translated to something if and only if it lands; zero never does. */
  lemma LandsExactly(r: Registry, value: nat)
    requires Fitting(r)
    ensures Forward(r, value) < U64_LIMIT && (Forward(r, value) != 0 <==> Lands(r, value))
    ensures value == 0 ==> Forward(r, value) == 0
  {
    if e, i: nat :| e in r.entries && i < |e.objects| && LandsAt(r, value, e, i) {
      var k := LandsIsServed(r, value, e, i);
      ServesIs(r, value, k, e.base);
    }
    if Forward(r, value) != 0 {
      var k, base := ServedBy(r, value);
      ServesIs(r, value, k, base);
      var e, i := FoundIsEligible(r.entries, r.table, value, Found(k, base));
      assert LandsAt(r, value, e, i);
    }
  }

  lemma ServedBy(r: Registry, value: nat) returns (k: nat, base: nat)
    requires Fitting(r) && Forward(r, value) != 0
    ensures Serves(r, value, k, base)
  {
    var c :| Meets(r.entries, r.table, value, c) && Forward(r, value) == Translation(r.table, value, c);
    k, base := c.item, c.base;
  }

  /** The object that is found by the replay address lies as far from it as the object that was found by the captured
      address; of an acceleration structure, it was captured at this very address. */
  predicate MirroredBy(w: World, onStructure: bool, value: nat, k: nat, base: nat, j: nat) {
    var table := Side(w, onStructure).table;
    && k < |table| && base <= value
    && var address := table[k].deviceAddress + (value - base);
       if onStructure then FirstAt(table, address, j) && table[j].captureAddress == value
       else FirstLargest(table, address, 1, j) && table[j].captureAddress != 0
            && table[j].captureAddress + table[k].deviceAddress == base + table[j].deviceAddress
  }

  /** The captured value is one that replay gives back. */
  ghost predicate Mirrored(w: World, onStructure: bool, value: nat)
    requires ValidWorld(w)
  {
    || value == 0
    || exists k: nat, base: nat, j: nat ::
         Serves(Side(w, onStructure), value, k, base) && MirroredBy(w, onStructure, value, k, base, j)
  }

  lemma MirroredGivesBack(w: World, onStructure: bool, value: nat, k: nat, base: nat, j: nat)
    requires FittingWorld(w) && value != 0 && Serves(Side(w, onStructure), value, k, base)
    requires MirroredBy(w, onStructure, value, k, base, j)
    ensures Restored(w, onStructure, Forward(Side(w, onStructure), value)) == Some(value)
  {
    ServesIs(Side(w, onStructure), value, k, base);
    var address := Forward(Side(w, onStructure), value);
    if onStructure {
      StructureAt(w, address, j);
    } else {
      BufferAt(w, address, j);
    }
  }

  lemma StructureAt(w: World, address: nat, j: nat)
    requires FirstAt(w.structures.table, address, j) && w.structures.table[j].captureAddress != 0
    ensures Backward(w, true, address) == Some(w.structures.table[j].captureAddress)
  {
    BackwardIsUnique(w, true, address, Backward(w, true, address), Some(w.structures.table[j].captureAddress));
  }

  lemma BufferAt(w: World, address: nat, j: nat)
    requires FirstLargest(w.buffers.table, address, 1, j) && w.buffers.table[j].captureAddress != 0
    ensures var o := w.buffers.table[j];
      Backward(w, false, address) == Some(o.captureAddress + (address - o.deviceAddress))
  {
    BackwardIsUnique(w, false, address, Backward(w, false, address), CaptureOf(w.buffers.table[j], address));
  }

  lemma GivesBackMirrored(w: World, onStructure: bool, value: nat)
    requires FittingWorld(w) && value != 0
    requires Restored(w, onStructure, Forward(Side(w, onStructure), value)) == Some(value)
    ensures Mirrored(w, onStructure, value)
  {
    var r := Side(w, onStructure);
    var k, base := ServedBy(r, value);
    ServesIs(r, value, k, base);
    if onStructure {
      var j: nat :| FirstAt(r.table, Forward(r, value), j) && Some(value) == CaptureOf(r.table[j], r.table[j].deviceAddress);
      assert MirroredBy(w, onStructure, value, k, base, j);
    } else {
      var j: nat :| FirstLargest(r.table, Forward(r, value), 1, j) && Some(value) == CaptureOf(r.table[j], Forward(r, value));
      assert MirroredBy(w, onStructure, value, k, base, j);
    }
  }

  /** Translating a value and taking it back gives it again if and only if it is mirrored. */
  lemma OnceReturns(w: World, onStructure: bool, value: nat)
    requires FittingWorld(w)
    ensures Restored(w, onStructure, Forward(Side(w, onStructure), value)) == Some(value) <==> Mirrored(w, onStructure, value)
  {
    if value == 0 {
      LandsExactly(Side(w, onStructure), value);
    } else {
      if Mirrored(w, onStructure, value) {
        var k: nat, base: nat, j: nat :|
          Serves(Side(w, onStructure), value, k, base) && MirroredBy(w, onStructure, value, k, base, j);
        MirroredGivesBack(w, onStructure, value, k, base, j);
      }
      if Restored(w, onStructure, Forward(Side(w, onStructure), value)) == Some(value) {
        GivesBackMirrored(w, onStructure, value);
      }
    }
  }

  lemma RestoredFits(w: World, onStructure: bool, address: nat)
    requires FittingWorld(w)
    ensures Restored(w, onStructure, address).Some? ==> Restored(w, onStructure, address).value < U64_LIMIT
  {
    if onStructure {
      if k: nat :| FirstAt(w.structures.table, address, k) {
        assert w.structures.table[k] in w.structures.table;
      }
    } else if k: nat :| FirstLargest(w.buffers.table, address, 1, k) {
      assert w.buffers.table[k] in w.buffers.table;
    }
  }

  // ---- objects that do not meet

  predicate Disjoint(a: nat, aSize: nat, b: nat, bSize: nat) {
    a + aSize <= b || b + bSize <= a
  }

  predicate Registered(r: Registry, k: nat) {
    exists e :: e in r.entries && k in e.objects
  }

  /** A reverse lookup may land on this object. */
  predicate Visible(o: Resource) {
    o.deviceAddress != 0 && o.size != 0 && (o.isAccelerationStructure || o.state.Bound?)
  }

  /** Objects are registered at their own capture address when they are created; their replay address comes later. They
      overlap nowhere at capture. */
  ghost predicate Coherent(r: Registry) {
    && Fitting(r)
    && (forall e, k | e in r.entries && k in e.objects :: k < |r.table| && RegisteredAt(r.table[k], e.base))
    && (forall i: nat, j: nat | i < |r.table| && j < |r.table| && i != j && Registered(r, i) && Registered(r, j) ::
          Disjoint(r.table[i].captureAddress, r.table[i].size, r.table[j].captureAddress, r.table[j].size))
  }

  predicate RegisteredAt(o: Resource, base: nat) {
    && o.captureAddress == base && o.size > 0 && (o.state.Destroyed? ==> o.isAccelerationStructure)
    && (o.deviceAddress != 0 ==> Visible(o))
  }

  /** Objects that a reverse lookup may land on overlap nowhere at replay. */
  ghost predicate ApartAtReplay(r: Registry) {
    forall i: nat, j: nat | i < |r.table| && j < |r.table| && i != j && Visible(r.table[i]) && Visible(r.table[j]) ::
      Disjoint(r.table[i].deviceAddress, r.table[i].size, r.table[j].deviceAddress, r.table[j].size)
  }

  /** An acceleration structure with a capture address is registered when it is created, so before it has a replay
      address, and stays so when it is destroyed: a driver may have given its replay address to another one since. */
  ghost predicate AllRegistered(r: Registry) {
    forall k: nat | k < |r.table| && r.table[k].deviceAddress != 0 && r.table[k].captureAddress != 0 :: Registered(r, k)
  }

  ghost predicate CoherentWorld(w: World) {
    && Coherent(w.buffers) && ApartAtReplay(w.buffers) && (forall o | o in w.buffers.table :: !o.isAccelerationStructure)
    && Coherent(w.structures) && AllRegistered(w.structures)
  }

  /** No earlier structure in the table has the same replay address. */
  predicate Unshadowed(table: seq<Resource>, k: nat) {
    k < |table| && forall j | 0 <= j < k :: table[j].deviceAddress != table[k].deviceAddress
  }

  /** The captured value is one that replay can give back: zero, an address in a registered buffer, or the base of a
      registered acceleration structure that is the first one at its replay address; object and replay address both
      exist. */
  ghost predicate Returnable(w: World, onStructure: bool, value: nat) {
    || value == 0
    || (if onStructure then exists k: nat :: Registered(w.structures, k) && IsBase(w.structures.table, k, value)
        else exists k: nat :: Registered(w.buffers, k) && IsWithin(w.buffers.table, k, value))
  }

  predicate IsBase(table: seq<Resource>, k: nat, value: nat) {
    Unshadowed(table, k) && table[k].deviceAddress != 0 && value == table[k].captureAddress
  }

  /** The object holds the address, and has a replay address. */
  predicate IsWithin(table: seq<Resource>, k: nat, value: nat) {
    Holds(table, k, value) && table[k].deviceAddress != 0
  }

  predicate Holds(table: seq<Resource>, k: nat, value: nat) {
    k < |table| && table[k].captureAddress <= value < table[k].captureAddress + table[k].size
  }

  lemma RegisteredObject(r: Registry, k: nat)
    requires Coherent(r) && Registered(r, k)
    ensures k < |r.table| && r.table[k].captureAddress > 0 && r.table[k].size > 0
    ensures r.table[k].deviceAddress + r.table[k].size <= U64_LIMIT
  {
    var e :| e in r.entries && k in e.objects;
    assert r.table[k] in r.table;
  }

  lemma MeetsRegistered(r: Registry, value: nat, k: nat)
    requires Coherent(r) && Registered(r, k) && Holds(r.table, k, value)
    ensures Meets(r.entries, r.table, value, Found(k, r.table[k].captureAddress))
  {
    var base := r.table[k].captureAddress;
    var e :| e in r.entries && k in e.objects;
    RegisteredAlone(r, e, k, value);
    forall f | f in r.entries ensures f.base <= base || value < f.base {
      NoneBehind(r, f, k, value);
    }
  }

  lemma ForwardOfRegistered(r: Registry, value: nat, k: nat)
    requires Coherent(r) && Registered(r, k) && IsWithin(r.table, k, value)
    ensures Forward(r, value) == r.table[k].deviceAddress + (value - r.table[k].captureAddress)
  {
    MeetsRegistered(r, value, k);
    ForwardIs(r, value, Found(k, r.table[k].captureAddress));
  }

  /** A registered object that has no replay address yet holds its addresses, and translates them to nothing. */
  lemma UnaddressedIsLost(r: Registry, value: nat, k: nat)
    requires Coherent(r) && Registered(r, k) && Holds(r.table, k, value) && r.table[k].deviceAddress == 0
    ensures Forward(r, value) == 0 && !Lands(r, value)
  {
    MeetsRegistered(r, value, k);
    ForwardIs(r, value, Found(k, r.table[k].captureAddress));
    LandsExactly(r, value);
  }

  lemma RegisteredAlone(r: Registry, e: Entry, k: nat, value: nat)
    requires Coherent(r) && e in r.entries && k in e.objects && Holds(r.table, k, value)
    ensures e.base == r.table[k].captureAddress && e.objects[|e.objects| - 1] == k
    ensures LastBest(e.objects, r.table, e.base, value, |e.objects| - 1)
  {
    assert Registered(r, k);
    forall i | 0 <= i < |e.objects| ensures e.objects[i] == k {
      assert e.objects[i] in e.objects && Registered(r, e.objects[i]);
    }
  }

  lemma NoneBehind(r: Registry, f: Entry, k: nat, value: nat)
    requires Coherent(r) && Registered(r, k) && Holds(r.table, k, value) && f in r.entries
    ensures f.base <= r.table[k].captureAddress || value < f.base
  {
    assert f.objects[0] in f.objects && Registered(r, f.objects[0]);
  }

  /** Then a value lands exactly in a registered object that has a replay address. */
  lemma LandsInRegistered(r: Registry, value: nat)
    requires Coherent(r)
    ensures Lands(r, value) <==> exists k: nat :: Registered(r, k) && IsWithin(r.table, k, value)
  {
    if k: nat :| Registered(r, k) && IsWithin(r.table, k, value) {
      ForwardOfRegistered(r, value, k);
      LandsExactly(r, value);
    }
    if e, i: nat :| e in r.entries && i < |e.objects| && LandsAt(r, value, e, i) {
      assert e.objects[i] in e.objects && Registered(r, e.objects[i]);
      assert IsWithin(r.table, e.objects[i], value);
    }
  }

  // ---- forward any number of times, then backward

  ghost function ForwardTimes(r: Registry, value: nat, n: nat): nat
    requires WellFormed(r.entries, r.table)
  {
    if n == 0 then value else Forward(r, ForwardTimes(r, value, n - 1))
  }

  lemma BackwardOfBuffer(w: World, k: nat, value: nat)
    requires CoherentWorld(w) && Registered(w.buffers, k) && IsWithin(w.buffers.table, k, value)
    ensures Backward(w, false, Forward(w.buffers, value)) == Some(value)
  {
    var o := w.buffers.table[k];
    RegisteredObject(w.buffers, k);
    ForwardOfRegistered(w.buffers, value, k);
    var address := Forward(w.buffers, value);
    FirstLargestAt(w.buffers, k, address);
    BackwardIsUnique(w, false, address, Backward(w, false, address), CaptureOf(o, address));
  }

  lemma FirstLargestAt(r: Registry, k: nat, address: nat)
    requires Coherent(r) && ApartAtReplay(r) && Registered(r, k) && (forall o | o in r.table :: !o.isAccelerationStructure)
    requires 0 < r.table[k].deviceAddress <= address < r.table[k].deviceAddress + r.table[k].size
    ensures FirstLargest(r.table, address, 1, k)
  {
    assert r.table[k] in r.table;
  }

  /** Translating a buffer address n times and back gives it again exactly when it lies in a registered
      buffer and the further translations change nothing. */
  lemma BufferReturns(w: World, value: nat, before: nat)
    requires CoherentWorld(w) && value != 0 && Forward(w.buffers, before) != 0
    ensures Backward(w, false, Forward(w.buffers, before)) == Some(before)
    ensures Returnable(w, false, value) && Forward(w.buffers, before) == Forward(w.buffers, value) <==> before == value
  {
    LandsExactly(w.buffers, before);
    LandsInRegistered(w.buffers, before);
    var k: nat :| Registered(w.buffers, k) && IsWithin(w.buffers.table, k, before);
    BackwardOfBuffer(w, k, before);
    if Returnable(w, false, value) && Forward(w.buffers, before) == Forward(w.buffers, value) {
      var l: nat :| Registered(w.buffers, l) && IsWithin(w.buffers.table, l, value);
      BackwardOfBuffer(w, l, value);
    }
  }

  /** The reverse search ends at the first structure with the address, a destroyed one included. */
  lemma StructureReturns(w: World, value: nat, address: nat)
    requires CoherentWorld(w) && value != 0 && address != 0
    ensures Backward(w, true, address) == Some(value)
       <==> Returnable(w, true, value) && address == Forward(w.structures, value)
  {
    var table := w.structures.table;
    if Backward(w, true, address) == Some(value) {
      var j: nat :| FirstAt(table, address, j) && Some(value) == CaptureOf(table[j], table[j].deviceAddress);
      RegisteredObject(w.structures, j);
      ForwardOfRegistered(w.structures, value, j);
      assert IsBase(table, j, value);
    }
    if Returnable(w, true, value) && address == Forward(w.structures, value) {
      var j: nat :| Registered(w.structures, j) && IsBase(table, j, value);
      RegisteredObject(w.structures, j);
      ForwardOfRegistered(w.structures, value, j);
      assert FirstAt(table, address, j);
      BackwardIsUnique(w, true, address, Backward(w, true, address), Some(value));
    }
  }

  /** The value survives n translations and the way back. */
  ghost predicate Returns(w: World, onStructure: bool, value: nat, n: nat)
    requires CoherentWorld(w)
  {
    || value == 0
    || (Returnable(w, onStructure, value)
        && ForwardTimes(Side(w, onStructure), value, n) == Forward(Side(w, onStructure), value))
  }

  lemma ReturnsNonzero(w: World, onStructure: bool, value: nat, before: nat)
    requires CoherentWorld(w) && value != 0
    ensures var r := Side(w, onStructure);
      Restored(w, onStructure, Forward(r, before)) == Some(value)
      <==> Returnable(w, onStructure, value) && Forward(r, before) == Forward(r, value)
  {
    var r := Side(w, onStructure);
    var address := Forward(r, before);
    if address == 0 {
      LandsExactly(r, value);
      if Returnable(w, onStructure, value) {
        ReturnableLands(w, onStructure, value);
      }
    } else if onStructure {
      StructureReturns(w, value, address);
    } else {
      BufferReturns(w, value, before);
    }
  }

  lemma ReturnableLands(w: World, onStructure: bool, value: nat)
    requires CoherentWorld(w) && value != 0 && Returnable(w, onStructure, value)
    ensures Lands(Side(w, onStructure), value)
  {
    LandsInRegistered(Side(w, onStructure), value);
    if onStructure {
      var k: nat :| Registered(w.structures, k) && IsBase(w.structures.table, k, value);
      RegisteredObject(w.structures, k);
      assert IsWithin(w.structures.table, k, value);
    }
  }

  /** Translating a value n times and once back gives it again if and only if it is zero, or it is returnable
      and no translation behind the first changes anything. */
  lemma ValueReturns(w: World, onStructure: bool, value: nat, n: nat)
    requires CoherentWorld(w) && n > 0
    ensures var address := ForwardTimes(Side(w, onStructure), value, n);
      && address < U64_LIMIT
      && (Restored(w, onStructure, address) == Some(value) <==> Returns(w, onStructure, value, n))
      && (Restored(w, onStructure, address).Some? ==> Restored(w, onStructure, address).value < U64_LIMIT)
  {
    var r := Side(w, onStructure);
    var before := ForwardTimes(r, value, n - 1);
    LandsExactly(r, before);
    ZeroStays(r, n);
    RestoredFits(w, onStructure, Forward(r, before));
    if value != 0 {
      ReturnsNonzero(w, onStructure, value, before);
    }
  }

  lemma {:induction false} ZeroStays(r: Registry, n: nat)
    requires Fitting(r)
    ensures ForwardTimes(r, 0, n) == 0
  {
    if n > 0 {
      ZeroStays(r, n - 1);
      LandsExactly(r, 0);
    }
  }

  /** Where objects do not meet, the mirrored values are the returnable ones. */
  lemma MirroredExactly(w: World, onStructure: bool, value: nat)
    requires CoherentWorld(w)
    ensures Mirrored(w, onStructure, value) <==> Returnable(w, onStructure, value)
  {
    OnceReturns(w, onStructure, value);
    ValueReturns(w, onStructure, value, 1);
    var r := Side(w, onStructure);
    assert ForwardTimes(r, value, 0) == value && ForwardTimes(r, value, 1) == Forward(r, value);
  }

  // ---- a buffer that moved, and addresses that are used again

  /** One buffer, captured at 0x1000 and replayed at 0x2000. */
  function MovedBuffer(): (w: World)
    ensures CoherentWorld(w)
  {
    World(Registry([Entry(0x1000, [0])], [Resource(0x100, 0x2000, 0x1000, Bound, false)]), Registry([], []))
  }

  lemma BaseMoves(w: World)
    requires w == MovedBuffer()
    ensures Returnable(w, false, 0x1000) && Forward(w.buffers, 0x1000) != 0x1000
  {
    assert 0 in w.buffers.entries[0].objects;
    assert Registered(w.buffers, 0) && IsWithin(w.buffers.table, 0, 0x1000);
    ForwardOfRegistered(w.buffers, 0x1000, 0);
  }

  function TwoStructures(a: Resource, b: Resource): Registry {
    Registry([Entry(a.captureAddress, [0]), Entry(b.captureAddress, [1])], [a, b])
  }

  predicate IsStructure(o: Resource) {
    && o.isAccelerationStructure && o.captureAddress > 0 && o.deviceAddress > 0 && o.size > 0
    && o.captureAddress + o.size <= U64_LIMIT && o.deviceAddress + o.size <= U64_LIMIT
  }

  lemma TwoAreRegistered(r: Registry, a: Resource, b: Resource)
    requires r == TwoStructures(a, b)
    ensures forall k: nat :: Registered(r, k) <==> k == 0 || k == 1
    ensures forall e :: e in r.entries <==> e == Entry(a.captureAddress, [0]) || e == Entry(b.captureAddress, [1])
  {
    var first, second := Entry(a.captureAddress, [0]), Entry(b.captureAddress, [1]);
    assert r.entries[0] == first && r.entries[1] == second && 0 in first.objects && 1 in second.objects;
  }

  lemma TwoAreCoherent(r: Registry, a: Resource, b: Resource)
    requires r == TwoStructures(a, b) && IsStructure(a) && IsStructure(b)
    requires a.captureAddress + a.size <= b.captureAddress
    ensures Coherent(r) && AllRegistered(r) && Registered(r, 1)
  {
    TwoAreRegistered(r, a, b);
  }

  /** When replay gives the address of an acceleration structure to a later one, say because the first was destroyed,
      the address of the later one is turned back into that of the first. */
  lemma StaleStructureIsFound(w: World, a: Resource, b: Resource)
    requires IsStructure(a) && IsStructure(b) && a.captureAddress + a.size <= b.captureAddress
    requires a.deviceAddress == b.deviceAddress && w == World(Registry([], []), TwoStructures(a, b))
    ensures CoherentWorld(w) && !Returnable(w, true, b.captureAddress)
    ensures Forward(w.structures, b.captureAddress) == b.deviceAddress
    ensures Backward(w, true, b.deviceAddress) == Some(a.captureAddress)
  {
    TwoAreCoherent(w.structures, a, b);
    assert IsWithin(w.structures.table, 1, b.captureAddress);
    ForwardOfRegistered(w.structures, b.captureAddress, 1);
    assert FirstAt(w.structures.table, b.deviceAddress, 0);
    BackwardIsUnique(w, true, b.deviceAddress, Backward(w, true, b.deviceAddress), Some(a.captureAddress));
  }

  /** When capture gave one address to several structures, say because the first ones were destroyed, it is translated
      for the most preferred of them, and comes back if and only if the first structure found at the replay address was
      captured there too. */
  lemma SharedBaseReturns(w: World, e: Entry, at: nat)
    requires FittingWorld(w) && e in w.structures.entries
    requires LastBest(e.objects, w.structures.table, e.base, e.base, at)
    requires w.structures.table[e.objects[at]].deviceAddress != 0
    ensures var table := w.structures.table; var address := table[e.objects[at]].deviceAddress;
      && Forward(w.structures, e.base) == address
      && (Restored(w, true, address) == Some(e.base)
          <==> exists j: nat :: FirstAt(table, address, j) && table[j].captureAddress == e.base)
  {
    var k := e.objects[at];
    var address := w.structures.table[k].deviceAddress;
    assert Meets(w.structures.entries, w.structures.table, e.base, Found(k, e.base));
    ForwardIs(w.structures, e.base, Found(k, e.base));
    if j: nat :| FirstAt(w.structures.table, address, j) && w.structures.table[j].captureAddress == e.base {
      StructureAt(w, address, j);
    }
  }

  /** So the address of a living structure survives, although a destroyed one had it at capture before. */
  lemma ReusedCaptureAddress(w: World, a: Resource, b: Resource, base: nat)
    requires IsStructure(a) && IsStructure(b) && a.state.Destroyed? && !b.state.Destroyed?
    requires a.captureAddress == b.captureAddress == base
    requires w == World(Registry([], []), Registry([Entry(base, [0, 1])], [a, b]))
    ensures FittingWorld(w) && Forward(w.structures, base) == b.deviceAddress
    ensures Restored(w, true, b.deviceAddress) == Some(base)
  {
    var e, table := Entry(base, [0, 1]), w.structures.table;
    assert w.structures.entries[0] == e && table[0] == a && table[1] == b;
    assert e in w.structures.entries && e.objects[0] == 0 && e.objects[1] == 1;
    assert LastBest(e.objects, table, base, base, 1);
    SharedBaseReturns(w, e, 1);
    assert FirstAt(table, b.deviceAddress, if a.deviceAddress == b.deviceAddress then 0 else 1);
  }
}
