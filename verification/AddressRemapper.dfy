/** address_remapper: from an address stored at capture to the object it lies in, and to the address of
    that item at replay (src/containers.h:433-560). */
module AddressRemapping {
  import opened Bytes

  datatype State = Uninitialized | Initialized | Created | Destroyed | Bound

  /** The fields of a tracked buffer, image or acceleration structure that address lookup reads. */
  datatype Resource = Resource(
    size: nat, deviceAddress: nat, captureAddress: nat, state: State, isAccelerationStructure: bool)

  /** One key of the std::map: objects (by their position in the resource table) registered at `base`. */
  datatype Entry = Entry(base: nat, objects: seq<nat>)

  predicate Sorted(entries: seq<Entry>) {
    forall i, j | 0 <= i < j < |entries| :: entries[i].base < entries[j].base
  }

  // ---- what a lookup should find

  /** The address lies in the object, and the object may be looked up: a destroyed one only when it is
      an acceleration structure. */
  predicate Eligible(o: Resource, base: nat, stored: nat) {
    base <= stored < base + o.size && (o.state.Destroyed? ==> o.isAccelerationStructure)
  }

  function StateRank(o: Resource): nat {
    match o.state
    case Destroyed => 0
    case Bound => 2
    case _ => 1
  }

  /** Preference: has a replay address, then bound over merely alive over destroyed, then size. */
  predicate Below(a: Resource, b: Resource) {
    var aHas, bHas := a.deviceAddress != 0, b.deviceAddress != 0;
    if aHas != bHas then bHas
    else if StateRank(a) != StateRank(b) then StateRank(a) < StateRank(b)
    else a.size < b.size
  }

  predicate InTable(objects: seq<nat>, table: seq<Resource>) {
    forall k | 0 <= k < |objects| :: objects[k] < |table|
  }

  predicate EligibleAt(objects: seq<nat>, table: seq<Resource>, base: nat, stored: nat, k: nat)
    requires InTable(objects, table) && k < |objects|
  {
    Eligible(table[objects[k]], base, stored)
  }

  predicate NoneEligible(objects: seq<nat>, table: seq<Resource>, base: nat, stored: nat)
    requires InTable(objects, table)
  {
    forall k | 0 <= k < |objects| :: !EligibleAt(objects, table, base, stored, k)
  }

  /** Position k holds the last of the most preferred eligible objects. */
  predicate LastBest(objects: seq<nat>, table: seq<Resource>, base: nat, stored: nat, k: nat)
    requires InTable(objects, table)
  {
    && k < |objects| && EligibleAt(objects, table, base, stored, k)
    && (forall j | 0 <= j < |objects| && EligibleAt(objects, table, base, stored, j) ::
          !Below(table[objects[k]], table[objects[j]]) && (j > k ==> Below(table[objects[j]], table[objects[k]])))
  }

  /** What is preferred, criterion by criterion: a replay address, a living object, one bound to memory, the larger
      one, and of equals the one registered last. */
  lemma BestIsPreferred(objects: seq<nat>, table: seq<Resource>, base: nat, stored: nat, k: nat, j: nat)
    requires InTable(objects, table) && LastBest(objects, table, base, stored, k)
    requires j < |objects| && EligibleAt(objects, table, base, stored, j)
    ensures var best, other := table[objects[k]], table[objects[j]];
      && (other.deviceAddress != 0 ==> best.deviceAddress != 0)
      && ((other.deviceAddress != 0 <==> best.deviceAddress != 0) ==>
            && (best.state.Destroyed? ==> other.state.Destroyed?)
            && (other.state.Bound? ==> best.state.Bound?)
            && ((other.state.Destroyed? <==> best.state.Destroyed?) && (other.state.Bound? <==> best.state.Bound?) ==>
                  other.size <= best.size && (j > k ==> other.size < best.size)))
  {}

  predicate WellFormed(entries: seq<Entry>, table: seq<Resource>) {
    && Sorted(entries)
    && (forall e | e in entries :: e.base > 0 && e.objects != [] && InTable(e.objects, table))
  }

  datatype Candidate = NotFound | Found(item: nat, base: nat)

  /** The interval specification: nothing, iff no eligible registered interval contains the address;
      otherwise the last best object at the greatest base that has an eligible one. */
  ghost predicate Meets(entries: seq<Entry>, table: seq<Resource>, stored: nat, c: Candidate)
    requires WellFormed(entries, table)
  {
    match c
    case NotFound =>
      forall e | e in entries && e.base <= stored :: NoneEligible(e.objects, table, e.base, stored)
    case Found(item, base) =>
      && (exists e, k: nat :: e in entries && e.base == base && LastBest(e.objects, table, base, stored, k)
            && e.objects[k] == item)
      && (forall e | e in entries && base < e.base <= stored :: NoneEligible(e.objects, table, e.base, stored))
  }

  lemma FoundIsEligible(entries: seq<Entry>, table: seq<Resource>, stored: nat, c: Candidate) returns (e: Entry, k: nat)
    requires WellFormed(entries, table) && c.Found? && Meets(entries, table, stored, c)
    ensures e in entries && e.base == c.base <= stored && LastBest(e.objects, table, c.base, stored, k)
    ensures e.objects[k] == c.item && !NoneEligible(e.objects, table, e.base, stored)
  {
    e, k :| e in entries && e.base == c.base && LastBest(e.objects, table, c.base, stored, k) && e.objects[k] == c.item;
    assert EligibleAt(e.objects, table, e.base, stored, k);
  }

  lemma SameBase(entries: seq<Entry>, e: Entry, f: Entry)
    requires Sorted(entries) && e in entries && f in entries && e.base == f.base
    ensures e == f
  {
    var i, j :| 0 <= i < |entries| && 0 <= j < |entries| && entries[i] == e && entries[j] == f;
  }

  /** Among the first n objects, one that may hold the address comes with a last best one. */
  lemma {:induction false} BestExists(objects: seq<nat>, table: seq<Resource>, base: nat, stored: nat, n: nat, i: nat)
    returns (k: nat)
    requires InTable(objects, table) && i < n <= |objects| && EligibleAt(objects, table, base, stored, i)
    ensures k < n && EligibleAt(objects, table, base, stored, k)
    ensures forall j | 0 <= j < n && EligibleAt(objects, table, base, stored, j) ::
      !Below(table[objects[k]], table[objects[j]]) && (j > k ==> Below(table[objects[j]], table[objects[k]]))
    decreases n
  {
    var last := n - 1;
    if j: nat :| j < last && EligibleAt(objects, table, base, stored, j) {
      k := BestExists(objects, table, base, stored, last, j);
      if EligibleAt(objects, table, base, stored, last) && !Below(table[objects[last]], table[objects[k]]) {
        k := last;
      }
    } else {
      k := last;
    }
  }

  /** The specification leaves no choice. */
  lemma MeetsIsUnique(entries: seq<Entry>, table: seq<Resource>, stored: nat, c: Candidate, d: Candidate)
    requires WellFormed(entries, table) && Meets(entries, table, stored, c) && Meets(entries, table, stored, d)
    ensures c == d
  {
    if c.Found? {
      var e, k := FoundIsEligible(entries, table, stored, c);
      if d.Found? {
        var f, l := FoundIsEligible(entries, table, stored, d);
        SameBase(entries, e, if e.base == f.base then f else e);
        assert EligibleAt(e.objects, table, e.base, stored, k) && EligibleAt(f.objects, table, f.base, stored, l);
      }
    } else if d.Found? {
      var f, l := FoundIsEligible(entries, table, stored, d);
    }
  }

  // ---- the object

  function Objects(entries: seq<Entry>, addr: nat): seq<nat> {
    if entries == [] then [] else if entries[0].base == addr then entries[0].objects else Objects(entries[1..], addr)
  }

  /** First position whose base is not below (upper_bound: above) the address. */
  function Position(entries: seq<Entry>, addr: nat): (at: nat)
    requires Sorted(entries)
    ensures at <= |entries|
    ensures forall i | 0 <= i < at :: entries[i].base < addr
    ensures forall i | at <= i < |entries| :: addr <= entries[i].base
  {
    if entries == [] || addr <= entries[0].base then 0 else 1 + Position(entries[1..], addr)
  }

  class AddressRemapper {
    var remapping: seq<Entry>

    ghost predicate Valid(table: seq<Resource>)
      reads this
    {
      WellFormed(remapping, table)
    }

    constructor ()
      ensures remapping == []
    {
      remapping := [];
    }

    /** choose_best; `stored` is at or above `base`. */
    method ChooseBest(table: seq<Resource>, objects: seq<nat>, base: nat, stored: nat) returns (best: Option<nat>)
      requires InTable(objects, table) && base <= stored
      ensures best.None? ==> NoneEligible(objects, table, base, stored)
      ensures best.Some? ==> exists k: nat :: LastBest(objects, table, base, stored, k) && objects[k] == best.value
    {
      best := None;
      ghost var at: nat := 0;
      for i := 0 to |objects|
        invariant best.None? ==> forall k | 0 <= k < i :: !EligibleAt(objects, table, base, stored, k)
        invariant best.Some? ==> at < i && EligibleAt(objects, table, base, stored, at) && objects[at] == best.value
        invariant best.Some? ==> forall j | 0 <= j < i && EligibleAt(objects, table, base, stored, j) ::
          !Below(table[objects[at]], table[objects[j]]) && (j > at ==> Below(table[objects[j]], table[objects[at]]))
      {
        var o := table[objects[i]];
        var destroyed, bound := o.state.Destroyed?, o.state.Bound?;
        if destroyed && !o.isAccelerationStructure {
          continue;
        }
        if o.size == 0 || stored - base >= o.size {
          continue;
        }
        var hasAddress := o.deviceAddress != 0;
        if best.None? {
          best, at := Some(objects[i]), i;
        } else {
          var b := table[best.value];
          var bestHasAddress, bestBound, bestDestroyed := b.deviceAddress != 0, b.state.Bound?, b.state.Destroyed?;
          if (hasAddress && !bestHasAddress)
             || (hasAddress == bestHasAddress && !destroyed && bestDestroyed)
             || (hasAddress == bestHasAddress && bound && !bestBound)
             || (hasAddress == bestHasAddress && destroyed == bestDestroyed && bound == bestBound
                 && (o.size > b.size || o.size == b.size))
          {
            best, at := Some(objects[i]), i;
          }
        }
      }
      assert best.Some? ==> LastBest(objects, table, base, stored, at);
    }

    /** find_candidate, and with it get_by_address. */
    method FindCandidate(table: seq<Resource>, stored: nat) returns (c: Candidate)
      requires Valid(table)
      ensures Meets(remapping, table, stored, c)
    {
      var i := Position(remapping, stored + 1); // upper_bound
      while i > 0
        invariant 0 <= i <= |remapping|
        invariant forall j | i <= j < |remapping| && remapping[j].base <= stored ::
          NoneEligible(remapping[j].objects, table, remapping[j].base, stored)
      {
        i := i - 1;
        var e := remapping[i];
        var best := ChooseBest(table, e.objects, e.base, stored);
        if best.Some? {
          assert e in remapping;
          return Found(best.value, e.base);
        }
      }
      return NotFound;
    }

    method TranslateAddress(table: seq<Resource>, stored: nat) returns (translated: nat)
      requires Valid(table)
      ensures exists c :: Meets(remapping, table, stored, c) && translated == Translation(table, stored, c)
    {
      var found := FindCandidate(table, stored);
      if found.NotFound? || table[found.item].deviceAddress == 0 {
        return 0;
      }
      return table[found.item].deviceAddress + (stored - found.base);
    }

    method Add(ghost table: seq<Resource>, addr: nat, item: nat)
      requires Valid(table) && item < |table|
      modifies this
      ensures Valid(table)
      ensures forall a: nat :: Objects(remapping, a) == (if a == addr && addr != 0 && item !in old(Objects(remapping, a))
        then old(Objects(remapping, a)) + [item] else old(Objects(remapping, a)))
    {
      if addr == 0 {
        return;
      }
      var at := Position(remapping, addr);
      if at < |remapping| && remapping[at].base == addr {
        if item !in remapping[at].objects {
          ghost var was := remapping;
          var objects := remapping[at].objects + [item];
          remapping := remapping[at := Entry(addr, objects)];
          ObjectsUpdate(was, at, objects);
          WellFormedUpdate(was, table, at, objects);
        } else {
          ObjectsUpdate(remapping, at, remapping[at].objects);
        }
      } else {
        ghost var was := remapping;
        var e := Entry(addr, [item]);
        remapping := remapping[..at] + [e] + remapping[at..];
        ObjectsInsert(was, at, e);
        WellFormedInsert(was, table, at, e);
      }
    }

    method Remove(ghost table: seq<Resource>, addr: nat, item: nat)
      requires Valid(table)
      modifies this
      ensures Valid(table)
      ensures forall a: nat ::
        Objects(remapping, a) == (if a == addr then Without(old(Objects(remapping, a)), item) else old(Objects(remapping, a)))
    {
      var at := Position(remapping, addr);
      if at < |remapping| && remapping[at].base == addr {
        ghost var was := remapping;
        var left := Without(remapping[at].objects, item);
        ObjectsUpdate(was, at, left);
        if left == [] {
          remapping := remapping[..at] + remapping[at + 1..];
          ErasedObjects(was, table, at);
        } else {
          remapping := remapping[at := Entry(addr, left)];
          WithoutInTable(was[at].objects, item, table);
          WellFormedUpdate(was, table, at, left);
        }
      } else {
        ObjectsAbsent(remapping, addr);
      }
    }
  }

  function Translation(table: seq<Resource>, stored: nat, c: Candidate): nat {
    if c.Found? && c.item < |table| && c.base <= stored && table[c.item].deviceAddress != 0
    then table[c.item].deviceAddress + (stored - c.base) else 0
  }

  lemma WellFormedInsert(entries: seq<Entry>, table: seq<Resource>, at: nat, e: Entry)
    requires WellFormed(entries, table) && at <= |entries|
    requires e.base > 0 && e.objects != [] && InTable(e.objects, table)
    requires forall i | 0 <= i < at :: entries[i].base < e.base
    requires forall i | at <= i < |entries| :: e.base < entries[i].base
    ensures WellFormed(entries[..at] + [e] + entries[at..], table)
  {}

  lemma WellFormedUpdate(entries: seq<Entry>, table: seq<Resource>, at: nat, objects: seq<nat>)
    requires WellFormed(entries, table) && at < |entries| && objects != [] && InTable(objects, table)
    ensures WellFormed(entries[at := Entry(entries[at].base, objects)], table)
  {
    var r := entries[at := Entry(entries[at].base, objects)];
    assert forall i | 0 <= i < |r| :: r[i].base == entries[i].base;
    assert forall e | e in r :: e in entries || e == Entry(entries[at].base, objects);
    assert entries[at] in entries;
  }

  lemma WithoutInTable(objects: seq<nat>, item: nat, table: seq<Resource>)
    requires InTable(objects, table)
    ensures InTable(Without(objects, item), table)
  {
    var left := Without(objects, item);
    assert forall k | 0 <= k < |left| :: left[k] in left && left[k] in objects;
  }

  lemma WellFormedErase(entries: seq<Entry>, table: seq<Resource>, at: nat, r: seq<Entry>)
    requires WellFormed(entries, table) && at < |entries| && r == entries[..at] + entries[at + 1..]
    ensures WellFormed(r, table)
  {
    assert forall i | 0 <= i < |r| :: r[i] == entries[if i < at then i else i + 1];
  }

  lemma ErasedObjects(entries: seq<Entry>, table: seq<Resource>, at: nat)
    requires WellFormed(entries, table) && at < |entries|
    ensures var r := entries[..at] + entries[at + 1..];
      && WellFormed(r, table)
      && forall a: nat :: Objects(r, a) == (if a == entries[at].base then [] else Objects(entries, a))
  {
    var r := entries[..at] + entries[at + 1..];
    WellFormedErase(entries, table, at, r);
    forall a: nat ensures Objects(r, a) == (if a == entries[at].base then [] else Objects(entries, a)) {
      ObjectsErase(entries, at, a);
    }
  }

  lemma {:induction false} ObjectsAbsent(entries: seq<Entry>, addr: nat)
    requires forall e | e in entries :: e.base != addr
    ensures Objects(entries, addr) == []
  {
    if entries != [] {
      ObjectsAbsent(entries[1..], addr);
    }
  }

  lemma {:induction false} ObjectsUpdate(entries: seq<Entry>, at: nat, objects: seq<nat>)
    requires Sorted(entries) && at < |entries|
    ensures Objects(entries, entries[at].base) == entries[at].objects
    ensures forall a: nat ::
        Objects(entries[at := Entry(entries[at].base, objects)], a) == (if a == entries[at].base then objects else Objects(entries, a))
  {
    if at > 0 {
      ObjectsUpdate(entries[1..], at - 1, objects);
      assert entries[at := Entry(entries[at].base, objects)][1..] == entries[1..][at - 1 := Entry(entries[at].base, objects)];
    }
  }

  lemma {:induction false} ObjectsInsert(entries: seq<Entry>, at: nat, e: Entry)
    requires Sorted(entries) && at <= |entries| && forall f | f in entries :: f.base != e.base
    ensures Objects(entries, e.base) == []
    ensures forall a: nat ::
        Objects(entries[..at] + [e] + entries[at..], a) == (if a == e.base then e.objects else Objects(entries, a))
  {
    ObjectsAbsent(entries, e.base);
    var r := entries[..at] + [e] + entries[at..];
    if at > 0 {
      ObjectsInsert(entries[1..], at - 1, e);
      assert r[1..] == entries[1..][..at - 1] + [e] + entries[1..][at - 1..];
    } else {
      assert r[1..] == entries;
    }
  }

  lemma {:induction false} ObjectsErase(entries: seq<Entry>, at: nat, addr: nat)
    requires Sorted(entries) && at < |entries|
    ensures Objects(entries[..at] + entries[at + 1..], addr)
         == if addr == entries[at].base then [] else Objects(entries, addr)
  {
    var r := entries[..at] + entries[at + 1..];
    if at > 0 {
      ObjectsErase(entries[1..], at - 1, addr);
      assert r[1..] == entries[1..][..at - 1] + entries[1..][(at - 1) + 1..];
    } else {
      assert r == entries[1..];
      if addr == entries[0].base {
        assert forall e | e in r :: entries[0].base < e.base;
        ObjectsAbsent(r, addr);
      }
    }
  }
}
