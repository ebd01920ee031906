/** Scratch memory for acceleration structure builds at replay: sized in one pass, placed in another,
    unless the recorded addresses can stay (src/hardcode_read.cpp:1581-1630, 2055-2112). */
module ScratchLayout {
  import opened Bytes
  import opened AddressRemapping
  import opened MarkedAddresses

  /** align_device_size. Alignments are powers of two, so masking the low bits rounds down. */
  function AlignDeviceSize(value: nat, alignment: nat): (r: nat)
    ensures value <= r
  {
    if alignment <= 1 then value else (value + alignment - 1) - (value + alignment - 1) % alignment
  }

  /** The least aligned size that is large enough. */
  lemma AlignmentIsLeast(value: nat, alignment: nat)
    requires alignment > 0
    ensures AlignDeviceSize(value, alignment) % alignment == 0
    ensures value <= AlignDeviceSize(value, alignment) < value + alignment
  {
    if alignment > 1 {
      RoundingDown(value + alignment - 1, alignment);
    }
  }

  lemma RoundingDown(v: nat, a: nat)
    requires a > 0
    ensures (v - v % a) % a == 0
  {
    var r := v - v % a;
    var q, n := v / a, r / a;
    assert v == a * q + v % a && r == a * n + r % a;
    assert r % a == a * (q - n) by {
      Distribute(a, q, n);
    }
    AtLeastOnce(a, q - n);
  }

  lemma Distribute(a: int, x: int, y: int)
    ensures a * (x - y) == a * x - a * y
  {}

  lemma AtLeastOnce(a: int, d: int)
    requires a > 0
    ensures d >= 1 ==> a * d >= a
    ensures d <= -1 ==> a * d <= -a
  {
    assert a * d == a + a * (d - 1) && a * d == -a + a * (d + 1);
  }

  // ---- the layout

  /** Where the first n regions end. A build without scratch takes no part. */
  function End(sizes: seq<nat>, alignment: nat, n: nat): nat
    requires n <= |sizes|
  {
    if n == 0 then 0
    else if sizes[n - 1] == 0 then End(sizes, alignment, n - 1)
    else AlignDeviceSize(End(sizes, alignment, n - 1), alignment) + sizes[n - 1]
  }

  function Start(sizes: seq<nat>, alignment: nat, i: nat): nat
    requires i < |sizes|
  {
    AlignDeviceSize(End(sizes, alignment, i), alignment)
  }

  lemma {:induction false} EndsGrow(sizes: seq<nat>, alignment: nat, i: nat, n: nat)
    requires i <= n <= |sizes|
    ensures End(sizes, alignment, i) <= End(sizes, alignment, n)
    decreases n
  {
    if i < n {
      EndsGrow(sizes, alignment, i, n - 1);
    }
  }

  /** The sizing pass. */
  method TotalScratchSize(sizes: seq<nat>, alignment: nat) returns (total: nat)
    ensures total == End(sizes, alignment, |sizes|)
  {
    total := 0;
    for i := 0 to |sizes|
      invariant total == End(sizes, alignment, i)
    {
      if sizes[i] == 0 {
        continue;
      }
      total := AlignDeviceSize(total, alignment);
      total := total + sizes[i];
    }
  }

  function Placed(before: nat, sizes: seq<nat>, alignment: nat, base: nat, i: nat): nat
    requires i < |sizes|
  {
    if sizes[i] == 0 then before else base + Start(sizes, alignment, i)
  }

  /** The placement pass, into the scratch addresses of the builds. */
  method PlaceScratch(addresses: array<nat>, sizes: seq<nat>, alignment: nat, base: nat)
    requires addresses.Length == |sizes|
    modifies addresses
    ensures forall i | 0 <= i < |sizes| :: addresses[i] == Placed(old(addresses[i]), sizes, alignment, base, i)
    ensures forall i | 0 <= i < |sizes| && sizes[i] == 0 :: addresses[i] == old(addresses[i])
    ensures alignment > 0 ==> WellPlaced(addresses[..], sizes, alignment, base, End(sizes, alignment, |sizes|))
  {
    var offset: nat := 0;
    for i := 0 to |sizes|
      invariant offset == End(sizes, alignment, i)
      invariant forall j | i <= j < |sizes| :: addresses[j] == old(addresses[j])
      invariant forall j | 0 <= j < i :: addresses[j] == Placed(old(addresses[j]), sizes, alignment, base, j)
    {
      if sizes[i] == 0 {
        continue;
      }
      offset := AlignDeviceSize(offset, alignment);
      addresses[i] := base + offset;
      offset := offset + sizes[i];
    }
    if alignment > 0 {
      PlacedWell(addresses[..], sizes, alignment, base);
    }
  }

  /** Each build with scratch has a region aligned in the buffer at `base` and inside its size, behind those of the
      builds before it. */
  ghost predicate WellPlaced(addresses: seq<nat>, sizes: seq<nat>, alignment: nat, base: nat, size: nat)
    requires |addresses| == |sizes| && alignment > 0
  {
    && (forall i | 0 <= i < |sizes| && sizes[i] > 0 ::
          exists offset: nat :: LiesAt(addresses[i], base, offset, sizes[i], alignment, size))
    && (forall i, j | 0 <= i < j < |sizes| && sizes[i] > 0 && sizes[j] > 0 :: addresses[i] + sizes[i] <= addresses[j])
  }

  predicate IsAligned(offset: nat, alignment: nat)
    requires alignment > 0
  {
    offset % alignment == 0
  }

  /** The region lies `offset` bytes behind the base. */
  predicate LiesAt(address: nat, base: nat, offset: nat, length: nat, alignment: nat, size: nat)
    requires alignment > 0
  {
    address == base + offset && IsAligned(offset, alignment) && offset + length <= size
  }

  lemma PlacedWell(addresses: seq<nat>, sizes: seq<nat>, alignment: nat, base: nat)
    requires |addresses| == |sizes| && alignment > 0
    requires forall i | 0 <= i < |sizes| && sizes[i] > 0 :: addresses[i] == base + Start(sizes, alignment, i)
    ensures WellPlaced(addresses, sizes, alignment, base, End(sizes, alignment, |sizes|))
  {
    forall i | 0 <= i < |sizes| && sizes[i] > 0
      ensures exists offset: nat :: LiesAt(addresses[i], base, offset, sizes[i], alignment, End(sizes, alignment, |sizes|))
    {
      LayoutIsSound(sizes, alignment, i, i);
      assert LiesAt(addresses[i], base, Start(sizes, alignment, i), sizes[i], alignment, End(sizes, alignment, |sizes|));
    }
    forall i, j | 0 <= i < j < |sizes| && sizes[i] > 0 && sizes[j] > 0 ensures addresses[i] + sizes[i] <= addresses[j] {
      LayoutIsSound(sizes, alignment, i, j);
    }
  }

  /** Every placed region is aligned within the buffer, inside the size the first pass asked for, and
      disjoint from every other one. */
  lemma LayoutIsSound(sizes: seq<nat>, alignment: nat, i: nat, j: nat)
    requires alignment > 0 && i < |sizes| && sizes[i] > 0
    ensures IsAligned(Start(sizes, alignment, i), alignment)
    ensures Start(sizes, alignment, i) + sizes[i] <= End(sizes, alignment, |sizes|)
    ensures i < j < |sizes| && sizes[j] > 0 ==> Start(sizes, alignment, i) + sizes[i] <= Start(sizes, alignment, j)
  {
    AlignmentIsLeast(End(sizes, alignment, i), alignment);
    EndsGrow(sizes, alignment, i + 1, |sizes|);
    if i < j < |sizes| {
      EndsGrow(sizes, alignment, i + 1, j);
    }
  }

  /** Nothing is asked for that is not used: the last region ends where the buffer does. */
  lemma {:induction false} LayoutIsTight(sizes: seq<nat>, alignment: nat, n: nat)
    requires n <= |sizes| && End(sizes, alignment, n) > 0
    ensures exists i: nat :: i < n && sizes[i] > 0 && Start(sizes, alignment, i) + sizes[i] == End(sizes, alignment, n)
    decreases n
  {
    if sizes[n - 1] == 0 {
      LayoutIsTight(sizes, alignment, n - 1);
    } else {
      assert Start(sizes, alignment, n - 1) + sizes[n - 1] == End(sizes, alignment, n);
    }
  }

  // ---- keeping the recorded addresses

  /** Build i has an address, and a bound buffer holds its scratch region. */
  predicate Held(table: seq<Resource>, addresses: seq<nat>, sizes: seq<nat>, i: nat, k: nat)
    requires |addresses| == |sizes| && i < |sizes|
  {
    addresses[i] != 0 && FirstLargest(table, addresses[i], sizes[i], k)
  }

  predicate Apart(addresses: seq<nat>, sizes: seq<nat>, i: nat, j: nat)
    requires |addresses| == |sizes| && i < |sizes| && j < |sizes|
  {
    Disjoint(addresses[i], sizes[i], addresses[j], sizes[j])
  }

  /** What allows the recorded addresses: every region lies in a buffer, and no two meet in the same one. */
  ghost predicate Preservable(table: seq<Resource>, addresses: seq<nat>, sizes: seq<nat>)
    requires |addresses| == |sizes|
  {
    && (forall i: nat | i < |sizes| && sizes[i] > 0 :: exists k: nat :: Held(table, addresses, sizes, i, k))
    && (forall i: nat, j: nat, k: nat | i < j < |sizes| && sizes[i] > 0 && sizes[j] > 0
                                  && Held(table, addresses, sizes, i, k) && Held(table, addresses, sizes, j, k) ::
          Apart(addresses, sizes, i, j))
  }

  method Find(table: seq<Resource>, addresses: seq<nat>, sizes: seq<nat>, i: nat) returns (k: Option<nat>)
    requires |addresses| == |sizes| && i < |sizes|
    ensures k.Some? && addresses[i] != 0 ==> Held(table, addresses, sizes, i, k.value)
    ensures k.None? ==> forall l: nat :: !Held(table, addresses, sizes, i, l)
  {
    k := FindBufferByReplayAddress(table, addresses[i], sizes[i]);
  }

  /** replay_can_preserve_as_scratch_addresses */
  method CanPreserve(table: seq<Resource>, addresses: seq<nat>, sizes: seq<nat>) returns (ok: bool)
    requires |addresses| == |sizes|
    ensures ok <==> Preservable(table, addresses, sizes)
  {
    for i := 0 to |sizes|
      invariant forall j: nat | j < i && sizes[j] > 0 :: exists k: nat :: Held(table, addresses, sizes, j, k)
    {
      if sizes[i] == 0 {
        continue;
      }
      if addresses[i] == 0 {
        assert forall k: nat :: !Held(table, addresses, sizes, i, k);
        return false;
      }
      var buffer := Find(table, addresses, sizes, i);
      if buffer.None? {
        return false;
      }
    }
    if |sizes| <= 1 {
      return true;
    }
    for i := 0 to |sizes|
      invariant forall a: nat, b: nat, k: nat | a < b < |sizes| && a < i && sizes[a] > 0 && sizes[b] > 0
                  && Held(table, addresses, sizes, a, k) && Held(table, addresses, sizes, b, k) :: Apart(addresses, sizes, a, b)
    {
      if sizes[i] == 0 {
        continue;
      }
      var apart := ApartFromLater(table, addresses, sizes, i);
      if !apart {
        return false;
      }
    }
    return true;
  }

  /** The inner loop. */
  method ApartFromLater(table: seq<Resource>, addresses: seq<nat>, sizes: seq<nat>, i: nat) returns (ok: bool)
    requires |addresses| == |sizes| && i < |sizes| && sizes[i] > 0
    requires forall j: nat | j < |sizes| && sizes[j] > 0 :: exists k: nat :: Held(table, addresses, sizes, j, k)
    ensures ok <==> forall j: nat, k: nat | i < j < |sizes| && sizes[j] > 0
                     && Held(table, addresses, sizes, i, k) && Held(table, addresses, sizes, j, k) :: Apart(addresses, sizes, i, j)
  {
    var first := Find(table, addresses, sizes, i);
    if first.None? {
      return false;
    }
    var firstOffset := addresses[i] - table[first.value].deviceAddress;
    var firstEnd := firstOffset + sizes[i];
    for j := i + 1 to |sizes|
      invariant forall b: nat, k: nat | i < b < j && sizes[b] > 0
                  && Held(table, addresses, sizes, i, k) && Held(table, addresses, sizes, b, k) :: Apart(addresses, sizes, i, b)
    {
      if sizes[j] == 0 {
        continue;
      }
      var second := Find(table, addresses, sizes, j);
      if second.None? {
        return false;
      }
      if first != second {
        continue;
      }
      var secondOffset := addresses[j] - table[second.value].deviceAddress;
      var secondEnd := secondOffset + sizes[j];
      if firstOffset < secondEnd && secondOffset < firstEnd {
        assert !Apart(addresses, sizes, i, j);
        return false;
      }
    }
    return true;
  }

  /** When bound buffers do not overlap, addresses that stay give every build a region of its own. */
  lemma PreservedRegionsAreApart(table: seq<Resource>, addresses: seq<nat>, sizes: seq<nat>, i: nat, j: nat)
    requires |addresses| == |sizes| && Preservable(table, addresses, sizes)
    requires i < j < |sizes| && sizes[i] > 0 && sizes[j] > 0
    requires forall k, l | 0 <= k < |table| && 0 <= l < |table| && k != l && table[k].state.Bound? && table[l].state.Bound? ::
      Disjoint(table[k].deviceAddress, table[k].size, table[l].deviceAddress, table[l].size)
    ensures Apart(addresses, sizes, i, j)
  {
    var k: nat :| Held(table, addresses, sizes, i, k);
    var l: nat :| Held(table, addresses, sizes, j, l);
    if k != l {
      assert Disjoint(table[k].deviceAddress, table[k].size, table[l].deviceAddress, table[l].size);
    }
  }
}
