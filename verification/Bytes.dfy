/** Bytes, little-endian integers and the small sequence vocabulary shared by every module. */
module Bytes {

  type byte = x: int | 0 <= x < 256

  datatype Option<+T> = None | Some(value: T)

  const U32_LIMIT: nat := 0x1_0000_0000
  const U64_LIMIT: nat := 0x1_0000_0000_0000_0000

  function Min(a: nat, b: nat): nat { if a < b then a else b }

  function Max(a: nat, b: nat): nat { if a < b then b else a }

  predicate NoRepeats<T(==)>(list: seq<T>) {
    forall i, j | 0 <= i < j < |list| :: list[i] != list[j]
  }

  /** std::remove of one value from a list. */
  function Without(list: seq<nat>, v: nat): (r: seq<nat>)
    ensures forall x :: x in r <==> x in list && x != v
  {
    if list == [] then [] else (if list[0] == v then [] else [list[0]]) + Without(list[1..], v)
  }

  /** The n low-order bytes of v, least significant first. */
  function LittleEndian(v: nat, n: nat): (s: seq<byte>)
    ensures |s| == n
    decreases n, v
  {
    if n == 0 then [] else [v % 256] + LittleEndian(v / 256, n - 1)
  }

  function FromLittleEndian(s: seq<byte>): nat {
    if s == [] then 0 else s[0] + 256 * FromLittleEndian(s[1..])
  }

  function Pow256(n: nat): (p: nat)
    ensures p > 0
  {
    if n == 0 then 1 else 256 * Pow256(n - 1)
  }

  lemma Pow256Values()
    ensures Pow256(4) == U32_LIMIT
    ensures Pow256(8) == U64_LIMIT
  {
    assert Pow256(2) == 0x1_0000;
    assert Pow256(4) == 256 * (256 * Pow256(2));
    assert Pow256(6) == 256 * (256 * Pow256(4));
    assert Pow256(8) == 256 * (256 * Pow256(6));
  }

  lemma {:induction false} DecodeEncode(v: nat, n: nat)
    requires v < Pow256(n)
    ensures FromLittleEndian(LittleEndian(v, n)) == v
  {
    if n > 0 {
      DecodeEncode(v / 256, n - 1);
      assert LittleEndian(v, n)[1..] == LittleEndian(v / 256, n - 1);
    }
  }

  lemma LowByte(d: byte, v: nat)
    ensures (d + 256 * v) % 256 == d && (d + 256 * v) / 256 == v
  {}

  lemma {:induction false} EncodeDecode(s: seq<byte>)
    ensures FromLittleEndian(s) < Pow256(|s|)
    ensures LittleEndian(FromLittleEndian(s), |s|) == s
  {
    if s != [] {
      var v := FromLittleEndian(s[1..]);
      EncodeDecode(s[1..]);
      LowByte(s[0], v);
      assert LittleEndian(s[0] + 256 * v, |s|) == [s[0]] + LittleEndian(v, |s| - 1);
    }
  }

  /** Each byte counts 256 times as much as the one before it. */
  lemma {:induction false} LaterBytesCountMore(s: seq<byte>, d: byte)
    ensures FromLittleEndian(s + [d]) == FromLittleEndian(s) + d * Pow256(|s|)
  {
    if s == [] {
      assert s + [d] == [d] && [d][1..] == [];
    } else {
      LaterBytesCountMore(s[1..], d);
      assert (s + [d])[1..] == s[1..] + [d];
      assert 256 * (d * Pow256(|s| - 1)) == d * (256 * Pow256(|s| - 1));
    }
  }

  lemma Assoc<T>(a: seq<T>, b: seq<T>, c: seq<T>)
    ensures (a + b) + c == a + (b + c)
  {}

  lemma Unit<T>(a: seq<T>)
    ensures a + [] == a && [] + a == a
  {}

  lemma ConcatParts<T>(a: seq<T>, b: seq<T>)
    ensures (a + b)[..|a|] == a && (a + b)[|a|..] == b
  {}

  lemma SliceOfRest<T>(s: seq<T>, from: nat, n: nat)
    requires from + n <= |s|
    ensures s[from..from + n] == s[from..][..n]
    ensures s[from + n..] == s[from..][n..]
  {}

  /** s with the elements from `at` on overwritten by `data`. */
  function Splice<T>(s: seq<T>, at: nat, data: seq<T>): (r: seq<T>)
    requires at + |data| <= |s|
    ensures |r| == |s|
  {
    s[..at] + data + s[at + |data|..]
  }

  lemma SpliceFirst<T>(a: seq<T>, b: seq<T>, at: nat, data: seq<T>)
    requires at + |data| <= |a|
    ensures Splice(a + b, at, data) == Splice(a, at, data) + b
  {}

  lemma SpliceSecond<T>(a: seq<T>, b: seq<T>, at: nat, data: seq<T>)
    requires at + |data| <= |b|
    ensures Splice(a + b, |a| + at, data) == a + Splice(b, at, data)
  {}

  /** Concatenation of a list that is kept newest first, as the writer's std::list queues are. */
  function Flatten<T>(queue: seq<seq<T>>): seq<T> {
    if queue == [] then [] else Flatten(queue[1..]) + queue[0]
  }

  lemma {:induction false} FlattenConcat<T>(newer: seq<seq<T>>, older: seq<seq<T>>)
    ensures Flatten(newer + older) == Flatten(older) + Flatten(newer)
  {
    if newer == [] {
      assert newer + older == older;
      Unit(Flatten(older));
    } else {
      FlattenConcat(newer[1..], older);
      assert (newer + older)[1..] == newer[1..] + older;
      Assoc(Flatten(older), Flatten(newer[1..]), newer[0]);
    }
  }

  lemma FlattenSingle<T>(part: seq<T>)
    ensures Flatten([part]) == part
  {
    Unit(part);
  }

  lemma FlattenPopBack<T>(queue: seq<seq<T>>)
    requires queue != []
    ensures Flatten(queue) == queue[|queue| - 1] + Flatten(queue[..|queue| - 1])
  {
    var last := |queue| - 1;
    assert queue == queue[..last] + [queue[last]];
    FlattenConcat(queue[..last], [queue[last]]);
    FlattenSingle(queue[last]);
  }
}
