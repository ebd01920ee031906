/** Descriptors marked inside a buffer: captured descriptor bytes are exchanged for those of the replay device, and
    back for a checksum (src/hardcode_read.cpp:3040-3066, 4204-4230, 4680-4706). */
module DescriptorRewrites {
  import opened Bytes

  /** An entry of pending_descriptor_rewrites. */
  datatype Rewrite = Rewrite(descriptorType: nat, captured: seq<byte>, replayed: seq<byte>)

  predicate StartsWith(s: seq<byte>, start: seq<byte>) {
    |start| <= |s| && s[..|start|] == start
  }

  predicate CapturedAs(c: Rewrite, descriptorType: nat, s: seq<byte>) {
    c.descriptorType == descriptorType && c.captured != [] && StartsWith(s, c.captured)
  }

  predicate ReplayedAs(c: Rewrite, descriptorType: nat, s: seq<byte>) {
    c.descriptorType == descriptorType && c.replayed != [] && c.captured != [] && StartsWith(s, c.replayed)
  }

  // ---- forward

  /** The first rewrite of what `s` starts with, or none. */
  ghost predicate IsReplacement(queue: seq<Rewrite>, descriptorType: nat, s: seq<byte>, bytes: seq<byte>) {
    if exists c :: c in queue && CapturedAs(c, descriptorType, s) then
      exists k :: 0 <= k < |queue| && FirstCaptured(queue, descriptorType, s, k) && bytes == queue[k].replayed
    else bytes == []
  }

  predicate FirstCaptured(queue: seq<Rewrite>, descriptorType: nat, s: seq<byte>, k: nat) {
    k < |queue| && CapturedAs(queue[k], descriptorType, s) && forall j | 0 <= j < k :: !CapturedAs(queue[j], descriptorType, s)
  }

  lemma {:induction false} ReplacementIsFirst(queue: seq<Rewrite>, descriptorType: nat, s: seq<byte>)
    ensures IsReplacement(queue, descriptorType, s, Replacement(queue, descriptorType, s))
  {
    if queue != [] {
      if CapturedAs(queue[0], descriptorType, s) {
        assert queue[0] in queue && FirstCaptured(queue, descriptorType, s, 0);
      } else {
        ReplacementIsFirst(queue[1..], descriptorType, s);
        assert forall c | c in queue :: c == queue[0] || c in queue[1..];
        if k :| 0 <= k < |queue[1..]| && FirstCaptured(queue[1..], descriptorType, s, k)
                && Replacement(queue[1..], descriptorType, s) == queue[1..][k].replayed {
          assert FirstCaptured(queue, descriptorType, s, k + 1);
        }
      }
    }
  }

  /** The bytes of the first rewrite of what `s` starts with; none when nothing is to be changed. */
  function Replacement(queue: seq<Rewrite>, descriptorType: nat, s: seq<byte>): (bytes: seq<byte>)
    ensures bytes != [] ==> exists c :: c in queue && CapturedAs(c, descriptorType, s) && c.replayed == bytes
    ensures bytes == [] && (forall c | c in queue :: c.replayed != []) ==>
      forall c | c in queue :: !CapturedAs(c, descriptorType, s)
  {
    if queue == [] then []
    else if CapturedAs(queue[0], descriptorType, s) then assert queue[0] in queue; queue[0].replayed
    else Replacement(queue[1..], descriptorType, s)
  }

  /** The std::find_if over the queue. */
  method FindRewrite(queue: seq<Rewrite>, descriptorType: nat, s: seq<byte>) returns (bytes: seq<byte>)
    ensures IsReplacement(queue, descriptorType, s, bytes) && bytes == Replacement(queue, descriptorType, s)
  {
    ReplacementIsFirst(queue, descriptorType, s);
    for i := 0 to |queue|
      invariant Replacement(queue, descriptorType, s) == Replacement(queue[i..], descriptorType, s)
    {
      if CapturedAs(queue[i], descriptorType, s) {
        return queue[i].replayed;
      }
      assert queue[i..][1..] == queue[i + 1..];
    }
    return [];
  }

  // ---- backward

  datatype Origin = Unknown | Captured(bytes: seq<byte>) | Ambiguous

  /** What a reverse lookup should answer: all rewrites to these bytes agree on the captured ones, or it cannot. */
  ghost predicate IsOrigin(queue: seq<Rewrite>, descriptorType: nat, s: seq<byte>, origin: Origin) {
    match origin
    case Unknown => forall c | c in queue :: !ReplayedAs(c, descriptorType, s)
    case Captured(bytes) =>
      && (exists c :: c in queue && ReplayedAs(c, descriptorType, s) && c.captured == bytes)
      && (forall c | c in queue && ReplayedAs(c, descriptorType, s) :: c.captured == bytes)
    case Ambiguous =>
      exists a, b :: a in queue && b in queue && ReplayedAs(a, descriptorType, s) && ReplayedAs(b, descriptorType, s)
                     && a.captured != b.captured
  }

  function OriginOf(queue: seq<Rewrite>, descriptorType: nat, s: seq<byte>): (origin: Origin)
    ensures IsOrigin(queue, descriptorType, s, origin)
  {
    if queue == [] then Unknown else
      var rest := OriginOf(queue[1..], descriptorType, s);
      var c := queue[0];
      assert c in queue && forall d :: d in queue <==> d == c || d in queue[1..];
      if !ReplayedAs(c, descriptorType, s) then rest
      else if rest == Unknown then Captured(c.captured)
      else if rest == Captured(c.captured) then rest
      else Ambiguous
  }

  lemma OriginIsUnique(queue: seq<Rewrite>, descriptorType: nat, s: seq<byte>, a: Origin, b: Origin)
    requires IsOrigin(queue, descriptorType, s, a) && IsOrigin(queue, descriptorType, s, b)
    ensures a == b
  {}

  /** reverse_translate_descriptor_replay_bytes */
  method FindOrigin(queue: seq<Rewrite>, descriptorType: nat, s: seq<byte>) returns (origin: Origin)
    ensures origin == OriginOf(queue, descriptorType, s)
  {
    origin := Unknown;
    for i := 0 to |queue|
      invariant origin != Ambiguous && IsOrigin(queue[..i], descriptorType, s, origin)
    {
      var c := queue[i];
      assert forall d :: d in queue[..i + 1] <==> d == c || d in queue[..i];
      if ReplayedAs(c, descriptorType, s) {
        if origin.Captured? && origin.bytes != c.captured {
          OriginIsUnique(queue, descriptorType, s, Ambiguous, OriginOf(queue, descriptorType, s));
          return Ambiguous;
        }
        origin := Captured(c.captured);
      }
    }
    assert queue[..|queue|] == queue;
    OriginIsUnique(queue, descriptorType, s, origin, OriginOf(queue, descriptorType, s));
  }

  // ---- there and back

  /** All rewrites of a type have the size that the device gives descriptors of this type. */
  predicate Sized(queue: seq<Rewrite>, size: nat -> nat) {
    forall c | c in queue :: |c.captured| == |c.replayed| == size(c.descriptorType) > 0
  }

  /** Every rewrite to these bytes was from those. */
  predicate OnlyFrom(queue: seq<Rewrite>, descriptorType: nat, replayed: seq<byte>, captured: seq<byte>) {
    forall c | c in queue && c.descriptorType == descriptorType && c.replayed == replayed :: c.captured == captured
  }

  /** What becomes of a whole descriptor. */
  function Rewritten(queue: seq<Rewrite>, descriptorType: nat, s: seq<byte>): seq<byte> {
    var bytes := Replacement(queue, descriptorType, s);
    if bytes == [] then s else bytes
  }

  /** What a checksum takes for it; None when it aborts. */
  function GivenBack(queue: seq<Rewrite>, descriptorType: nat, s: seq<byte>): Option<seq<byte>> {
    match OriginOf(queue, descriptorType, s)
    case Unknown => Some(s)
    case Captured(bytes) => Some(bytes)
    case Ambiguous => None
  }

  /** A descriptor comes back if and only if no other captured descriptor has the same bytes at replay; one that is
      not rewritten at all, iff it does not look like the replay form of another. */
  lemma DescriptorReturns(queue: seq<Rewrite>, size: nat -> nat, descriptorType: nat, s: seq<byte>)
    requires Sized(queue, size) && |s| == size(descriptorType)
    ensures GivenBack(queue, descriptorType, Rewritten(queue, descriptorType, s)) == Some(s)
       <==> OnlyFrom(queue, descriptorType, Rewritten(queue, descriptorType, s), s)
  {
    var t := Rewritten(queue, descriptorType, s);
    assert forall c | c in queue :: c.replayed != [];
    forall c | c in queue
      ensures CapturedAs(c, descriptorType, s) <==> c.descriptorType == descriptorType && c.captured == s
      ensures ReplayedAs(c, descriptorType, t) <==> c.descriptorType == descriptorType && c.replayed == t
    {
    }
  }

  lemma StartsAlike(s: seq<byte>, n: nat, start: seq<byte>)
    requires |start| == n <= |s|
    ensures StartsWith(s, start) <==> StartsWith(s[..n], start)
  {}

  /** Only the first size(descriptorType) bytes matter. */
  lemma {:induction false} ReplacementIsLocal(queue: seq<Rewrite>, size: nat -> nat, descriptorType: nat, s: seq<byte>,
                                              n: nat)
    requires Sized(queue, size) && n == size(descriptorType) <= |s|
    ensures Replacement(queue, descriptorType, s) == Replacement(queue, descriptorType, s[..n])
    ensures Replacement(queue, descriptorType, s) == [] || |Replacement(queue, descriptorType, s)| == n
    decreases |queue|
  {
    if queue != [] {
      assert queue[0] in queue && forall c | c in queue[1..] :: c in queue;
      if queue[0].descriptorType == descriptorType {
        StartsAlike(s, n, queue[0].captured);
      }
      ReplacementIsLocal(queue[1..], size, descriptorType, s, n);
    }
  }

  lemma {:induction false} OriginIsLocal(queue: seq<Rewrite>, size: nat -> nat, descriptorType: nat, s: seq<byte>,
                                         n: nat)
    requires Sized(queue, size) && n == size(descriptorType) <= |s|
    ensures OriginOf(queue, descriptorType, s) == OriginOf(queue, descriptorType, s[..n])
    ensures OriginOf(queue, descriptorType, s).Captured? ==> |OriginOf(queue, descriptorType, s).bytes| == n
    decreases |queue|
  {
    if queue != [] {
      assert queue[0] in queue && forall c | c in queue[1..] :: c in queue;
      if queue[0].descriptorType == descriptorType {
        StartsAlike(s, n, queue[0].replayed);
      }
      OriginIsLocal(queue[1..], size, descriptorType, s, n);
    }
  }

  /** What is given back for a rewritten descriptor is what was rewritten. */
  lemma GivenBackIsBefore(queue: seq<Rewrite>, size: nat -> nat, descriptorType: nat, u: seq<byte>, s: seq<byte>)
    requires Sized(queue, size) && |u| == |s| == size(descriptorType)
    requires GivenBack(queue, descriptorType, Rewritten(queue, descriptorType, u)) == Some(s)
    ensures Rewritten(queue, descriptorType, u) == u || u == s
  {
    var t := Rewritten(queue, descriptorType, u);
    if Replacement(queue, descriptorType, u) != [] {
      var c :| c in queue && CapturedAs(c, descriptorType, u) && c.replayed == t;
      assert ReplayedAs(c, descriptorType, t) && c.captured == u;
    }
  }
}
