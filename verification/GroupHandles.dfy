/** Shader group handles marked inside a buffer: the handle a pipeline had at capture is exchanged for the one it has
    at replay, and back for a checksum (src/hardcode_read.cpp:2401-2493, 4232-4310). */
module GroupHandles {
  import opened Bytes

  const HANDLE_SIZE: nat := 32

  /** The group handles of a pipeline, one behind the other, with the size they were queried with. */
  datatype Handles = Handles(size: nat, bytes: seq<byte>)

  datatype Pipeline = Pipeline(captureReplay: bool, groupCount: nat, captured: Handles, replayed: Handles)

  /** How many groups are searched. */
  function Groups(t: Handles, groupCount: nat): (n: nat)
    ensures forall g: nat :: g < n <==> Has(t, g) && (groupCount == 0 || g < groupCount)
  {
    if t.size != HANDLE_SIZE then 0
    else if groupCount == 0 || groupCount > |t.bytes| / HANDLE_SIZE then |t.bytes| / HANDLE_SIZE
    else groupCount
  }

  predicate Has(t: Handles, g: nat) {
    t.size == HANDLE_SIZE && HANDLE_SIZE * g + HANDLE_SIZE <= |t.bytes|
  }

  function HandleOf(t: Handles, g: nat): (h: seq<byte>)
    requires HANDLE_SIZE * g + HANDLE_SIZE <= |t.bytes|
    ensures |h| == HANDLE_SIZE
  {
    t.bytes[HANDLE_SIZE * g..HANDLE_SIZE * g + HANDLE_SIZE]
  }

  predicate IsGroup(t: Handles, groupCount: nat, h: seq<byte>, g: nat) {
    Has(t, g) && (groupCount == 0 || g < groupCount) && HandleOf(t, g) == h
  }

  datatype Match = NoGroup | Group(g: nat) | Several

  /** None, the only one, or one of several. */
  ghost predicate IsMatch(t: Handles, groupCount: nat, h: seq<byte>, m: Match) {
    match m
    case NoGroup => forall g: nat :: !IsGroup(t, groupCount, h, g)
    case Group(g) => IsGroup(t, groupCount, h, g) && forall f: nat | IsGroup(t, groupCount, h, f) :: f == g
    case Several => exists f: nat, g: nat :: IsGroup(t, groupCount, h, f) && IsGroup(t, groupCount, h, g) && f != g
  }

  /** find_marked_shader_group_handle_match and find_marked_shader_group_replay_handle_match */
  method FindGroup(t: Handles, groupCount: nat, h: seq<byte>) returns (m: Match)
    ensures IsMatch(t, groupCount, h, m)
  {
    m := NoGroup;
    for i := 0 to Groups(t, groupCount)
      invariant m != Several
      invariant m.NoGroup? ==> forall g: nat | g < i :: !IsGroup(t, groupCount, h, g)
      invariant m.Group? ==> m.g < i && IsGroup(t, groupCount, h, m.g)
      invariant m.Group? ==> forall g: nat | g < i && IsGroup(t, groupCount, h, g) :: g == m.g
    {
      if HandleOf(t, i) == h {
        assert IsGroup(t, groupCount, h, i);
        if m.Group? {
          return Several;
        }
        m := Group(i);
      }
    }
  }

  // ---- over all pipelines

  /** The handles of a pipeline by which a marked handle is looked up: those it had at capture, or those it shows at
      replay. A pipeline with capture replay shows the captured ones. */
  function Shown(p: Pipeline, atReplay: bool): Handles {
    if atReplay && !p.captureReplay then p.replayed else p.captured
  }

  predicate Owns(pipelines: seq<Pipeline>, atReplay: bool, h: seq<byte>, p: nat, g: nat) {
    p < |pipelines| && IsGroup(Shown(pipelines[p], atReplay), pipelines[p].groupCount, h, g)
  }

  /** The handle is that of one group of one pipeline. */
  ghost predicate OwnsAlone(pipelines: seq<Pipeline>, atReplay: bool, h: seq<byte>, p: nat, g: nat) {
    Owns(pipelines, atReplay, h, p, g)
    && forall q: nat, f: nat | Owns(pipelines, atReplay, h, q, f) :: q == p && f == g
  }

  /** Where the handle of that group is looked up for the other side. */
  function Other(p: Pipeline, atReplay: bool): Handles {
    if atReplay || p.captureReplay then p.captured else p.replayed
  }

  /** What the handle is exchanged for; None stands for the aborts: no group, more than one, or one without a
      handle on the other side. */
  ghost predicate IsExchange(pipelines: seq<Pipeline>, atReplay: bool, h: seq<byte>, other: Option<seq<byte>>) {
    if other.Some? then
      exists p: nat, g: nat :: OwnsAlone(pipelines, atReplay, h, p, g) && Has(Other(pipelines[p], atReplay), g)
                               && other.value == HandleOf(Other(pipelines[p], atReplay), g)
    else
      forall p: nat, g: nat :: !(OwnsAlone(pipelines, atReplay, h, p, g) && Has(Other(pipelines[p], atReplay), g))
  }

  ghost function Exchanged(pipelines: seq<Pipeline>, atReplay: bool, h: seq<byte>): (other: Option<seq<byte>>)
    ensures IsExchange(pipelines, atReplay, h, other)
  {
    if p: nat, g: nat :| OwnsAlone(pipelines, atReplay, h, p, g) && Has(Other(pipelines[p], atReplay), g) then
      Some(HandleOf(Other(pipelines[p], atReplay), g))
    else None
  }

  lemma ExchangeIsUnique(pipelines: seq<Pipeline>, atReplay: bool, h: seq<byte>, a: Option<seq<byte>>, b: Option<seq<byte>>)
    requires IsExchange(pipelines, atReplay, h, a) && IsExchange(pipelines, atReplay, h, b)
    ensures a == b
  {}

  /** The pipelines before i: no group with the handle, or just this one. */
  ghost predicate SoFar(pipelines: seq<Pipeline>, atReplay: bool, h: seq<byte>, i: nat, found: Option<(nat, nat)>) {
    if found.None? then forall q: nat, f: nat | q < i :: !Owns(pipelines, atReplay, h, q, f)
    else
      && found.value.0 < i && Owns(pipelines, atReplay, h, found.value.0, found.value.1)
      && (forall q: nat, f: nat | q < i && Owns(pipelines, atReplay, h, q, f) :: (q, f) == found.value)
      && Has(Other(pipelines[found.value.0], atReplay), found.value.1)
  }

  /** The loops of rewrite_marked_shader_group_handle and, at replay, of reverse_translate_shader_group_handle. */
  method Exchange(pipelines: seq<Pipeline>, atReplay: bool, h: seq<byte>) returns (other: Option<seq<byte>>)
    ensures other == Exchanged(pipelines, atReplay, h)
  {
    var found: Option<(nat, nat)> := None;
    for i := 0 to |pipelines|
      invariant SoFar(pipelines, atReplay, h, i, found)
    {
      var p := pipelines[i];
      var m := FindGroup(Shown(p, atReplay), p.groupCount, h);
      assert forall g: nat :: Owns(pipelines, atReplay, h, i, g) <==> IsGroup(Shown(p, atReplay), p.groupCount, h, g);
      if m == Several || (m.Group? && (found.Some? || !Has(Other(p, atReplay), m.g))) {
        CannotExchange(pipelines, atReplay, h, i, found, m);
        return None;
      }
      if m.Group? {
        found := Some((i, m.g));
      }
    }
    if found.None? {
      ExchangeIsUnique(pipelines, atReplay, h, None, Exchanged(pipelines, atReplay, h));
      return None;
    }
    var table := Other(pipelines[found.value.0], atReplay);
    other := Some(HandleOf(table, found.value.1));
    assert OwnsAlone(pipelines, atReplay, h, found.value.0, found.value.1);
    ExchangeIsUnique(pipelines, atReplay, h, other, Exchanged(pipelines, atReplay, h));
  }

  lemma CannotExchange(pipelines: seq<Pipeline>, atReplay: bool, h: seq<byte>, i: nat, found: Option<(nat, nat)>, m: Match)
    requires i < |pipelines| && SoFar(pipelines, atReplay, h, i, found)
    requires IsMatch(Shown(pipelines[i], atReplay), pipelines[i].groupCount, h, m)
    requires m == Several || (m.Group? && (found.Some? || !Has(Other(pipelines[i], atReplay), m.g)))
    ensures Exchanged(pipelines, atReplay, h) == None
  {
    var p := pipelines[i];
    assert forall g: nat :: IsGroup(Shown(p, atReplay), p.groupCount, h, g) <==> Owns(pipelines, atReplay, h, i, g);
    forall q: nat, g: nat ensures !(OwnsAlone(pipelines, atReplay, h, q, g) && Has(Other(pipelines[q], atReplay), g)) {
      if m.Group? {
        assert Owns(pipelines, atReplay, h, i, m.g);
      }
    }
    ExchangeIsUnique(pipelines, atReplay, h, None, Exchanged(pipelines, atReplay, h));
  }

  // ---- there and back

  /** The group that owned a handle at capture is found again by the handle it shows at replay. */
  lemma ShownIsOwned(pipelines: seq<Pipeline>, h: seq<byte>, p: nat, g: nat, t: seq<byte>)
    requires Owns(pipelines, false, h, p, g) && Has(Other(pipelines[p], false), g)
    requires t == HandleOf(Other(pipelines[p], false), g)
    ensures Owns(pipelines, true, t, p, g)
  {}

  /** A pipeline with capture replay has the same handles on both sides: its own are left as they are. */
  lemma CaptureReplayKeepsHandles(pipelines: seq<Pipeline>, h: seq<byte>, p: nat, g: nat)
    requires OwnsAlone(pipelines, false, h, p, g) && pipelines[p].captureReplay
    ensures Exchanged(pipelines, false, h) == Some(h)
  {
    ExchangeIsUnique(pipelines, false, h, Exchanged(pipelines, false, h), Some(h));
  }

  /** Of any other pipeline the handle is that of the same group in the other list. */
  lemma OthersExchangeHandles(pipelines: seq<Pipeline>, h: seq<byte>, p: nat, g: nat)
    requires OwnsAlone(pipelines, false, h, p, g) && !pipelines[p].captureReplay
    ensures IsGroup(pipelines[p].captured, pipelines[p].groupCount, h, g)
    ensures Exchanged(pipelines, false, h)
         == if Has(pipelines[p].replayed, g) then Some(HandleOf(pipelines[p].replayed, g)) else None
  {
    var replayed := pipelines[p].replayed;
    ExchangeIsUnique(pipelines, false, h, Exchanged(pipelines, false, h),
                     if Has(replayed, g) then Some(HandleOf(replayed, g)) else None);
  }

  /** A handle that was exchanged for that of group g of pipeline p comes back if and only if no other group shows
      the same handle at replay. */
  lemma HandleReturns(pipelines: seq<Pipeline>, h: seq<byte>, t: seq<byte>) returns (p: nat, g: nat)
    requires Exchanged(pipelines, false, h) == Some(t)
    ensures OwnsAlone(pipelines, false, h, p, g) && Owns(pipelines, true, t, p, g)
    ensures Exchanged(pipelines, true, t) == Some(h)
       <==> forall q: nat, f: nat | Owns(pipelines, true, t, q, f) :: q == p && f == g
  {
    p, g :| OwnsAlone(pipelines, false, h, p, g) && Has(Other(pipelines[p], false), g)
            && t == HandleOf(Other(pipelines[p], false), g);
    ShownIsOwned(pipelines, h, p, g, t);
    if OwnsAlone(pipelines, true, t, p, g) {
      assert Has(Other(pipelines[p], true), g);
      ExchangeIsUnique(pipelines, true, t, Exchanged(pipelines, true, t), Some(h));
    }
    if Exchanged(pipelines, true, t) == Some(h) {
      var q: nat, f: nat :| OwnsAlone(pipelines, true, t, q, f) && Has(Other(pipelines[q], true), f);
      assert q == p && f == g;
    }
  }

  /** What is given back for the replay handle of a group is the handle that this group had at capture. */
  lemma GivenBackIsOwned(pipelines: seq<Pipeline>, t: seq<byte>, p: nat, g: nat, u: seq<byte>, s: seq<byte>)
    requires Owns(pipelines, false, u, p, g) && Owns(pipelines, true, t, p, g)
    requires Exchanged(pipelines, true, t) == Some(s)
    ensures u == s
  {
    var q: nat, f: nat :| OwnsAlone(pipelines, true, t, q, f) && Has(Other(pipelines[q], true), f)
                          && s == HandleOf(Other(pipelines[q], true), f);
    assert q == p && f == g;
  }
}
