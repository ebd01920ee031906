/** Which command buffers may still be executing: the bookkeeping replay keeps per command buffer and
    per fence, against the work a device really has in flight (src/hardcode_read.cpp:1173-1207,
    1231-1248, 1538-1579, 1639-1658, 1713-1845, 1847-2018). */
module PendingSubmissions {
  import opened Bytes

  /** trackedcmdbuffer; `alive` is whether the handle is still in the index. */
  datatype CommandBuffer = CommandBuffer(
    alive: bool, device: nat, pool: nat, simultaneousUse: bool,
    pending: bool, queue: Option<nat>, fence: Option<nat>, scratch: seq<nat>)

  /** trackedfence. */
  datatype Fence = Fence(alive: bool, pending: seq<nat>)

  /** One execution of a command buffer; the numbers of one queue grow in submission order. */
  datatype Submission = Submission(buffer: nat, queue: nat, number: nat)

  datatype Target = Target(queue: nat, number: nat)

  /** What the device does, which replay only sees through waits: `targets` has the submission that each
      fence was last handed to, until it is reset. */
  datatype Gpu = Gpu(inFlight: set<Submission>, targets: map<nat, Target>, next: nat)

  datatype System = System(buffers: seq<CommandBuffer>, fences: seq<Fence>, gpu: Gpu)

  predicate LiveFence(s: System, f: Option<nat>) {
    f.Some? && f.value < |s.fences| && s.fences[f.value].alive
  }

  predicate LiveBuffer(s: System, b: nat) {
    b < |s.buffers| && s.buffers[b].alive
  }

  // ---- the device

  /** A fence signals after everything submitted to its queue up to its own submission. */
  predicate CoveredBy(x: Submission, t: Target) {
    x.queue == t.queue && x.number <= t.number
  }

  function FenceDone(g: Gpu, f: nat): Gpu {
    if f in g.targets then g.(inFlight := set x | x in g.inFlight && !CoveredBy(x, g.targets[f])) else g
  }

  function QueueDone(g: Gpu, q: nat): Gpu {
    g.(inFlight := set x | x in g.inFlight && x.queue != q)
  }

  predicate Signalled(g: Gpu, f: nat) {
    f in g.targets ==> forall x | x in g.inFlight :: !CoveredBy(x, g.targets[f])
  }

  predicate NotInFlight(s: System, b: nat) {
    forall x | x in s.gpu.inFlight :: x.buffer != b
  }

  // ---- the bookkeeping as functions

  function Cleared(c: CommandBuffer): CommandBuffer {
    c.(pending := false, queue := None, fence := None)
  }

  /** replay_clear_pending_commandbuffer */
  function ClearBuffer(s: System, b: nat): System
    requires b < |s.buffers|
  {
    var f := s.buffers[b].fence;
    s.(buffers := s.buffers[b := Cleared(s.buffers[b])],
       fences := if LiveFence(s, f)
         then s.fences[f.value := s.fences[f.value].(pending := Without(s.fences[f.value].pending, b))]
         else s.fences)
  }

  /** replay_mark_pending_commandbuffer; no fence is the null handle. */
  function Mark(s: System, b: nat, q: nat, f: Option<nat>): System
    requires b < |s.buffers| && (f.Some? ==> f.value < |s.fences|)
  {
    var t := ClearBuffer(s, b);
    t.(buffers := t.buffers[b := t.buffers[b].(pending := true, queue := Some(q), fence := f)],
       fences := if f.None? then t.fences
         else t.fences[f.value := t.fences[f.value].(pending := t.fences[f.value].pending + [b])])
  }

  /** replay_clear_pending_fence */
  function ClearFence(s: System, f: nat): System {
    if !LiveFence(s, Some(f)) then s else
      s.(buffers := seq(|s.buffers|, b requires 0 <= b < |s.buffers| =>
           if b in s.fences[f].pending && s.buffers[b].alive && s.buffers[b].fence == Some(f)
           then Cleared(s.buffers[b]) else s.buffers[b]),
         fences := s.fences[f := s.fences[f].(pending := [])])
  }

  /** replay_wait_for_pending_commandbuffer, with what its wait makes the device finish. */
  function WaitFor(s: System, b: nat, allowSimultaneousUse: bool): System
    requires b < |s.buffers|
  {
    var c := s.buffers[b];
    if !c.pending || (allowSimultaneousUse && c.simultaneousUse) then s
    else if LiveFence(s, c.fence) then ClearFence(s.(gpu := FenceDone(s.gpu, c.fence.value)), c.fence.value)
    else if c.queue.Some? then ClearBuffer(s.(gpu := QueueDone(s.gpu, c.queue.value)), b)
    else ClearBuffer(s, b)
  }

  /** replay_cleanup_commandbuffer_for_rerecord */
  function Cleanup(s: System, b: nat): System
    requires b < |s.buffers|
  {
    var t := WaitFor(s, b, false);
    t.(buffers := t.buffers[b := t.buffers[b].(scratch := [])])
  }

  // ---- what is kept

  /** A live buffer is on a live fence's list exactly once when it is pending with that fence, and not at
      all otherwise. */
  ghost predicate ListsMatch(s: System) {
    && (forall f: nat, b: nat | LiveFence(s, Some(f)) && LiveBuffer(s, b) ::
          b in s.fences[f].pending <==> s.buffers[b].pending && s.buffers[b].fence == Some(f))
    && (forall f: nat | LiveFence(s, Some(f)) :: NoRepeats(s.fences[f].pending) && Known(s, s.fences[f].pending))
  }

  predicate Known(s: System, list: seq<nat>) {
    forall b | b in list :: b < |s.buffers|
  }

  /** A buffer names a queue while it is pending, and a fence only then. */
  ghost predicate FieldsAgree(s: System) {
    forall b: nat | b < |s.buffers| ::
      && (s.buffers[b].pending <==> s.buffers[b].queue.Some?)
      && (s.buffers[b].fence.Some? ==> s.buffers[b].pending && s.buffers[b].fence.value < |s.fences|)
  }

  /** No list outlives the reset of its fence. */
  ghost predicate ListsAreSubmitted(s: System) {
    forall f: nat | LiveFence(s, Some(f)) && f !in s.gpu.targets :: s.fences[f].pending == []
  }

  ghost predicate NumbersAgree(g: Gpu) {
    && (forall x | x in g.inFlight :: x.number < g.next)
    && (forall f | f in g.targets :: g.targets[f].number < g.next)
  }

  /** What replay has recorded for the buffer is enough to wait for this execution of it. */
  ghost predicate Recorded(s: System, x: Submission) {
    && x.buffer < |s.buffers|
    && (s.buffers[x.buffer].alive ==>
          var c := s.buffers[x.buffer];
          && c.pending && c.queue == Some(x.queue)
          && (LiveFence(s, c.fence) ==> c.fence.value in s.gpu.targets && CoveredBy(x, s.gpu.targets[c.fence.value])))
  }

  ghost predicate AllRecorded(s: System) {
    forall x | x in s.gpu.inFlight :: Recorded(s, x)
  }

  /** What is pending was submitted, and a recorded fence was handed to the recorded queue. */
  ghost predicate TargetsAgree(s: System) {
    forall b: nat | LiveBuffer(s, b) && s.buffers[b].pending :: TargetAgrees(s, s.buffers[b])
  }

  predicate TargetAgrees(s: System, c: CommandBuffer) {
    && s.gpu.next > 0
    && (LiveFence(s, c.fence) && c.fence.value in s.gpu.targets ==> c.queue == Some(s.gpu.targets[c.fence.value].queue))
  }

  ghost predicate Valid(s: System) {
    && ListsMatch(s) && FieldsAgree(s) && ListsAreSubmitted(s) && NumbersAgree(s.gpu) && TargetsAgree(s)
    && AllRecorded(s)
  }

  // ---- each piece keeps it

  lemma {:induction false} WithoutKeepsOrder(list: seq<nat>, b: nat)
    requires NoRepeats(list)
    ensures NoRepeats(Without(list, b))
  {
    if list != [] {
      WithoutKeepsOrder(list[1..], b);
      assert list[0] !in list[1..];
    }
  }

  /** Forgetting a buffer that is not in flight. */
  lemma ClearBufferKeepsValid(s: System, b: nat)
    requires Valid(s) && b < |s.buffers|
    requires s.buffers[b].alive ==> NotInFlight(s, b)
    ensures Valid(ClearBuffer(s, b))
  {
    var t, f := ClearBuffer(s, b), s.buffers[b].fence;
    if LiveFence(s, f) {
      WithoutKeepsOrder(s.fences[f.value].pending, b);
    }
    forall x | x in t.gpu.inFlight ensures Recorded(t, x) {
      assert Recorded(s, x);
    }
  }

  lemma ClearFenceKeepsValid(s: System, f: nat)
    requires Valid(s) && Signalled(s.gpu, f)
    ensures Valid(ClearFence(s, f))
  {
    var t := ClearFence(s, f);
    if LiveFence(s, Some(f)) {
      forall x | x in t.gpu.inFlight ensures Recorded(t, x) {
        assert Recorded(s, x);
      }
    }
  }

  lemma FinishingKeepsValid(s: System, g: Gpu)
    requires Valid(s) && g.inFlight <= s.gpu.inFlight && g.targets == s.gpu.targets && g.next == s.gpu.next
    ensures Valid(s.(gpu := g))
  {
    var t := s.(gpu := g);
    forall x | x in g.inFlight ensures Recorded(t, x) {
      assert Recorded(s, x);
    }
  }

  /** Waiting never blocks on a fence that nobody will signal, keeps the bookkeeping right, and leaves the
      buffer neither pending nor in flight, unless simultaneous use lets it pass. */
  lemma WaitIsRight(s: System, b: nat, allow: bool)
    requires Valid(s) && LiveBuffer(s, b)
    ensures Valid(WaitFor(s, b, allow)) && WaitFor(s, b, allow).gpu.inFlight <= s.gpu.inFlight
    ensures s.buffers[b].pending && LiveFence(s, s.buffers[b].fence) ==> s.buffers[b].fence.value in s.gpu.targets
    ensures !(allow && s.buffers[b].simultaneousUse) ==>
      !WaitFor(s, b, allow).buffers[b].pending && forall x | x in WaitFor(s, b, allow).gpu.inFlight :: x.buffer != b
  {
    var c := s.buffers[b];
    forall x | x in s.gpu.inFlight ensures Recorded(s, x) {}
    if !c.pending || (allow && c.simultaneousUse) {
    } else if LiveFence(s, c.fence) {
      var f := c.fence.value;
      var g := FenceDone(s.gpu, f);
      FinishingKeepsValid(s, g);
      ClearFenceKeepsValid(s.(gpu := g), f);
      assert b in s.fences[f].pending;
    } else {
      var g := QueueDone(s.gpu, c.queue.value);
      FinishingKeepsValid(s, g);
      ClearBufferKeepsValid(s.(gpu := g), b);
    }
  }

  lemma WaitKeepsObjects(s: System, b: nat, allow: bool)
    requires b < |s.buffers|
    ensures SameObjects(s, WaitFor(s, b, allow)) && SameGpu(s.gpu, WaitFor(s, b, allow).gpu)
  {}

  predicate SameObjects(s: System, t: System) {
    && |t.buffers| == |s.buffers| && |t.fences| == |s.fences|
    && (forall b | 0 <= b < |s.buffers| ::
          t.buffers[b].alive == s.buffers[b].alive && t.buffers[b].simultaneousUse == s.buffers[b].simultaneousUse
          && t.buffers[b].pool == s.buffers[b].pool && t.buffers[b].device == s.buffers[b].device)
    && (forall f | 0 <= f < |s.fences| :: t.fences[f].alive == s.fences[f].alive)
  }

  predicate SameGpu(g: Gpu, h: Gpu) {
    h.targets == g.targets && h.next == g.next && h.inFlight <= g.inFlight
  }

  // ---- submitting

  predicate AllLive(s: System, list: seq<nat>) {
    forall b | b in list :: LiveBuffer(s, b)
  }

  /** What replay waits for in front of a submission. */
  function PreSubmit(s: System, list: seq<nat>): (r: System)
    requires AllLive(s, list)
    ensures SameObjects(s, r) && SameGpu(s.gpu, r.gpu)
  {
    if list == [] then s else
      assert list[|list| - 1] in list;
      var t := PreSubmit(s, list[..|list| - 1]);
      WaitKeepsObjects(t, list[|list| - 1], true);
      WaitFor(t, list[|list| - 1], true)
  }

  /** The device takes the submission. */
  function Submitted(g: Gpu, q: nat, list: seq<nat>, f: Option<nat>): Gpu {
    Gpu(g.inFlight + (set b | b in list :: Submission(b, q, g.next)),
        if f.Some? then g.targets[f.value := Target(q, g.next)] else g.targets, g.next + 1)
  }

  /** Then every command buffer is marked. */
  function MarkAll(s: System, list: seq<nat>, q: nat, f: Option<nat>): (r: System)
    requires AllLive(s, list) && (f.Some? ==> f.value < |s.fences|)
    ensures |r.buffers| == |s.buffers| && |r.fences| == |s.fences|
  {
    if list == [] then s else
      assert list[|list| - 1] in list;
      Mark(MarkAll(s, list[..|list| - 1], q, f), list[|list| - 1], q, f)
  }

  function Submit(s: System, q: nat, list: seq<nat>, f: Option<nat>): System
    requires AllLive(s, list) && (f.Some? ==> f.value < |s.fences|)
  {
    var t := PreSubmit(s, list);
    MarkAll(t.(gpu := Submitted(t.gpu, q, list, f)), list, q, f)
  }

  /** Every execution of these buffers still in flight is on this queue. */
  ghost predicate OnQueue(g: Gpu, list: seq<nat>, q: nat) {
    forall x | x in g.inFlight && x.buffer in list :: x.queue == q
  }

  /** No buffer in simultaneous use is pending on another queue. */
  predicate SingleQueue(s: System, list: seq<nat>, q: nat)
    requires AllLive(s, list)
  {
    forall b | b in list :: s.buffers[b].simultaneousUse && s.buffers[b].pending ==> s.buffers[b].queue == Some(q)
  }

  lemma {:induction false} PreSubmitIsRight(s: System, list: seq<nat>)
    requires Valid(s) && AllLive(s, list)
    ensures Valid(PreSubmit(s, list))
    ensures forall b | b in list && !s.buffers[b].simultaneousUse ::
      NotInFlight(PreSubmit(s, list), b)
    decreases |list|
  {
    if list != [] {
      var n := |list| - 1;
      var front, last := list[..n], list[n];
      assert last in list && forall b | b in front :: b in list;
      PreSubmitIsRight(s, front);
      WaitIsRight(PreSubmit(s, front), last, true);
      forall b | b in list && !s.buffers[b].simultaneousUse ensures NotInFlight(PreSubmit(s, list), b) {
        assert b in front || b == last;
      }
    }
  }

  /** Valid, but for executions of the buffers still to be marked. */
  ghost predicate ValidBut(s: System, todo: seq<nat>) {
    && ListsMatch(s) && FieldsAgree(s) && ListsAreSubmitted(s) && NumbersAgree(s.gpu) && TargetsAgree(s)
    && (forall x | x in s.gpu.inFlight :: Recorded(s, x) || x.buffer in todo)
  }

  lemma ClearKeepsLists(s: System, b: nat)
    requires b < |s.buffers| && ListsMatch(s) && FieldsAgree(s) && ListsAreSubmitted(s)
    ensures var t := ClearBuffer(s, b); ListsMatch(t) && FieldsAgree(t) && ListsAreSubmitted(t)
  {
    var f := s.buffers[b].fence;
    if LiveFence(s, f) {
      WithoutKeepsOrder(s.fences[f.value].pending, b);
    }
  }

  lemma MarkKeepsLists(s: System, b: nat, q: nat, f: Option<nat>)
    requires LiveBuffer(s, b) && (f.Some? ==> LiveFence(s, f) && f.value in s.gpu.targets)
    requires ListsMatch(s) && FieldsAgree(s) && ListsAreSubmitted(s)
    ensures var t := Mark(s, b, q, f); ListsMatch(t) && FieldsAgree(t) && ListsAreSubmitted(t)
  {
    ClearKeepsLists(s, b);
    var t := ClearBuffer(s, b);
    if f.Some? {
      assert b !in t.fences[f.value].pending;
    }
  }

  lemma MarkKeepsValid(s: System, b: nat, q: nat, f: Option<nat>, todo: seq<nat>, rest: seq<nat>)
    requires LiveBuffer(s, b) && ValidBut(s, todo) && (forall c | c in todo :: c == b || c in rest)
    requires Targeted(s, q, f) && OnQueue(s.gpu, [b], q)
    ensures ValidBut(Mark(s, b, q, f), rest)
  {
    MarkKeepsLists(s, b, q, f);
    var t := Mark(s, b, q, f);
    forall x | x in t.gpu.inFlight ensures Recorded(t, x) || x.buffer in rest {
      assert Recorded(s, x) || x.buffer in todo;
      if x.buffer == b {
        assert x.buffer in [b];
      }
    }
  }

  predicate Targeted(s: System, q: nat, f: Option<nat>) {
    && s.gpu.next > 0
    && (f.Some? ==> (LiveFence(s, f) && f.value in s.gpu.targets
                     && s.gpu.targets[f.value].queue == q && s.gpu.targets[f.value].number + 1 == s.gpu.next))
  }

  lemma MarkKeepsObjects(s: System, b: nat, q: nat, f: Option<nat>)
    requires b < |s.buffers| && (f.Some? ==> f.value < |s.fences|)
    ensures SameObjects(s, Mark(s, b, q, f)) && Mark(s, b, q, f).gpu == s.gpu
  {}

  lemma {:induction false} MarkAllKeepsValid(s: System, list: seq<nat>, q: nat, f: Option<nat>, rest: seq<nat>)
    requires AllLive(s, list) && ValidBut(s, list + rest) && OnQueue(s.gpu, list, q) && Targeted(s, q, f)
    ensures ValidBut(MarkAll(s, list, q, f), rest) && SameObjects(s, MarkAll(s, list, q, f)) && MarkAll(s, list, q, f).gpu == s.gpu
    decreases |list|
  {
    if list == [] {
      assert list + rest == rest;
    } else {
      var n := |list| - 1;
      var front, b := list[..n], list[n];
      assert b in list && front + ([b] + rest) == list + rest;
      MarkAllKeepsValid(s, front, q, f, [b] + rest);
      var t := MarkAll(s, front, q, f);
      MarkKeepsValid(t, b, q, f, [b] + rest, rest);
      MarkKeepsObjects(t, b, q, f);
    }
  }

  lemma SubmittedIsValidBut(t: System, q: nat, list: seq<nat>, f: Option<nat>)
    requires Valid(t) && AllLive(t, list) && (f.Some? ==> LiveFence(t, f) && f.value !in t.gpu.targets)
    requires OnQueue(t.gpu, list, q)
    ensures var u := t.(gpu := Submitted(t.gpu, q, list, f));
      AllLive(u, list) && ValidBut(u, list) && OnQueue(u.gpu, list, q) && Targeted(u, q, f)
  {
    var u := t.(gpu := Submitted(t.gpu, q, list, f));
    forall x | x in u.gpu.inFlight ensures Recorded(u, x) || x.buffer in list {
      assert x in t.gpu.inFlight ==> Recorded(t, x);
    }
  }

  /** A submission keeps the bookkeeping right exactly when nothing it resubmits is still in flight on
      another queue. */
  lemma SubmitIsRight(s: System, q: nat, list: seq<nat>, f: Option<nat>)
    requires Valid(s) && AllLive(s, list) && (f.Some? ==> LiveFence(s, f) && f.value !in s.gpu.targets)
    ensures Valid(Submit(s, q, list, f)) <==> OnQueue(PreSubmit(s, list).gpu, list, q)
  {
    PreSubmitIsRight(s, list);
    var t := PreSubmit(s, list);
    var u := t.(gpu := Submitted(t.gpu, q, list, f));
    if OnQueue(t.gpu, list, q) {
      SubmittedIsValidBut(t, q, list, f);
      MarkAllKeepsValid(u, list, q, f, []);
      assert list + [] == list;
    } else {
      var x :| x in t.gpu.inFlight && x.buffer in list && x.queue != q;
      MarkAllSetsQueue(u, list, q, f, x.buffer);
      assert x in Submit(s, q, list, f).gpu.inFlight;
    }
  }

  lemma {:induction false} MarkAllSetsQueue(s: System, list: seq<nat>, q: nat, f: Option<nat>, b: nat)
    requires AllLive(s, list) && (f.Some? ==> f.value < |s.fences|)
    ensures var r := MarkAll(s, list, q, f);
      r.gpu == s.gpu && (b < |s.buffers| ==> r.buffers[b].alive == s.buffers[b].alive)
      && (b in list ==> r.buffers[b].pending && r.buffers[b].queue == Some(q) && r.buffers[b].fence == f)
    decreases |list|
  {
    if list != [] {
      var n := |list| - 1;
      assert list[n] in list;
      MarkAllSetsQueue(s, list[..n], q, f, b);
    }
  }

  lemma SubmittedIsLive(s: System, q: nat, list: seq<nat>, f: Option<nat>)
    requires AllLive(s, list) && (f.Some? ==> f.value < |s.fences|)
    ensures AllLive(Submit(s, q, list, f), list)
  {
    var t := PreSubmit(s, list);
    var u := t.(gpu := Submitted(t.gpu, q, list, f));
    forall b | b in list ensures LiveBuffer(Submit(s, q, list, f), b) {
      MarkAllSetsQueue(u, list, q, f, b);
    }
  }

  /** The wait of a buffer knows its last submission only. */
  lemma ElsewhereStaysInFlight(s: System, q: nat, list: seq<nat>, f: Option<nat>, x: Submission)
    requires AllLive(s, list) && (f.Some? ==> f.value < |s.fences|)
    requires x in PreSubmit(s, list).gpu.inFlight && x.buffer in list && x.queue != q
    ensures AllLive(Submit(s, q, list, f), list) && x in Cleanup(Submit(s, q, list, f), x.buffer).gpu.inFlight
  {
    SubmittedIsLive(s, q, list, f);
    var t := PreSubmit(s, list);
    MarkAllSetsQueue(t.(gpu := Submitted(t.gpu, q, list, f)), list, q, f, x.buffer);
  }

  /** Re-recording any of the submitted buffers straight away is safe, whatever is in flight, exactly when
      nothing it resubmits was still in flight on another queue. */
  lemma RerecordAfterSubmit(s: System, q: nat, list: seq<nat>, f: Option<nat>)
    requires Valid(s) && AllLive(s, list) && (f.Some? ==> LiveFence(s, f) && f.value !in s.gpu.targets)
    ensures AllLive(Submit(s, q, list, f), list)
    ensures (forall b | b in list :: NotInFlight(Cleanup(Submit(s, q, list, f), b), b))
       <==> OnQueue(PreSubmit(s, list).gpu, list, q)
  {
    SubmittedIsLive(s, q, list, f);
    SubmitIsRight(s, q, list, f);
    if OnQueue(PreSubmit(s, list).gpu, list, q) {
      forall b | b in list ensures NotInFlight(Cleanup(Submit(s, q, list, f), b), b) {
        WaitIsRight(Submit(s, q, list, f), b, false);
      }
    } else {
      var x :| x in PreSubmit(s, list).gpu.inFlight && x.buffer in list && x.queue != q;
      ElsewhereStaysInFlight(s, q, list, f, x);
    }
  }

  // ---- when the waits in front of a submission suffice, from what replay has recorded

  predicate Waited(s: System, b: nat) {
    b < |s.buffers| && s.buffers[b].pending && !s.buffers[b].simultaneousUse
  }

  /** Waiting for the buffer waits for this execution too. */
  predicate WaitCovers(s: System, b: nat, x: Submission)
    requires b < |s.buffers|
  {
    var c := s.buffers[b];
    if LiveFence(s, c.fence) then c.fence.value in s.gpu.targets && CoveredBy(x, s.gpu.targets[c.fence.value])
    else c.queue == Some(x.queue)
  }

  /** The last execution of a pending buffer that what is recorded of it allows for. */
  function LastOf(s: System, b: nat): Submission
    requires LiveBuffer(s, b) && s.buffers[b].queue.Some?
  {
    var c := s.buffers[b];
    Submission(b, c.queue.value,
               if LiveFence(s, c.fence) && c.fence.value in s.gpu.targets then s.gpu.targets[c.fence.value].number
               else if s.gpu.next > 0 then s.gpu.next - 1 else 0)
  }

  /** Each listed buffer in simultaneous use is pending on no other queue, unless a wait for another listed buffer
      includes all of it. */
  ghost predicate WaitsSuffice(s: System, list: seq<nat>, q: nat)
    requires AllLive(s, list)
  {
    forall b | b in list && s.buffers[b].simultaneousUse && s.buffers[b].queue.Some? && s.buffers[b].queue != Some(q) ::
      SomeWaitCovers(s, list, LastOf(s, b))
  }

  predicate SomeWaitCovers(s: System, list: seq<nat>, x: Submission)
    requires AllLive(s, list)
  {
    exists c :: c in list && Waited(s, c) && WaitCovers(s, c, x)
  }

  /** The same wait serves both buffers. */
  predicate SameWait(s: System, b: nat, c: nat) {
    && b < |s.buffers| && c < |s.buffers|
    && (b == c || (LiveFence(s, s.buffers[c].fence) && s.buffers[b].fence == s.buffers[c].fence))
  }

  /** After the waits for these buffers: a buffer is as before, or was cleared by one of them. */
  ghost predicate ClearedByWaits(s: System, list: seq<nat>, t: System) {
    && SameObjects(s, t) && t.gpu.targets == s.gpu.targets
    && (forall b: nat | b < |s.buffers| ::
          t.buffers[b] == s.buffers[b] || (!t.buffers[b].pending && t.buffers[b].fence == None && WaitedWith(s, list, b)))
  }

  predicate WaitedWith(s: System, list: seq<nat>, b: nat) {
    exists c :: c in list && Waited(s, c) && SameWait(s, b, c)
  }

  lemma WaitedWithMore(s: System, front: seq<nat>, last: nat, b: nat)
    ensures WaitedWith(s, front + [last], b) <==> WaitedWith(s, front, b) || (Waited(s, last) && SameWait(s, b, last))
  {
    assert forall c :: c in front + [last] <==> c in front || c == last;
  }

  lemma WaitClears(s: System, b: nat)
    requires b < |s.buffers|
    ensures var t := WaitFor(s, b, true);
      && SameObjects(s, t) && t.gpu.targets == s.gpu.targets && t.gpu.next == s.gpu.next
      && (forall x :: x in t.gpu.inFlight <==> x in s.gpu.inFlight && !(Waited(s, b) && WaitCovers(s, b, x)))
      && (forall d: nat | d < |s.buffers| ::
            t.buffers[d] == s.buffers[d]
            || (!t.buffers[d].pending && t.buffers[d].fence == None && Waited(s, b) && SameWait(s, d, b)))
  {}

  lemma ClearedOneMore(s: System, front: seq<nat>, last: nat, t: System, u: System)
    requires ClearedByWaits(s, front, t) && last < |s.buffers| && u == WaitFor(t, last, true)
    ensures ClearedByWaits(s, front + [last], u)
  {
    WaitClears(t, last);
    forall b: nat | b < |s.buffers| && u.buffers[b] != s.buffers[b]
      ensures !u.buffers[b].pending && u.buffers[b].fence == None && WaitedWith(s, front + [last], b)
    {
      WaitedWithMore(s, front, last, b);
    }
  }

  /** What the waits leave in flight. */
  ghost predicate LeftByWaits(s: System, list: seq<nat>, t: System)
    requires AllLive(s, list)
  {
    forall x :: x in t.gpu.inFlight <==> x in s.gpu.inFlight && !SomeWaitCovers(s, list, x)
  }

  lemma CoversAlike(s: System, b: nat, c: nat, x: Submission)
    requires SameWait(s, b, c)
    ensures WaitCovers(s, b, x) <==> WaitCovers(s, c, x)
  {}

  lemma LeftOneMore(s: System, front: seq<nat>, last: nat, t: System, u: System)
    requires AllLive(s, front + [last]) && AllLive(s, front) && LiveBuffer(s, last)
    requires ClearedByWaits(s, front, t) && LeftByWaits(s, front, t) && u == WaitFor(t, last, true)
    ensures LeftByWaits(s, front + [last], u)
  {
    WaitClears(t, last);
    var list := front + [last];
    forall x ensures x in u.gpu.inFlight <==> x in s.gpu.inFlight && !SomeWaitCovers(s, list, x) {
      CoversOneMore(s, front, last, x);
      if t.buffers[last] != s.buffers[last] {
        var c :| c in front && Waited(s, c) && SameWait(s, last, c);
        CoversAlike(s, last, c, x);
      }
    }
  }

  lemma CoversOneMore(s: System, front: seq<nat>, last: nat, x: Submission)
    requires AllLive(s, front + [last]) && AllLive(s, front) && LiveBuffer(s, last)
    ensures SomeWaitCovers(s, front + [last], x)
       <==> SomeWaitCovers(s, front, x) || (Waited(s, last) && WaitCovers(s, last, x))
  {
    assert forall c :: c in front + [last] <==> c in front || c == last;
  }

  /** The waits in front of a submission finish exactly the executions that one of them covers. */
  lemma {:induction false} PreSubmitLeaves(s: System, list: seq<nat>)
    requires AllLive(s, list)
    ensures ClearedByWaits(s, list, PreSubmit(s, list)) && LeftByWaits(s, list, PreSubmit(s, list))
    decreases |list|
  {
    if list != [] {
      var n := |list| - 1;
      var front, last := list[..n], list[n];
      assert list == front + [last] && last in list && forall b | b in front :: b in list;
      PreSubmitLeaves(s, front);
      var t := PreSubmit(s, front);
      ClearedOneMore(s, front, last, t, PreSubmit(s, list));
      LeftOneMore(s, front, last, t, PreSubmit(s, list));
    }
  }

  lemma CoversLast(s: System, c: nat, b: nat, x: Submission)
    requires Valid(s) && LiveBuffer(s, b) && s.buffers[b].pending && c < |s.buffers|
    requires x in s.gpu.inFlight && x.buffer == b && WaitCovers(s, c, LastOf(s, b))
    ensures WaitCovers(s, c, x)
  {
    assert Recorded(s, x);
  }

  lemma CoveredElsewhere(s: System, list: seq<nat>, q: nat, x: Submission)
    requires Valid(s) && AllLive(s, list) && WaitsSuffice(s, list, q)
    requires x in s.gpu.inFlight && x.buffer in list && x.queue != q
    ensures SomeWaitCovers(s, list, x)
  {
    assert Recorded(s, x) && LiveBuffer(s, x.buffer);
    if s.buffers[x.buffer].simultaneousUse {
      var c :| c in list && Waited(s, c) && WaitCovers(s, c, LastOf(s, x.buffer));
      CoversLast(s, c, x.buffer, x);
    } else {
      assert Waited(s, x.buffer) && WaitCovers(s, x.buffer, x);
    }
  }

  /** Whatever is in flight, waits that suffice leave nothing of the list on another queue. */
  lemma WaitsSufficeIsEnough(s: System, list: seq<nat>, q: nat)
    requires Valid(s) && AllLive(s, list) && WaitsSuffice(s, list, q)
    ensures OnQueue(PreSubmit(s, list).gpu, list, q)
  {
    forall x | x in s.gpu.inFlight && x.buffer in list && x.queue != q ensures SomeWaitCovers(s, list, x) {
      CoveredElsewhere(s, list, q, x);
    }
    PreSubmitLeaves(s, list);
  }

  /** The same records, with something else in flight. */
  function With(s: System, inFlight: set<Submission>): System {
    s.(gpu := s.gpu.(inFlight := inFlight))
  }

  /** What is recorded of a pending buffer allows for its last execution to be in flight. */
  lemma LastMayBeInFlight(s: System, b: nat)
    requires Valid(s) && LiveBuffer(s, b) && s.buffers[b].pending
    ensures Valid(With(s, {LastOf(s, b)}))
  {
    var t, x := With(s, {LastOf(s, b)}), LastOf(s, b);
    assert TargetAgrees(s, s.buffers[b]);
    forall y | y in t.gpu.inFlight ensures Recorded(t, y) && y.number < t.gpu.next {
      assert y == x;
      if LiveFence(s, s.buffers[b].fence) {
        assert b in s.fences[s.buffers[b].fence.value].pending;
      }
    }
  }

  /** Right after the submission, each of its buffers can be recorded again. */
  ghost predicate SafeAfter(s: System, q: nat, list: seq<nat>, f: Option<nat>)
    requires AllLive(s, list) && (f.Some? ==> f.value < |s.fences|)
  {
    forall b | b in list :: b < |Submit(s, q, list, f).buffers| && NotInFlight(Cleanup(Submit(s, q, list, f), b), b)
  }

  lemma SafeAfterIsOnQueue(s: System, q: nat, list: seq<nat>, f: Option<nat>)
    requires Valid(s) && AllLive(s, list) && (f.Some? ==> LiveFence(s, f) && f.value !in s.gpu.targets)
    ensures SafeAfter(s, q, list, f) <==> OnQueue(PreSubmit(s, list).gpu, list, q)
  {
    RerecordAfterSubmit(s, q, list, f);
  }

  /** So from what is recorded alone: re-recording right after a submission is safe in every state with these records if
      and only if the waits suffice. */
  lemma RerecordIsSafeExactly(s: System, q: nat, list: seq<nat>, f: Option<nat>)
    requires Valid(s) && AllLive(s, list) && (f.Some? ==> LiveFence(s, f) && f.value !in s.gpu.targets)
    ensures (forall inFlight: set<Submission> | Valid(With(s, inFlight)) :: SafeAfter(With(s, inFlight), q, list, f))
       <==> WaitsSuffice(s, list, q)
  {
    if WaitsSuffice(s, list, q) {
      forall inFlight: set<Submission> | Valid(With(s, inFlight)) ensures SafeAfter(With(s, inFlight), q, list, f) {
        var t := With(s, inFlight);
        SameRecords(s, t, list, q);
        WaitsSufficeIsEnough(t, list, q);
        SafeAfterIsOnQueue(t, q, list, f);
      }
    } else {
      var b :| b in list && s.buffers[b].simultaneousUse && s.buffers[b].queue.Some? && s.buffers[b].queue != Some(q)
               && !SomeWaitCovers(s, list, LastOf(s, b));
      var t := With(s, {LastOf(s, b)});
      LastMayBeInFlight(s, b);
      PreSubmitLeaves(t, list);
      SameCovers(s, t, list, LastOf(s, b));
      assert LastOf(s, b) in PreSubmit(t, list).gpu.inFlight;
      SafeAfterIsOnQueue(t, q, list, f);
    }
  }

  lemma SameCovers(s: System, t: System, list: seq<nat>, x: Submission)
    requires AllLive(s, list) && AllLive(t, list) && t == With(s, t.gpu.inFlight)
    ensures SomeWaitCovers(t, list, x) <==> SomeWaitCovers(s, list, x)
  {
    assert forall c: nat :: Waited(t, c) <==> Waited(s, c);
    assert forall c: nat | c < |s.buffers| :: WaitCovers(t, c, x) <==> WaitCovers(s, c, x);
  }

  lemma SameRecords(s: System, t: System, list: seq<nat>, q: nat)
    requires Valid(s) && Valid(t) && AllLive(s, list) && AllLive(t, list) && t == With(s, t.gpu.inFlight)
    ensures WaitsSuffice(t, list, q) <==> WaitsSuffice(s, list, q)
  {
    forall b | b in list && s.buffers[b].pending
      ensures LastOf(t, b) == LastOf(s, b) && (SomeWaitCovers(t, list, LastOf(t, b)) <==> SomeWaitCovers(s, list, LastOf(s, b)))
    {
      SameCovers(s, t, list, LastOf(s, b));
    }
  }

  /** Staying on one queue is enough for what the marking needs; for a single buffer there is nothing else. */
  lemma SingleQueueIsEnough(s: System, list: seq<nat>, q: nat)
    requires Valid(s) && AllLive(s, list)
    ensures SingleQueue(s, list, q) ==> WaitsSuffice(s, list, q) && OnQueue(PreSubmit(s, list).gpu, list, q)
    ensures |list| == 1 && WaitsSuffice(s, list, q) ==> SingleQueue(s, list, q)
  {
    if SingleQueue(s, list, q) {
      WaitsSufficeIsEnough(s, list, q);
    } else if |list| == 1 {
      assert forall b | b in list :: b == list[0];
    }
  }

  // ---- loops over all command buffers, from index 1

  /** Queue or device idle: command buffers 1 to n - 1 that match are forgotten. */
  datatype Idle = OfQueue(queue: nat) | OfDevice(device: nat)

  predicate Matches(c: CommandBuffer, idle: Idle) {
    c.alive && c.pending && match idle case OfQueue(q) => c.queue == Some(q) case OfDevice(d) => c.device == d
  }

  function ClearIdle(s: System, idle: Idle, n: nat): (r: System)
    requires n <= |s.buffers|
    ensures |r.buffers| == |s.buffers|
  {
    if n <= 1 then s else
      var t := ClearIdle(s, idle, n - 1);
      if Matches(t.buffers[n - 1], idle) then ClearBuffer(t, n - 1) else t
  }

  function DeviceDone(s: System, idle: Idle): Gpu {
    match idle
    case OfQueue(q) => QueueDone(s.gpu, q)
    case OfDevice(d) => s.gpu.(inFlight := set x | x in s.gpu.inFlight
                                           && !(x.buffer < |s.buffers| && s.buffers[x.buffer].device == d))
  }

  /** replay_callback_vkQueueWaitIdle, replay_callback_vkDeviceWaitIdle */
  function WaitIdle(s: System, idle: Idle): System {
    var t := s.(gpu := DeviceDone(s, idle));
    ClearIdle(t, idle, |t.buffers|)
  }

  lemma {:induction false} ClearIdleValues(s: System, idle: Idle, n: nat)
    requires n <= |s.buffers|
    ensures forall b | 0 <= b < |s.buffers| ::
      ClearIdle(s, idle, n).buffers[b] == if 1 <= b < n && Matches(s.buffers[b], idle) then Cleared(s.buffers[b]) else s.buffers[b]
    decreases n
  {
    if n > 1 {
      ClearIdleValues(s, idle, n - 1);
    }
  }

  /** Nothing of the matching buffers is in flight. */
  ghost predicate IdleDone(s: System, idle: Idle) {
    forall b: nat | b < |s.buffers| && Matches(s.buffers[b], idle) :: NotInFlight(s, b)
  }

  lemma {:induction false} ClearIdleKeepsValid(s: System, idle: Idle, n: nat)
    requires Valid(s) && n <= |s.buffers| && IdleDone(s, idle)
    ensures Valid(ClearIdle(s, idle, n)) && ClearIdle(s, idle, n).gpu == s.gpu
    decreases n
  {
    if n > 1 {
      ClearIdleKeepsValid(s, idle, n - 1);
      ClearIdleValues(s, idle, n - 1);
      var t := ClearIdle(s, idle, n - 1);
      if Matches(t.buffers[n - 1], idle) {
        assert NotInFlight(s, n - 1) && NotInFlight(t, n - 1);
        ClearBufferKeepsValid(t, n - 1);
      }
    }
  }

  /** After an idle wait, a buffer that was pending there no longer is, unless it has index 0: the loop
      starts behind it. Everything else is as it was. */
  lemma WaitIdleIsRight(s: System, idle: Idle)
    requires Valid(s)
    ensures Valid(WaitIdle(s, idle))
    ensures forall b | 0 <= b < |s.buffers| ::
      WaitIdle(s, idle).buffers[b] == if b != 0 && Matches(s.buffers[b], idle) then Cleared(s.buffers[b]) else s.buffers[b]
  {
    var g := DeviceDone(s, idle);
    var t := s.(gpu := g);
    FinishingKeepsValid(s, g);
    forall b: nat | b < |t.buffers| && Matches(t.buffers[b], idle) ensures NotInFlight(t, b) {
      forall x | x in g.inFlight ensures x.buffer != b {
        assert Recorded(s, x);
      }
    }
    ClearIdleKeepsValid(t, idle, |t.buffers|);
    ClearIdleValues(t, idle, |t.buffers|);
  }

  /** replay_pre_vkResetCommandPool, replay_pre_vkDestroyCommandPool */
  function CleanPool(s: System, pool: nat, n: nat): (r: System)
    requires n <= |s.buffers|
    ensures |r.buffers| == |s.buffers|
  {
    if n <= 1 then s else
      var t := CleanPool(s, pool, n - 1);
      if t.buffers[n - 1].alive && t.buffers[n - 1].pool == pool then
        WaitKeepsObjects(t, n - 1, false);
        Cleanup(t, n - 1)
      else t
  }

  lemma CleanupIsRight(s: System, b: nat)
    requires Valid(s) && LiveBuffer(s, b)
    ensures Valid(Cleanup(s, b)) && SameObjects(s, Cleanup(s, b)) && NotInFlight(Cleanup(s, b), b)
    ensures Cleanup(s, b).gpu.inFlight <= s.gpu.inFlight
    ensures !Cleanup(s, b).buffers[b].pending && Cleanup(s, b).buffers[b].scratch == []
    ensures forall c | 0 <= c < |s.buffers| && c != b :: Cleanup(s, b).buffers[c].scratch == s.buffers[c].scratch
                                                && (Cleanup(s, b).buffers[c].pending ==> s.buffers[c].pending)
  {
    WaitIsRight(s, b, false);
    WaitKeepsObjects(s, b, false);
    var t := WaitFor(s, b, false);
    var r := Cleanup(s, b);
    forall x | x in r.gpu.inFlight ensures Recorded(r, x) {
      assert Recorded(t, x);
    }
  }

  /** Buffer b of r, after the buffers of the pool below n have been cleaned up. */
  predicate IsCleaned(s: System, r: System, pool: nat, n: nat, b: nat)
    requires b < |s.buffers| && b < |r.buffers|
  {
    var before, after := s.buffers[b], r.buffers[b];
    && after.alive == before.alive && after.pool == before.pool
    && (if 1 <= b < n && before.alive && before.pool == pool
        then !after.pending && after.scratch == [] && NotInFlight(r, b)
        else after.scratch == before.scratch)
  }

  lemma {:induction false} CleanPoolKeepsValid(s: System, pool: nat, n: nat)
    requires Valid(s) && n <= |s.buffers|
    ensures Valid(CleanPool(s, pool, n))
    decreases n
  {
    if n > 1 {
      CleanPoolKeepsValid(s, pool, n - 1);
      var t := CleanPool(s, pool, n - 1);
      if t.buffers[n - 1].alive && t.buffers[n - 1].pool == pool {
        CleanupIsRight(t, n - 1);
      }
    }
  }

  lemma CleanOneMore(s: System, t: System, pool: nat, last: nat, next: nat, r: System)
    requires |s.buffers| == |t.buffers| && last < |s.buffers| && last > 0 && next == last + 1 && Valid(t)
    requires forall b | 0 <= b < |s.buffers| :: IsCleaned(s, t, pool, last, b)
    requires r == if t.buffers[last].alive && t.buffers[last].pool == pool then Cleanup(t, last) else t
    ensures |r.buffers| == |s.buffers| && forall b | 0 <= b < |s.buffers| :: IsCleaned(s, r, pool, next, b)
  {
    assert IsCleaned(s, t, pool, last, last);
    if t.buffers[last].alive && t.buffers[last].pool == pool {
      CleanupIsRight(t, last);
    }
    forall b | 0 <= b < |s.buffers| ensures IsCleaned(s, r, pool, next, b) {
      assert IsCleaned(s, t, pool, last, b);
    }
  }

  /** Resetting a pool leaves each of its buffers neither pending nor in flight and without scratch, but for
      the buffer of index 0, whose scratch is kept. */
  lemma {:induction false} CleanPoolIsRight(s: System, pool: nat, n: nat)
    requires Valid(s) && n <= |s.buffers|
    ensures forall b | 0 <= b < |s.buffers| :: IsCleaned(s, CleanPool(s, pool, n), pool, n, b)
    decreases n
  {
    if n > 1 {
      CleanPoolIsRight(s, pool, n - 1);
      CleanPoolKeepsValid(s, pool, n - 1);
      CleanOneMore(s, CleanPool(s, pool, n - 1), pool, n - 1, n, CleanPool(s, pool, n));
    }
  }

  /** Of a queue these are the buffers last submitted to it, of a device all of its buffers. */
  lemma IdleIsRight(s: System, idle: Idle, b: nat)
    requires Valid(s) && LiveBuffer(s, b) && b > 0
    ensures var c := s.buffers[b];
      |WaitIdle(s, idle).buffers| == |s.buffers|
      && WaitIdle(s, idle).buffers[b]
         == if (match idle case OfQueue(q) => c.queue == Some(q) case OfDevice(d) => c.device == d) then Cleared(c) else c
  {
    WaitIdleIsRight(s, idle);
  }

  // ---- runs

  datatype Step =
    | CreateBuffer(device: nat, pool: nat)
    | CreateFence
    | DestroyFence(fence: nat)
    | Begin(buffer: nat, simultaneousUse: bool)
    | Build(buffer: nat, scratch: nat)
    | Reset(buffer: nat)
    | Free(buffer: nat)
    | ResetPool(pool: nat)
    | SubmitTo(queue: nat, list: seq<nat>, signals: Option<nat>)
    | Observe(fence: nat) // a status query or a wait that reports the fence signalled
    | ResetFence(fence: nat)
    | Idled(idle: Idle)
    | Finish(remaining: set<Submission>) // the device gets on with its work

  /** What Vulkan asks of its callers, and when a step can happen at all. */
  predicate Enabled(s: System, step: Step) {
    match step
    case CreateBuffer(_, _) => true
    case CreateFence => true
    case DestroyFence(f) => LiveFence(s, Some(f)) && Signalled(s.gpu, f)
    case Begin(b, _) => LiveBuffer(s, b)
    case Build(b, _) => LiveBuffer(s, b)
    case Reset(b) => LiveBuffer(s, b)
    case Free(b) => LiveBuffer(s, b)
    case ResetPool(_) => true
    case SubmitTo(q, list, f) => AllLive(s, list) && (f.Some? ==> LiveFence(s, f) && f.value !in s.gpu.targets)
    case Observe(f) => LiveFence(s, Some(f)) && Signalled(s.gpu, f)
    case ResetFence(f) => LiveFence(s, Some(f)) && Signalled(s.gpu, f)
    case Idled(_) => true
    case Finish(remaining) => remaining <= s.gpu.inFlight
  }

  /** The assumption on the trace: the waits in front of each submission suffice, as they do when simultaneous use
      stays on one queue. */
  ghost predicate Disciplined(s: System, step: Step)
    requires Enabled(s, step)
  {
    step.SubmitTo? ==> WaitsSuffice(s, step.list, step.queue)
  }

  function Apply(s: System, step: Step): System
    requires Enabled(s, step)
  {
    match step
    case CreateBuffer(device, pool) => s.(buffers := s.buffers + [CommandBuffer(true, device, pool, false, false, None, None, [])])
    case CreateFence => s.(fences := s.fences + [Fence(true, [])], gpu := s.gpu.(targets := s.gpu.targets - {|s.fences|}))
    case DestroyFence(f) => s.(fences := s.fences[f := s.fences[f].(alive := false)])
    case Begin(b, simultaneousUse) =>
      WaitKeepsObjects(s, b, false);
      var t := Cleanup(s, b); t.(buffers := t.buffers[b := t.buffers[b].(simultaneousUse := simultaneousUse)])
    case Build(b, scratch) => s.(buffers := s.buffers[b := s.buffers[b].(scratch := s.buffers[b].scratch + [scratch])])
    case Reset(b) => Cleanup(s, b)
    case Free(b) =>
      WaitKeepsObjects(s, b, false);
      var t := Cleanup(s, b); t.(buffers := t.buffers[b := t.buffers[b].(alive := false)])
    case ResetPool(pool) => CleanPool(s, pool, |s.buffers|)
    case SubmitTo(q, list, f) => Submit(s, q, list, f)
    case Observe(f) => ClearFence(s, f)
    case ResetFence(f) => var t := ClearFence(s, f); t.(gpu := t.gpu.(targets := t.gpu.targets - {f}))
    case Idled(idle) => WaitIdle(s, idle)
    case Finish(remaining) => s.(gpu := s.gpu.(inFlight := remaining))
  }

  lemma CreateBufferKeepsValid(s: System, c: CommandBuffer)
    requires Valid(s) && !c.pending && c.queue.None? && c.fence.None?
    ensures Valid(s.(buffers := s.buffers + [c]))
  {
    var t := s.(buffers := s.buffers + [c]);
    forall x | x in t.gpu.inFlight ensures Recorded(t, x) {
      assert Recorded(s, x);
    }
  }

  lemma CreateFenceKeepsValid(s: System)
    requires Valid(s)
    ensures Valid(Apply(s, CreateFence))
  {
    var t := Apply(s, CreateFence);
    forall x | x in t.gpu.inFlight ensures Recorded(t, x) {
      assert Recorded(s, x);
    }
  }

  /** Fields that no wait looks at. */
  lemma RelabelKeepsValid(s: System, b: nat, c: CommandBuffer)
    requires Valid(s) && b < |s.buffers| && c.pending == s.buffers[b].pending
    requires c.queue == s.buffers[b].queue && c.fence == s.buffers[b].fence && (c.alive ==> s.buffers[b].alive)
    ensures Valid(s.(buffers := s.buffers[b := c]))
  {
    var t := s.(buffers := s.buffers[b := c]);
    forall x | x in t.gpu.inFlight ensures Recorded(t, x) {
      assert Recorded(s, x);
    }
  }

  lemma BufferStepKeepsValid(s: System, step: Step)
    requires Valid(s) && Enabled(s, step) && (step.Begin? || step.Build? || step.Reset? || step.Free?)
    ensures Valid(Apply(s, step))
  {
    var b := step.buffer;
    CleanupIsRight(s, b);
    var t := Cleanup(s, b);
    match step
    case Begin(_, simultaneousUse) => RelabelKeepsValid(t, b, t.buffers[b].(simultaneousUse := simultaneousUse));
    case Build(_, scratch) => RelabelKeepsValid(s, b, s.buffers[b].(scratch := s.buffers[b].scratch + [scratch]));
    case Reset(_) =>
    case Free(_) => RelabelKeepsValid(t, b, t.buffers[b].(alive := false));
  }

  lemma DestroyFenceKeepsValid(s: System, f: nat)
    requires Valid(s) && LiveFence(s, Some(f))
    ensures Valid(s.(fences := s.fences[f := s.fences[f].(alive := false)]))
  {
    var t := s.(fences := s.fences[f := s.fences[f].(alive := false)]);
    forall x | x in t.gpu.inFlight ensures Recorded(t, x) {
      assert Recorded(s, x);
    }
  }

  lemma ResetFenceKeepsValid(s: System, f: nat)
    requires Valid(s) && LiveFence(s, Some(f)) && Signalled(s.gpu, f)
    ensures var t := ClearFence(s, f); Valid(t.(gpu := t.gpu.(targets := t.gpu.targets - {f})))
  {
    ClearFenceKeepsValid(s, f);
    var t := ClearFence(s, f);
    var u := t.(gpu := t.gpu.(targets := t.gpu.targets - {f}));
    forall b: nat | LiveBuffer(t, b) ensures t.buffers[b].fence != Some(f) {
      assert b !in t.fences[f].pending;
    }
    forall x | x in u.gpu.inFlight ensures Recorded(u, x) {
      assert Recorded(t, x);
    }
  }

  lemma StepKeepsValid(s: System, step: Step)
    requires Valid(s) && Enabled(s, step) && Disciplined(s, step)
    ensures Valid(Apply(s, step))
  {
    match step
    case CreateBuffer(device, pool) => CreateBufferKeepsValid(s, CommandBuffer(true, device, pool, false, false, None, None, []));
    case CreateFence => CreateFenceKeepsValid(s);
    case DestroyFence(f) => DestroyFenceKeepsValid(s, f);
    case Begin(_, _) => BufferStepKeepsValid(s, step);
    case Build(_, _) => BufferStepKeepsValid(s, step);
    case Reset(_) => BufferStepKeepsValid(s, step);
    case Free(_) => BufferStepKeepsValid(s, step);
    case ResetPool(pool) => CleanPoolKeepsValid(s, pool, |s.buffers|);
    case SubmitTo(q, list, f) =>
      WaitsSufficeIsEnough(s, list, q);
      SubmitIsRight(s, q, list, f);
    case Observe(f) => ClearFenceKeepsValid(s, f);
    case ResetFence(f) => ResetFenceKeepsValid(s, f);
    case Idled(idle) => WaitIdleIsRight(s, idle);
    case Finish(remaining) => FinishingKeepsValid(s, s.gpu.(inFlight := remaining));
  }

  const START := System([], [], Gpu({}, map[], 0))

  /** A disciplined run from the start, state by state. */
  ghost predicate IsRun(states: seq<System>, steps: seq<Step>) {
    && |states| == |steps| + 1 && states[0] == START
    && (forall i | 0 <= i < |steps| ::
          Enabled(states[i], steps[i]) && Disciplined(states[i], steps[i]) && states[i + 1] == Apply(states[i], steps[i]))
  }

  lemma {:induction false} ReachedIsValid(states: seq<System>, steps: seq<Step>, i: nat)
    requires IsRun(states, steps) && i < |states|
    ensures Valid(states[i])
  {
    if i > 0 {
      ReachedIsValid(states, steps, i - 1);
      StepKeepsValid(states[i - 1], steps[i - 1]);
    }
  }

  // ---- what a buffer is remembered for

  predicate SameLabels(c: CommandBuffer, d: CommandBuffer) {
    && d.alive == c.alive && d.device == c.device && d.pool == c.pool
    && d.simultaneousUse == c.simultaneousUse && d.scratch == c.scratch
  }

  predicate AllSameLabels(s: System, t: System) {
    |t.buffers| == |s.buffers| && forall b | 0 <= b < |s.buffers| :: SameLabels(s.buffers[b], t.buffers[b])
  }

  lemma {:induction false} PreSubmitKeepsLabels(s: System, list: seq<nat>)
    requires AllLive(s, list)
    ensures AllSameLabels(s, PreSubmit(s, list))
    decreases |list|
  {
    if list != [] {
      assert list[|list| - 1] in list;
      PreSubmitKeepsLabels(s, list[..|list| - 1]);
    }
  }

  lemma {:induction false} MarkAllKeepsLabels(s: System, list: seq<nat>, q: nat, f: Option<nat>)
    requires AllLive(s, list) && (f.Some? ==> f.value < |s.fences|)
    ensures AllSameLabels(s, MarkAll(s, list, q, f))
    decreases |list|
  {
    if list != [] {
      assert list[|list| - 1] in list;
      MarkAllKeepsLabels(s, list[..|list| - 1], q, f);
    }
  }

  lemma {:induction false} ClearIdleKeepsLabels(s: System, idle: Idle, n: nat)
    requires n <= |s.buffers|
    ensures AllSameLabels(s, ClearIdle(s, idle, n))
    decreases n
  {
    if n > 1 {
      ClearIdleKeepsLabels(s, idle, n - 1);
    }
  }

  /** The buffer has its scratch memory destroyed by a reset of this pool. */
  predicate InPool(c: CommandBuffer, b: nat, pool: nat) {
    b > 0 && c.alive && c.pool == pool
  }

  lemma {:induction false} CleanPoolLabels(s: System, pool: nat, n: nat)
    requires n <= |s.buffers|
    ensures var t := CleanPool(s, pool, n);
      forall b: nat | b < |s.buffers| ::
        SameLabels(t.buffers[b], if b < n && InPool(s.buffers[b], b, pool) then s.buffers[b].(scratch := []) else s.buffers[b])
    decreases n
  {
    if n > 1 {
      CleanPoolLabels(s, pool, n - 1);
      WaitKeepsObjects(CleanPool(s, pool, n - 1), n - 1, false);
    }
  }

  /** What a step leaves of what is remembered of buffer b, apart from its submissions. */
  function Relabelled(c: CommandBuffer, b: nat, step: Step): CommandBuffer {
    match step
    case Begin(a, simultaneousUse) => if a == b then c.(simultaneousUse := simultaneousUse, scratch := []) else c
    case Build(a, scratch) => if a == b then c.(scratch := c.scratch + [scratch]) else c
    case Reset(a) => if a == b then c.(scratch := []) else c
    case Free(a) => if a == b then c.(alive := false, scratch := []) else c
    case ResetPool(pool) => if InPool(c, b, pool) then c.(scratch := []) else c
    case _ => c
  }

  ghost predicate LabelsAfter(s: System, step: Step, t: System) {
    && |t.buffers| == |s.buffers| + (if step.CreateBuffer? then 1 else 0)
    && (step.CreateBuffer? ==> t.buffers[|s.buffers|] == CommandBuffer(true, step.device, step.pool, false, false, None, None, []))
    && (forall b: nat | b < |s.buffers| :: SameLabels(t.buffers[b], Relabelled(s.buffers[b], b, step)))
  }

  lemma OtherStepLabels(s: System, step: Step)
    requires Enabled(s, step) && !step.Begin? && !step.Build? && !step.Reset? && !step.Free?
    ensures LabelsAfter(s, step, Apply(s, step))
  {
    match step
    case ResetPool(pool) => CleanPoolLabels(s, pool, |s.buffers|);
    case SubmitTo(q, list, f) =>
      var t := PreSubmit(s, list);
      PreSubmitKeepsLabels(s, list);
      MarkAllKeepsLabels(t.(gpu := Submitted(t.gpu, q, list, f)), list, q, f);
    case Idled(idle) => ClearIdleKeepsLabels(s.(gpu := DeviceDone(s, idle)), idle, |s.buffers|);
    case _ =>
  }

  lemma StepLabels(s: System, step: Step)
    requires Enabled(s, step)
    ensures LabelsAfter(s, step, Apply(s, step))
  {
    if step.Begin? || step.Reset? || step.Free? {
      WaitKeepsObjects(s, step.buffer, false);
    } else if !step.Build? {
      OtherStepLabels(s, step);
    }
  }

  /** The flag of the last recording of the buffer. */
  function LastFlag(steps: seq<Step>, b: nat): bool {
    if steps == [] then false else
      var step := steps[|steps| - 1];
      if step.Begin? && step.buffer == b then step.simultaneousUse else LastFlag(steps[..|steps| - 1], b)
  }

  /** In every run a buffer is taken for one in simultaneous use exactly when its last recording said so. */
  lemma {:induction false} FlagIsLast(states: seq<System>, steps: seq<Step>, i: nat, b: nat)
    requires IsRun(states, steps) && i < |states|
    ensures b < |states[i].buffers| ==> states[i].buffers[b].simultaneousUse == LastFlag(steps[..i], b)
    ensures b >= |states[i].buffers| ==> !LastFlag(steps[..i], b)
    decreases i
  {
    if i > 0 {
      FlagIsLast(states, steps, i - 1, b);
      StepLabels(states[i - 1], steps[i - 1]);
      assert steps[..i][..i - 1] == steps[..i - 1];
    }
  }

  /** The step destroys the scratch memory of the buffer. */
  predicate CleansUp(s: System, step: Step, b: nat) {
    match step
    case Begin(a, _) => a == b
    case Reset(a) => a == b
    case Free(a) => a == b
    case ResetPool(pool) => b < |s.buffers| && InPool(s.buffers[b], b, pool)
    case _ => false
  }

  ghost predicate BuiltSince(states: seq<System>, steps: seq<Step>, i: nat, b: nat, scratch: nat)
    requires i <= |steps| < |states|
  {
    exists j: nat :: j < i && steps[j] == Build(b, scratch) && KeptFrom(states, steps, j + 1, i, b)
  }

  ghost predicate KeptFrom(states: seq<System>, steps: seq<Step>, j: nat, i: nat, b: nat)
    requires i <= |steps| < |states|
  {
    forall k | j <= k < i :: !CleansUp(states[k], steps[k], b)
  }

  lemma BuiltOneMore(states: seq<System>, steps: seq<Step>, i: nat, b: nat, scratch: nat)
    requires 0 < i <= |steps| < |states|
    ensures BuiltSince(states, steps, i, b, scratch)
       <==> steps[i - 1] == Build(b, scratch)
            || (BuiltSince(states, steps, i - 1, b, scratch) && !CleansUp(states[i - 1], steps[i - 1], b))
  {
    if steps[i - 1] == Build(b, scratch) {
      assert KeptFrom(states, steps, i - 1 + 1, i, b);
    }
    if BuiltSince(states, steps, i - 1, b, scratch) && !CleansUp(states[i - 1], steps[i - 1], b) {
      var j: nat :| j < i - 1 && steps[j] == Build(b, scratch) && KeptFrom(states, steps, j + 1, i - 1, b);
      assert KeptFrom(states, steps, j + 1, i, b);
    }
    if j: nat :| j < i && steps[j] == Build(b, scratch) && KeptFrom(states, steps, j + 1, i, b) {
      assert j < i - 1 ==> KeptFrom(states, steps, j + 1, i - 1, b);
    }
  }

  /** In every run a buffer holds exactly the scratch memory that was built into it since its last clean-up. */
  lemma {:induction false} ScratchIsBuilt(states: seq<System>, steps: seq<Step>, i: nat, b: nat, scratch: nat)
    requires IsRun(states, steps) && i < |states|
    ensures BuiltSince(states, steps, i, b, scratch)
       <==> b < |states[i].buffers| && scratch in states[i].buffers[b].scratch
    decreases i
  {
    if i > 0 {
      ScratchIsBuilt(states, steps, i - 1, b, scratch);
      BuiltOneMore(states, steps, i, b, scratch);
      StepLabels(states[i - 1], steps[i - 1]);
    }
  }

  // ---- one execution at a time

  predicate OneAtATime(s: System, b: nat) {
    LiveBuffer(s, b) && !s.buffers[b].simultaneousUse
  }

  /** A buffer that is not in simultaneous use executes at most once at a time. */
  ghost predicate Exclusive(s: System) {
    forall x, y | x in s.gpu.inFlight && y in s.gpu.inFlight && x.buffer == y.buffer && OneAtATime(s, x.buffer) :: x == y
  }

  lemma {:induction false} CleanPoolFinishes(s: System, pool: nat, n: nat)
    requires n <= |s.buffers|
    ensures CleanPool(s, pool, n).gpu.inFlight <= s.gpu.inFlight
    decreases n
  {
    if n > 1 {
      CleanPoolFinishes(s, pool, n - 1);
      WaitKeepsObjects(CleanPool(s, pool, n - 1), n - 1, false);
    }
  }

  lemma {:induction false} ClearIdleFinishes(s: System, idle: Idle, n: nat)
    requires n <= |s.buffers|
    ensures ClearIdle(s, idle, n).gpu == s.gpu
    decreases n
  {
    if n > 1 {
      ClearIdleFinishes(s, idle, n - 1);
    }
  }

  lemma StepFinishes(s: System, step: Step)
    requires Enabled(s, step) && !step.SubmitTo?
    ensures Apply(s, step).gpu.inFlight <= s.gpu.inFlight
  {
    match step
    case Begin(b, _) => WaitKeepsObjects(s, b, false);
    case Reset(b) => WaitKeepsObjects(s, b, false);
    case Free(b) => WaitKeepsObjects(s, b, false);
    case ResetPool(pool) => CleanPoolFinishes(s, pool, |s.buffers|);
    case Idled(idle) => ClearIdleFinishes(s.(gpu := DeviceDone(s, idle)), idle, |s.buffers|);
    case _ =>
  }

  /** The waits in front of a submission leave nothing of its buffers in flight, unless in simultaneous use. */
  lemma SubmitKeepsExclusive(s: System, q: nat, list: seq<nat>, f: Option<nat>)
    requires Valid(s) && Exclusive(s) && Enabled(s, SubmitTo(q, list, f))
    ensures Exclusive(Submit(s, q, list, f))
  {
    var t, r := PreSubmit(s, list), Submit(s, q, list, f);
    var u := t.(gpu := Submitted(t.gpu, q, list, f));
    PreSubmitIsRight(s, list);
    StepLabels(s, SubmitTo(q, list, f));
    MarkAllSetsQueue(u, list, q, f, 0);
    forall x | x in r.gpu.inFlight ensures x in s.gpu.inFlight || x == Submission(x.buffer, q, t.gpu.next) {}
    forall x, y | x in r.gpu.inFlight && y in r.gpu.inFlight && x.buffer == y.buffer && OneAtATime(r, x.buffer)
      ensures x == y
    {
      assert OneAtATime(s, x.buffer);
    }
  }

  lemma StepKeepsExclusive(s: System, step: Step)
    requires Valid(s) && Exclusive(s) && Enabled(s, step)
    ensures Exclusive(Apply(s, step))
  {
    if step.SubmitTo? {
      SubmitKeepsExclusive(s, step.queue, step.list, step.signals);
    } else {
      var r := Apply(s, step);
      StepLabels(s, step);
      StepFinishes(s, step);
      if step.Begin? {
        CleanupIsRight(s, step.buffer);
      }
      forall x, y | x in r.gpu.inFlight && y in r.gpu.inFlight && x.buffer == y.buffer && OneAtATime(r, x.buffer)
        ensures x == y
      {
        assert Recorded(s, x);
        assert OneAtATime(s, x.buffer);
      }
    }
  }

  lemma {:induction false} ReachedIsExclusive(states: seq<System>, steps: seq<Step>, i: nat)
    requires IsRun(states, steps) && i < |states|
    ensures Exclusive(states[i])
  {
    if i > 0 {
      ReachedIsExclusive(states, steps, i - 1);
      ReachedIsValid(states, steps, i - 1);
      StepKeepsExclusive(states[i - 1], steps[i - 1]);
    }
  }

  /** In every run: a buffer whose last recording was without simultaneous use never executes twice at once, and the
      waits in front of its next submission leave nothing of it in flight. */
  lemma OneExecution(states: seq<System>, steps: seq<Step>, i: nat, b: nat, list: seq<nat>)
    requires IsRun(states, steps) && i < |states| && LiveBuffer(states[i], b) && !LastFlag(steps[..i], b)
    requires AllLive(states[i], list) && b in list
    ensures forall x, y | x in states[i].gpu.inFlight && y in states[i].gpu.inFlight && x.buffer == y.buffer == b :: x == y
    ensures NotInFlight(PreSubmit(states[i], list), b)
  {
    FlagIsLast(states, steps, i, b);
    ReachedIsValid(states, steps, i);
    ReachedIsExclusive(states, steps, i);
    PreSubmitIsRight(states[i], list);
  }

  /** In every reachable state, re-recording a buffer destroys its scratch memory only once nothing of it is
      in flight, and its wait is on work that was submitted. */
  lemma ScratchIsFree(states: seq<System>, steps: seq<Step>, i: nat, b: nat)
    requires IsRun(states, steps) && i < |states| && LiveBuffer(states[i], b)
    ensures NotInFlight(WaitFor(states[i], b, false), b) && !WaitFor(states[i], b, false).buffers[b].pending
    ensures states[i].buffers[b].pending && LiveFence(states[i], states[i].buffers[b].fence)
      ==> states[i].buffers[b].fence.value in states[i].gpu.targets
  {
    ReachedIsValid(states, steps, i);
    WaitIsRight(states[i], b, false);
  }

  /** In every reachable state, a fence reported signalled takes exactly the buffers that have it recorded off
      the pending ones. */
  lemma ObservedFenceIsEmpty(states: seq<System>, steps: seq<Step>, i: nat, f: nat, b: nat)
    requires IsRun(states, steps) && i < |states| && Enabled(states[i], Observe(f)) && LiveBuffer(states[i], b)
    ensures Apply(states[i], Observe(f)).buffers[b]
         == if states[i].buffers[b].fence == Some(f) then Cleared(states[i].buffers[b]) else states[i].buffers[b]
  {
    ReachedIsValid(states, steps, i);
  }

  /** A run that breaks the rule: simultaneous use on two queues, without fences. The wait before the next
      recording knows the second queue only, and scratch memory goes while the first still executes. */
  lemma TwoQueuesAreUnsafe(device: nat, pool: nat)
    ensures var s := Apply(Apply(START, CreateBuffer(device, pool)), Begin(0, true));
      && Enabled(s, SubmitTo(0, [0], None)) && Disciplined(s, SubmitTo(0, [0], None))
      && var t := Apply(s, SubmitTo(0, [0], None));
        && Valid(t) && Enabled(t, SubmitTo(1, [0], None)) && !Disciplined(t, SubmitTo(1, [0], None))
        && var u := Apply(t, SubmitTo(1, [0], None));
          LiveBuffer(u, 0) && !NotInFlight(Cleanup(u, 0), 0)
  {
    var s := OneBuffer(device, pool);
    SubmitOne(s, 0, 0);
    StepKeepsValid(s, SubmitTo(0, [0], None));
    var t := Apply(s, SubmitTo(0, [0], None));
    SubmitOne(t, 0, 1);
    StaysThroughCleanup(Apply(t, SubmitTo(1, [0], None)), 0, Submission(0, 0, 0));
  }

  /** A buffer recorded for simultaneous use. */
  lemma OneBuffer(device: nat, pool: nat) returns (s: System)
    ensures s == Apply(Apply(START, CreateBuffer(device, pool)), Begin(0, true)) && Valid(s)
    ensures s == System([CommandBuffer(true, device, pool, true, false, None, None, [])], [], START.gpu)
  {
    var a := Apply(START, CreateBuffer(device, pool));
    StepKeepsValid(START, CreateBuffer(device, pool));
    StepKeepsValid(a, Begin(0, true));
    s := Apply(a, Begin(0, true));
    assert s.buffers == [CommandBuffer(true, device, pool, true, false, None, None, [])];
  }

  lemma StaysThroughCleanup(u: System, b: nat, x: Submission)
    requires LiveBuffer(u, b) && u.buffers[b].queue.Some? && u.buffers[b].fence == None
    requires x in u.gpu.inFlight && x.buffer == b && Some(x.queue) != u.buffers[b].queue
    ensures !NotInFlight(Cleanup(u, b), b)
  {
    assert x in Cleanup(u, b).gpu.inFlight;
  }

  /** One buffer in simultaneous use goes to a queue without being waited for. */
  lemma SubmitOne(s: System, b: nat, q: nat)
    requires LiveBuffer(s, b) && s.buffers[b].simultaneousUse && AllLive(s, [b])
    ensures var r := Submit(s, q, [b], None);
      && r.gpu == Submitted(s.gpu, q, [b], None)
      && LiveBuffer(r, b) && r.buffers[b].simultaneousUse && r.buffers[b].pending
      && r.buffers[b].queue == Some(q) && r.buffers[b].fence == None
  {
    var one := [b];
    assert one[..0] == [] && one[0] in one;
    assert PreSubmit(s, []) == s && PreSubmit(s, one) == s;
    var u := s.(gpu := Submitted(s.gpu, q, one, None));
    assert MarkAll(u, [], q, None) == u;
    assert MarkAll(u, one, q, None) == Mark(u, b, q, None);
  }

  // ---- the code

  class PendingTracker {
    var buffers: seq<CommandBuffer>
    var fences: seq<Fence>
    ghost var gpu: Gpu

    ghost function State(): System
      reads this
    {
      System(buffers, fences, gpu)
    }

    constructor ()
      ensures State() == START
    {
      buffers, fences, gpu := [], [], START.gpu;
    }

    /** std::remove over a list of indices. */
    method Remove(list: seq<nat>, b: nat) returns (kept: seq<nat>)
      ensures kept == Without(list, b)
    {
      kept := [];
      for i := 0 to |list|
        invariant kept + Without(list[i..], b) == Without(list, b)
      {
        if list[i] != b {
          kept := kept + [list[i]];
        }
      }
    }

    method ClearPendingCommandbuffer(b: nat)
      requires b < |buffers|
      modifies this
      ensures State() == ClearBuffer(old(State()), b)
    {
      var f := buffers[b].fence;
      if f.Some? && f.value < |fences| && fences[f.value].alive {
        var kept := Remove(fences[f.value].pending, b);
        fences := fences[f.value := fences[f.value].(pending := kept)];
      }
      buffers := buffers[b := buffers[b].(pending := false, queue := None, fence := None)];
    }

    method MarkPendingCommandbuffer(b: nat, queue: nat, fence: Option<nat>)
      requires b < |buffers| && (fence.Some? ==> fence.value < |fences|)
      modifies this
      ensures State() == Mark(old(State()), b, queue, fence)
    {
      ClearPendingCommandbuffer(b);
      buffers := buffers[b := buffers[b].(pending := true, queue := Some(queue), fence := fence)];
      if fence.Some? {
        fences := fences[fence.value := fences[fence.value].(pending := fences[fence.value].pending + [b])];
      }
    }

    method ClearPendingFence(f: nat)
      modifies this
      ensures State() == ClearFence(old(State()), f)
    {
      if f >= |fences| || !fences[f].alive {
        return;
      }
      var pending := fences[f].pending;
      ghost var before := buffers;
      for i := 0 to |pending|
        invariant fences == old(fences) && gpu == old(gpu) && |buffers| == |before|
        invariant forall k | 0 <= k < |before| ::
          buffers[k] == if k in pending[..i] && before[k].alive && before[k].fence == Some(f) then Cleared(before[k]) else before[k]
      {
        var b := pending[i];
        if b < |buffers| && buffers[b].alive && buffers[b].fence == Some(f) {
          buffers := buffers[b := buffers[b].(pending := false, queue := None, fence := None)];
        }
      }
      fences := fences[f := fences[f].(pending := [])];
    }

    /** vkWaitForFences and vkQueueWaitIdle, as the device sees them. */
    method WaitForFence(f: nat)
      modifies this`gpu
      ensures gpu == FenceDone(old(gpu), f)
    {
      gpu := FenceDone(gpu, f);
    }

    method WaitForQueue(q: nat)
      modifies this`gpu
      ensures gpu == QueueDone(old(gpu), q)
    {
      gpu := QueueDone(gpu, q);
    }

    method WaitForPendingCommandbuffer(b: nat, allowSimultaneousUse: bool)
      requires b < |buffers|
      modifies this
      ensures State() == WaitFor(old(State()), b, allowSimultaneousUse)
    {
      if !buffers[b].pending || (allowSimultaneousUse && buffers[b].simultaneousUse) {
        return;
      }
      var f, q := buffers[b].fence, buffers[b].queue;
      if f.Some? && f.value < |fences| && fences[f.value].alive {
        WaitForFence(f.value);
        ClearPendingFence(f.value);
      } else if q.Some? {
        WaitForQueue(q.value);
        ClearPendingCommandbuffer(b);
      } else {
        ClearPendingCommandbuffer(b);
      }
    }

    method CleanupForRerecord(b: nat)
      requires b < |buffers|
      modifies this
      ensures State() == Cleanup(old(State()), b)
    {
      WaitForPendingCommandbuffer(b, false);
      WaitKeepsObjects(old(State()), b, false);
      buffers := buffers[b := buffers[b].(scratch := [])];
    }

    /** replay_pre_vkQueueSubmit */
    method PreQueueSubmit(list: seq<nat>)
      requires AllLive(State(), list)
      modifies this
      ensures State() == PreSubmit(old(State()), list)
    {
      ghost var s := State();
      for i := 0 to |list|
        invariant State() == PreSubmit(s, list[..i])
      {
        assert list[..i + 1][..i] == list[..i] && list[i] in list;
        WaitForPendingCommandbuffer(list[i], true);
      }
      assert list[..|list|] == list;
    }

    /** replay_callback_vkQueueSubmit */
    method MarkSubmitted(queue: nat, list: seq<nat>, fence: Option<nat>)
      requires AllLive(State(), list) && (fence.Some? ==> fence.value < |fences|)
      modifies this
      ensures State() == MarkAll(old(State()), list, queue, fence)
    {
      ghost var u := State();
      for i := 0 to |list|
        invariant State() == MarkAll(u, list[..i], queue, fence)
      {
        assert list[..i + 1][..i] == list[..i] && list[i] in list;
        MarkPendingCommandbuffer(list[i], queue, fence);
      }
      assert list[..|list|] == list;
    }

    /** vkQueueSubmit with what comes before and after it. */
    method QueueSubmit(queue: nat, list: seq<nat>, fence: Option<nat>)
      requires AllLive(State(), list) && (fence.Some? ==> fence.value < |fences|)
      modifies this
      ensures State() == Submit(old(State()), queue, list, fence)
    {
      PreQueueSubmit(list);
      gpu := Submitted(gpu, queue, list, fence);
      MarkSubmitted(queue, list, fence);
    }

    method BeginCommandBuffer(b: nat, simultaneousUse: bool)
      requires b < |buffers| && buffers[b].alive
      modifies this
      ensures State() == Apply(old(State()), Begin(b, simultaneousUse))
    {
      CleanupForRerecord(b);
      WaitKeepsObjects(old(State()), b, false);
      buffers := buffers[b := buffers[b].(simultaneousUse := simultaneousUse)];
    }

    method ResetCommandPool(pool: nat)
      modifies this
      ensures State() == CleanPool(old(State()), pool, |old(buffers)|)
    {
      var b: nat := 1;
      while b < |buffers|
        invariant b >= 1 && |buffers| == |old(buffers)| && (b > 1 ==> b <= |buffers|)
        invariant State() == CleanPool(old(State()), pool, if b <= |buffers| then b else |buffers|)
      {
        if buffers[b].alive && buffers[b].pool == pool {
          WaitKeepsObjects(State(), b, false);
          CleanupForRerecord(b);
        }
        b := b + 1;
      }
    }

    /** The callbacks of vkQueueWaitIdle and vkDeviceWaitIdle, once the device is idle there. */
    method IdleCallback(idle: Idle)
      modifies this
      ensures State() == ClearIdle(old(State()), idle, |old(buffers)|)
    {
      var b: nat := 1;
      while b < |buffers|
        invariant b >= 1 && |buffers| == |old(buffers)| && (b > 1 ==> b <= |buffers|)
        invariant State() == ClearIdle(old(State()), idle, if b <= |buffers| then b else |buffers|)
      {
        var c := buffers[b];
        if c.alive && c.pending && (if idle.OfQueue? then c.queue == Some(idle.queue) else c.device == idle.device) {
          ClearPendingCommandbuffer(b);
        }
        b := b + 1;
      }
    }
  }
}
