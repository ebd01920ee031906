/** Thread barriers of an imported capture: how the importer keeps threadless work apart from the
    application threads, and what replay makes of it (src/gfxreconstruct_import.cpp:57-111, 620-650,
    1078-1085; src/read.h:511-577; src/read.cpp:220-236; src/write.cpp:197-221). */
module ImportBarriers {
  import opened Bytes

  /** `count` packets of `thread` must be complete. */
  datatype Need = Need(thread: nat, count: nat)

  /** `stamp` is when the packet was written, counted over all threads; it is not in the file. A call waits
      for the packets that last touched the handles it reads; a barrier for its endpoints. */
  datatype Packet = Call(stamp: nat, uses: seq<Need>) | Barrier(stamp: nat, endpoints: seq<nat>)

  type Streams = seq<seq<Packet>>

  const MAX_THREADS: nat := 255

  // ---- replay

  /** Completed packets per thread, and the threads that have completed a barrier but not passed it. */
  datatype Replay = Replay(done: seq<nat>, blocked: seq<bool>)

  predicate Reached(done: seq<nat>, n: Need) {
    n.thread < |done| && n.count <= done[n.thread]
  }

  /** Nothing that a packet of thread t waits for is missing; its own thread does not count. */
  predicate Satisfied(t: nat, p: Packet, done: seq<nat>) {
    match p
    case Call(_, uses) => forall n | n in uses && n.thread != t :: Reached(done, n)
    case Barrier(_, endpoints) => forall u: nat | u < |endpoints| && u != t :: Reached(done, Need(u, endpoints[u]))
  }

  predicate Shaped(streams: Streams, r: Replay) {
    && |r.done| == |streams| && |r.blocked| == |streams|
    && (forall t | 0 <= t < |streams| :: r.done[t] <= |streams[t]|
                                   && (r.blocked[t] ==> r.done[t] > 0 && streams[t][r.done[t] - 1].Barrier?))
  }

  predicate Finished(streams: Streams, r: Replay, t: nat)
    requires Shaped(streams, r) && t < |streams|
  {
    !r.blocked[t] && r.done[t] == |streams[t]|
  }

  /** The packet thread t is busy with: the barrier it has not passed, or the next one of its stream. */
  function At(streams: Streams, r: Replay, t: nat): (i: nat)
    requires Shaped(streams, r) && t < |streams| && !Finished(streams, r, t)
    ensures i < |streams[t]|
  {
    if r.blocked[t] then r.done[t] - 1 else r.done[t]
  }

  /** A barrier packet is completed first, so that nobody waits for it, and only then waits. */
  predicate CanStep(streams: Streams, r: Replay, t: nat)
    requires Shaped(streams, r)
  {
    && t < |streams| && !Finished(streams, r, t)
    && ((!r.blocked[t] && streams[t][r.done[t]].Barrier?) || Satisfied(t, streams[t][At(streams, r, t)], r.done))
  }

  function Advance(streams: Streams, r: Replay, t: nat): Replay
    requires Shaped(streams, r) && CanStep(streams, r, t)
  {
    if r.blocked[t] then r.(blocked := r.blocked[t := false])
    else Replay(r.done[t := r.done[t] + 1], r.blocked[t := streams[t][r.done[t]].Barrier?])
  }

  /** Of every packet a thread has left behind, what it waits for is complete. */
  ghost predicate Passed(streams: Streams, r: Replay)
    requires Shaped(streams, r)
  {
    forall t, i | 0 <= t < |streams| && 0 <= i < r.done[t] && !(r.blocked[t] && i == r.done[t] - 1) ::
      Satisfied(t, streams[t][i], r.done)
  }

  function Fresh(streams: Streams): Replay {
    Replay(seq(|streams|, _ => 0), seq(|streams|, _ => false))
  }

  ghost predicate IsReplay(streams: Streams, run: seq<Replay>, threads: seq<nat>) {
    && |run| == |threads| + 1 && run[0] == Fresh(streams)
    && (forall i | 0 <= i < |threads| ::
          Shaped(streams, run[i]) && CanStep(streams, run[i], threads[i]) && run[i + 1] == Advance(streams, run[i], threads[i]))
  }

  lemma AdvanceKeepsPassed(streams: Streams, r: Replay, t: nat)
    requires Shaped(streams, r) && Passed(streams, r) && CanStep(streams, r, t)
    ensures Shaped(streams, Advance(streams, r, t)) && Passed(streams, Advance(streams, r, t))
  {
    var next := Advance(streams, r, t);
    forall u, i | 0 <= u < |streams| && 0 <= i < next.done[u] && !(next.blocked[u] && i == next.done[u] - 1)
      ensures Satisfied(u, streams[u][i], next.done)
    {
      assert Satisfied(u, streams[u][i], r.done);
    }
  }

  lemma {:induction false} ReplayKeepsPassed(streams: Streams, run: seq<Replay>, threads: seq<nat>, i: nat)
    requires IsReplay(streams, run, threads) && i < |run|
    ensures Shaped(streams, run[i]) && Passed(streams, run[i])
  {
    if i > 0 {
      ReplayKeepsPassed(streams, run, threads, i - 1);
      AdvanceKeepsPassed(streams, run[i - 1], threads[i - 1]);
    }
  }

  /** No packet is complete before the packets of other threads that last touched what it uses. */
  lemma UsesComeFirst(streams: Streams, run: seq<Replay>, threads: seq<nat>, i: nat, t: nat, k: nat, n: Need)
    requires IsReplay(streams, run, threads) && i < |run| && t < |streams|
    ensures Shaped(streams, run[i])
    ensures k < run[i].done[t] && streams[t][k].Call? && n in streams[t][k].uses && n.thread != t ==>
      n.thread < |streams| && n.count <= run[i].done[n.thread]
  {
    ReplayKeepsPassed(streams, run, threads, i);
    if k < run[i].done[t] && streams[t][k].Call? && n in streams[t][k].uses && n.thread != t {
      assert Satisfied(t, streams[t][k], run[i].done);
    }
  }

  // ---- nothing gets stuck

  /** Thread u had written `count` packets by the time of the stamp. */
  predicate WrittenBefore(streams: Streams, n: Need, stamp: nat) {
    n.thread < |streams| && n.count <= |streams[n.thread]|
    && (n.count > 0 ==> streams[n.thread][n.count - 1].stamp < stamp)
  }

  predicate LooksBack(streams: Streams, t: nat, p: Packet) {
    match p
    case Call(stamp, uses) => forall n | n in uses && n.thread != t :: WrittenBefore(streams, n, stamp)
    case Barrier(stamp, endpoints) =>
      |endpoints| <= |streams| && forall u: nat | u < |endpoints| && u != t :: WrittenBefore(streams, Need(u, endpoints[u]), stamp)
  }

  predicate InOrder(stream: seq<Packet>) {
    forall i, j | 0 <= i < j < |stream| :: stream[i].stamp < stream[j].stamp
  }

  /** Every packet only waits for packets written before it. */
  ghost predicate Sound(streams: Streams) {
    && (forall t | 0 <= t < |streams| :: InOrder(streams[t]))
    && (forall t, i | 0 <= t < |streams| && 0 <= i < |streams[t]| :: LooksBack(streams, t, streams[t][i]))
  }

  predicate AllFinished(streams: Streams, r: Replay)
    requires Shaped(streams, r)
  {
    forall t | 0 <= t < |streams| :: Finished(streams, r, t)
  }

  function StampAt(streams: Streams, r: Replay, t: nat): nat
    requires Shaped(streams, r) && t < |streams| && !Finished(streams, r, t)
  {
    streams[t][At(streams, r, t)].stamp
  }

  /** Among the threads below n, one that is busy with the packet written first. */
  lemma {:induction false} Earliest(streams: Streams, r: Replay, n: nat) returns (t: nat)
    requires Shaped(streams, r) && n <= |streams| && exists u :: 0 <= u < n && !Finished(streams, r, u)
    ensures t < n && !Finished(streams, r, t)
    ensures forall u | 0 <= u < n && !Finished(streams, r, u) :: StampAt(streams, r, t) <= StampAt(streams, r, u)
  {
    if forall u | 0 <= u < n - 1 :: Finished(streams, r, u) {
      t := n - 1;
    } else {
      t := Earliest(streams, r, n - 1);
      if !Finished(streams, r, n - 1) && StampAt(streams, r, n - 1) < StampAt(streams, r, t) {
        t := n - 1;
      }
    }
  }

  lemma NeedIsMet(streams: Streams, r: Replay, t: nat, n: Need)
    requires Shaped(streams, r) && Sound(streams) && t < |streams| && !Finished(streams, r, t)
    requires forall u | 0 <= u < |streams| && !Finished(streams, r, u) :: StampAt(streams, r, t) <= StampAt(streams, r, u)
    requires WrittenBefore(streams, n, StampAt(streams, r, t))
    ensures Reached(r.done, n)
  {
    var u := n.thread;
    if !Finished(streams, r, u) && n.count > 0 {
      var i := At(streams, r, u);
      assert InOrder(streams[u]);
      assert streams[u][n.count - 1].stamp < streams[u][i].stamp;
      assert n.count - 1 < i;
    }
  }

  /** No deadlock: in whatever state, as long as a thread has packets left, some thread can go on. */
  lemma NeverStuck(streams: Streams, r: Replay)
    requires Shaped(streams, r) && Sound(streams) && !AllFinished(streams, r)
    ensures exists t :: CanStep(streams, r, t)
  {
    var t := Earliest(streams, r, |streams|);
    var p := streams[t][At(streams, r, t)];
    assert LooksBack(streams, t, p);
    if p.Call? {
      forall n | n in p.uses && n.thread != t ensures Reached(r.done, n) {
        NeedIsMet(streams, r, t, n);
      }
    } else {
      forall u: nat | u < |p.endpoints| && u != t ensures Reached(r.done, Need(u, p.endpoints[u])) {
        NeedIsMet(streams, r, t, Need(u, p.endpoints[u]));
      }
    }
    assert Satisfied(t, p, r.done);
    assert CanStep(streams, r, t);
  }

  // ---- every replay ends

  /** Steps that the threads below n can still take. */
  function WorkLeft(streams: Streams, r: Replay, n: nat): nat
    requires Shaped(streams, r) && n <= |streams|
  {
    if n == 0 then 0
    else WorkLeft(streams, r, n - 1) + 2 * (|streams[n - 1]| - r.done[n - 1]) + (if r.blocked[n - 1] then 1 else 0)
  }

  lemma {:induction false} AdvanceTakesWork(streams: Streams, r: Replay, t: nat, n: nat)
    requires Shaped(streams, r) && CanStep(streams, r, t) && n <= |streams|
    ensures Shaped(streams, Advance(streams, r, t))
    ensures WorkLeft(streams, Advance(streams, r, t), n) + (if t < n then 1 else 0) <= WorkLeft(streams, r, n)
  {
    if n > 0 {
      AdvanceTakesWork(streams, r, t, n - 1);
    }
  }

  /** However the threads are scheduled, a replay takes at most this many steps. */
  lemma {:induction false} ReplayIsBounded(streams: Streams, run: seq<Replay>, threads: seq<nat>, i: nat)
    requires IsReplay(streams, run, threads) && i < |run|
    ensures Shaped(streams, run[i]) && Shaped(streams, Fresh(streams))
    ensures i + WorkLeft(streams, run[i], |streams|) <= WorkLeft(streams, Fresh(streams), |streams|)
  {
    if i > 0 {
      ReplayIsBounded(streams, run, threads, i - 1);
      AdvanceTakesWork(streams, run[i - 1], threads[i - 1], |streams|);
    }
  }

  // ---- the importer

  datatype Import = Import(streams: Streams, indices: map<nat, nat>, current: nat, active: bool, clock: nat)

  /** import_thread_endpoints */
  function Endpoints(streams: Streams): (e: seq<nat>)
    ensures |e| == |streams| && forall t | 0 <= t < |streams| :: e[t] == |streams[t]|
  {
    seq(|streams|, t requires 0 <= t < |streams| => |streams[t]|)
  }

  function Put(s: Import, t: nat, p: Packet): Import
    requires t < |s.streams|
  {
    s.(streams := s.streams[t := s.streams[t] + [p]], clock := s.clock + 1)
  }

  function PutBarrier(s: Import, t: nat, endpoints: seq<nat>): Import
    requires t < |s.streams|
  {
    Put(s, t, Barrier(s.clock, endpoints))
  }

  /** import_select_thread; the process dies when there are too many threads. */
  function Select(s: Import, id: nat): Option<Import> {
    if id in s.indices then Some(s.(current := s.indices[id]))
    else if |s.streams| >= MAX_THREADS then None
    else
      var n := |s.streams|;
      var t := s.(streams := s.streams + [[]], indices := s.indices[id := n], current := n);
      Some(PutBarrier(t, n, Endpoints(t.streams)))
  }

  /** import_threadless_metacommand_begin */
  function MetacommandBegin(s: Import): Import
    requires s.streams != []
  {
    var t := s.(current := 0);
    if s.active then t else PutBarrier(t, 0, Endpoints(t.streams)).(active := true)
  }

  /** The same endpoints on threads 1 to n - 1. */
  function PutOnThreads(s: Import, endpoints: seq<nat>, n: nat): (r: Import)
    requires n <= |s.streams|
    ensures |r.streams| == |s.streams|
  {
    if n <= 1 then s else PutBarrier(PutOnThreads(s, endpoints, n - 1), n - 1, endpoints)
  }

  /** import_threadless_metacommand_end */
  function MetacommandEnd(s: Import): Import {
    if !s.active then s else PutOnThreads(s, Endpoints(s.streams), |s.streams|).(current := 0, active := false)
  }

  datatype Event =
    | Selects(id: nat)
    | Calls(uses: seq<Need>) // a packet on the current thread
    | Injects // a barrier of the writer's own on the current thread
    | Begins
    | Ends

  predicate Possible(s: Import, e: Event) {
    s.streams != [] && s.current < |s.streams|
    && match e
       case Selects(id) => Select(s, id).Some?
       case Calls(uses) => forall n | n in uses :: n.thread < |s.streams| && n.count <= |s.streams[n.thread]|
       case _ => true
  }

  function Handle(s: Import, e: Event): Import
    requires Possible(s, e)
  {
    match e
    case Selects(id) => Select(s, id).value
    case Calls(uses) => Put(s, s.current, Call(s.clock, uses))
    case Injects => PutBarrier(s, s.current, Endpoints(s.streams))
    case Begins => MetacommandBegin(s)
    case Ends => MetacommandEnd(s)
  }

  /** Thread 0 exists from the start, with a barrier to make it non-empty. */
  const START := Import([[Barrier(0, [0])]], map[], 0, false, 1)

  ghost predicate Valid(s: Import) {
    && s.streams != [] && s.current < |s.streams| && Sound(s.streams)
    && (forall id | id in s.indices :: s.indices[id] < |s.streams|)
    && (forall t, i | 0 <= t < |s.streams| && 0 <= i < |s.streams[t]| :: s.streams[t][i].stamp < s.clock)
  }

  lemma PutKeepsValid(s: Import, t: nat, p: Packet)
    requires Valid(s) && t < |s.streams| && p.stamp == s.clock && LooksBack(s.streams, t, p)
    ensures Valid(Put(s, t, p))
  {
    var r := Put(s, t, p);
    forall u, i | 0 <= u < |r.streams| && 0 <= i < |r.streams[u]| ensures LooksBack(r.streams, u, r.streams[u][i]) {
      var q := r.streams[u][i];
      assert LooksBack(s.streams, u, q);
      LookingBackLasts(s.streams, r.streams, u, q);
    }
  }

  predicate Grows(a: Streams, b: Streams) {
    |a| <= |b| && forall t | 0 <= t < |a| :: a[t] <= b[t]
  }

  lemma LookingBackLasts(a: Streams, b: Streams, t: nat, p: Packet)
    requires Grows(a, b) && LooksBack(a, t, p)
    ensures LooksBack(b, t, p)
  {
    if p.Call? {
      forall n | n in p.uses && n.thread != t ensures WrittenBefore(b, n, p.stamp) {
        assert WrittenBefore(a, n, p.stamp);
      }
    } else {
      forall u: nat | u < |p.endpoints| && u != t ensures WrittenBefore(b, Need(u, p.endpoints[u]), p.stamp) {
        assert WrittenBefore(a, Need(u, p.endpoints[u]), p.stamp);
      }
    }
  }

  predicate Behind(streams: Streams, endpoints: seq<nat>) {
    |endpoints| <= |streams| && forall u | 0 <= u < |endpoints| :: endpoints[u] <= |streams[u]|
  }

  /** A barrier whose endpoints have been reached may go on any thread. */
  lemma PutBarrierKeepsValid(s: Import, t: nat, endpoints: seq<nat>)
    requires Valid(s) && t < |s.streams| && Behind(s.streams, endpoints)
    ensures Valid(PutBarrier(s, t, endpoints)) && Behind(PutBarrier(s, t, endpoints).streams, endpoints)
  {
    PutKeepsValid(s, t, Barrier(s.clock, endpoints));
  }

  lemma {:induction false} PutOnThreadsKeepsValid(s: Import, endpoints: seq<nat>, n: nat)
    requires Valid(s) && Behind(s.streams, endpoints) && n <= |s.streams|
    ensures var r := PutOnThreads(s, endpoints, n);
      Valid(r) && Behind(r.streams, endpoints) && Grows(s.streams, r.streams) && r.indices == s.indices
    decreases n
  {
    if n > 1 {
      PutOnThreadsKeepsValid(s, endpoints, n - 1);
      PutBarrierKeepsValid(PutOnThreads(s, endpoints, n - 1), n - 1, endpoints);
    }
  }

  lemma AddingThreadKeepsValid(s: Import, id: nat)
    requires Valid(s)
    ensures Valid(s.(streams := s.streams + [[]], indices := s.indices[id := |s.streams|], current := |s.streams|))
  {
    var r := s.streams + [[]];
    forall t, i | 0 <= t < |r| && 0 <= i < |r[t]| ensures LooksBack(r, t, r[t][i]) {
      LookingBackLasts(s.streams, r, t, r[t][i]);
    }
  }

  /** The importer only ever adds packets, each behind what it waits for. */
  lemma HandleKeepsValid(s: Import, e: Event)
    requires Valid(s) && Possible(s, e)
    ensures Valid(Handle(s, e)) && Grows(s.streams, Handle(s, e).streams)
  {
    match e
    case Selects(id) =>
      if id !in s.indices {
        var n := |s.streams|;
        var t := s.(streams := s.streams + [[]], indices := s.indices[id := n], current := n);
        AddingThreadKeepsValid(s, id);
        PutBarrierKeepsValid(t, n, Endpoints(t.streams));
      }
    case Calls(uses) =>
      LookBackAtAll(s, uses);
      PutKeepsValid(s, s.current, Call(s.clock, uses));
    case Injects => PutBarrierKeepsValid(s, s.current, Endpoints(s.streams));
    case Begins => PutBarrierKeepsValid(s, 0, Endpoints(s.streams));
    case Ends => PutOnThreadsKeepsValid(s, Endpoints(s.streams), |s.streams|);
  }

  lemma LookBackAtAll(s: Import, uses: seq<Need>)
    requires Valid(s) && forall n | n in uses :: n.thread < |s.streams| && n.count <= |s.streams[n.thread]|
    ensures LooksBack(s.streams, s.current, Call(s.clock, uses))
  {
    forall n | n in uses ensures WrittenBefore(s.streams, n, s.clock) {}
  }

  /** A run of the importer, state by state. */
  ghost predicate IsImport(states: seq<Import>, events: seq<Event>) {
    && |states| == |events| + 1 && states[0] == START
    && (forall i | 0 <= i < |events| :: Possible(states[i], events[i]) && states[i + 1] == Handle(states[i], events[i]))
  }

  lemma {:induction false} ImportIsValid(states: seq<Import>, events: seq<Event>, i: nat)
    requires IsImport(states, events) && i < |states|
    ensures Valid(states[i])
  {
    if i > 0 {
      ImportIsValid(states, events, i - 1);
      HandleKeepsValid(states[i - 1], events[i - 1]);
    }
  }

  lemma GrowsOn(a: Streams, b: Streams, c: Streams)
    requires Grows(a, b) && Grows(b, c)
    ensures Grows(a, c)
  {
    forall t | 0 <= t < |a| ensures a[t] <= c[t] {
      assert a[t] <= b[t] <= c[t];
    }
  }

  lemma {:induction false} ImportGrows(states: seq<Import>, events: seq<Event>, i: nat, j: nat)
    requires IsImport(states, events) && i <= j < |states|
    ensures Grows(states[i].streams, states[j].streams)
    decreases j
  {
    if i < j {
      ImportGrows(states, events, i, j - 1);
      ImportIsValid(states, events, j - 1);
      HandleKeepsValid(states[j - 1], events[j - 1]);
      GrowsOn(states[i].streams, states[j - 1].streams, states[j].streams);
    }
  }

  /** Whatever was imported, its replay never gets stuck. */
  lemma ImportReplays(states: seq<Import>, events: seq<Event>, run: seq<Replay>, threads: seq<nat>)
    requires IsImport(states, events)
    requires IsReplay(states[|events|].streams, run, threads)
    ensures Shaped(states[|events|].streams, run[|threads|])
    ensures AllFinished(states[|events|].streams, run[|threads|])
         || exists t :: CanStep(states[|events|].streams, run[|threads|], t)
  {
    var streams := states[|events|].streams;
    ImportIsValid(states, events, |events|);
    ReplayKeepsPassed(streams, run, threads, |threads|);
    if !AllFinished(streams, run[|threads|]) {
      NeverStuck(streams, run[|threads|]);
    }
  }

  // ---- what a threadless region is ordered against

  /** Thread t is executing packet k. */
  predicate Executing(streams: Streams, r: Replay, t: nat, k: nat)
    requires Shaped(streams, r)
  {
    t < |streams| && !r.blocked[t] && r.done[t] == k < |streams[t]|
  }

  /** Behind a barrier at `at`, everything up to its endpoints is complete. */
  lemma BehindBarrier(streams: Streams, r: Replay, t: nat, at: nat, k: nat, endpoints: seq<nat>, u: nat)
    requires Shaped(streams, r) && Passed(streams, r) && Executing(streams, r, t, k) && at < k
    requires streams[t][at].Barrier? && streams[t][at].endpoints == endpoints && u < |endpoints| && u != t
    ensures u < |r.done| && endpoints[u] <= r.done[u]
  {
    assert Satisfied(t, streams[t][at], r.done);
    assert Reached(r.done, Need(u, endpoints[u]));
  }

  /** Opening a region puts one barrier on thread 0, with everything written so far as its endpoints. */
  lemma BeginPutsBarrier(s: Import)
    requires Valid(s) && !s.active
    ensures var r := MetacommandBegin(s);
      |r.streams[0]| == |s.streams[0]| + 1 && r.streams[0][|s.streams[0]|].Barrier?
      && r.streams[0][|s.streams[0]|].endpoints == Endpoints(s.streams)
  {}

  /** Everything written before a threadless region is complete before any packet of the region, or any later
      packet of thread 0, executes. */
  lemma RegionComesAfter(states: seq<Import>, events: seq<Event>, b: nat, run: seq<Replay>, threads: seq<nat>, i: nat,
                         k: nat, t: nat)
    requires IsImport(states, events) && b < |events| && events[b] == Begins && !states[b].active
    requires IsReplay(states[|events|].streams, run, threads) && i < |run|
    requires t < |states[b].streams|
    ensures Shaped(states[|events|].streams, run[i]) && t < |run[i].done|
    ensures Executing(states[|events|].streams, run[i], 0, k) && k > |states[b].streams[0]| ==>
      |states[b].streams[t]| <= run[i].done[t]
  {
    var streams, r := states[|events|].streams, run[i];
    ReplayKeepsPassed(streams, run, threads, i);
    ImportIsValid(states, events, b);
    ImportGrows(states, events, b, |events|);
    if Executing(streams, r, 0, k) && k > |states[b].streams[0]| && t != 0 {
      var at := |states[b].streams[0]|;
      BeginPutsBarrier(states[b]);
      ImportGrows(states, events, b + 1, |events|);
      assert streams[0][at] == states[b + 1].streams[0][at];
      BehindBarrier(streams, r, 0, at, k, Endpoints(states[b].streams), t);
    }
  }

  lemma {:induction false} EndPutsBarriers(s: Import, endpoints: seq<nat>, n: nat, t: nat)
    requires n <= |s.streams| && 1 <= t < |s.streams|
    ensures var r := PutOnThreads(s, endpoints, n).streams[t];
      if t < n then |r| == |s.streams[t]| + 1 && r[|s.streams[t]|].Barrier? && r[|s.streams[t]|].endpoints == endpoints
      else r == s.streams[t]
    decreases n
  {
    if n > 1 {
      EndPutsBarriers(s, endpoints, n - 1, t);
    }
  }

  /** And everything written on thread 0 up to the end of a region is complete before any packet that an
      existing thread writes after the region executes. */
  lemma ThreadsComeAfterRegion(states: seq<Import>, events: seq<Event>, e: nat, run: seq<Replay>, threads: seq<nat>, i: nat,
                               t: nat, k: nat)
    requires IsImport(states, events) && e < |events| && events[e] == Ends && states[e].active
    requires IsReplay(states[|events|].streams, run, threads) && i < |run|
    requires 1 <= t < |states[e].streams|
    ensures Shaped(states[|events|].streams, run[i])
    ensures Executing(states[|events|].streams, run[i], t, k) && k > |states[e].streams[t]| ==>
      |states[e].streams[0]| <= run[i].done[0]
  {
    var streams, r := states[|events|].streams, run[i];
    ReplayKeepsPassed(streams, run, threads, i);
    ImportIsValid(states, events, e);
    if Executing(streams, r, t, k) && k > |states[e].streams[t]| {
      var at := |states[e].streams[t]|;
      EndPutsBarriers(states[e], Endpoints(states[e].streams), |states[e].streams|, t);
      ImportGrows(states, events, e + 1, |events|);
      assert streams[t][at] == states[e + 1].streams[t][at];
      BehindBarrier(streams, r, t, at, k, Endpoints(states[e].streams), 0);
    }
  }

  /** A thread that appears later starts behind everything written until then, region or not. */
  lemma NewThreadsComeAfter(states: seq<Import>, events: seq<Event>, b: nat, run: seq<Replay>, threads: seq<nat>, i: nat,
                            t: nat, k: nat, u: nat)
    requires IsImport(states, events) && b < |events| && events[b].Selects? && events[b].id !in states[b].indices
    requires IsReplay(states[|events|].streams, run, threads) && i < |run|
    requires t == |states[b].streams| && u < |states[b].streams|
    ensures Shaped(states[|events|].streams, run[i]) && u < |run[i].done|
    ensures Executing(states[|events|].streams, run[i], t, k) && k > 0 ==> |states[b].streams[u]| <= run[i].done[u]
  {
    var streams, r := states[|events|].streams, run[i];
    ReplayKeepsPassed(streams, run, threads, i);
    ImportIsValid(states, events, b);
    ImportGrows(states, events, b, |events|);
    if Executing(streams, r, t, k) && k > 0 {
      var endpoints := Endpoints(states[b].streams + [[]]);
      ImportGrows(states, events, b + 1, |events|);
      assert states[b + 1].streams[t] == [Barrier(states[b].clock, endpoints)];
      assert streams[t][0] == states[b + 1].streams[t][0];
      BehindBarrier(streams, r, t, 0, k, endpoints, u);
    }
  }

  /** Everything written before a barrier that the writer puts in by itself is complete before any later packet of
      its thread executes. */
  lemma InjectedComesFirst(states: seq<Import>, events: seq<Event>, b: nat, run: seq<Replay>, threads: seq<nat>, i: nat,
                           k: nat, u: nat)
    requires IsImport(states, events) && b < |events| && events[b].Injects?
    requires IsReplay(states[|events|].streams, run, threads) && i < |run| && u < |states[b].streams|
    ensures Shaped(states[|events|].streams, run[i]) && u < |run[i].done|
    ensures Executing(states[|events|].streams, run[i], states[b].current, k) && k > |states[b].streams[states[b].current]| ==>
      |states[b].streams[u]| <= run[i].done[u]
  {
    var streams, r, t := states[|events|].streams, run[i], states[b].current;
    ReplayKeepsPassed(streams, run, threads, i);
    ImportIsValid(states, events, b);
    ImportGrows(states, events, b, |events|);
    if Executing(streams, r, t, k) && k > |states[b].streams[t]| && u != t {
      var at := |states[b].streams[t]|;
      ImportGrows(states, events, b + 1, |events|);
      assert states[b + 1].streams[t][at] == Barrier(states[b].clock, Endpoints(states[b].streams));
      assert streams[t][at] == states[b + 1].streams[t][at];
      BehindBarrier(streams, r, t, at, k, Endpoints(states[b].streams), u);
    }
  }

  // ---- whose packets are where

  /** Who wrote: an application thread by its id, or nobody's, as metacommands do. */
  datatype Writer = Threadless | Application(id: nat)

  /** Whether a threadless region is open after the events. */
  function RegionOpen(events: seq<Event>): bool {
    if events == [] then false else
      match events[|events| - 1]
      case Begins => true
      case Ends => false
      case _ => RegionOpen(events[..|events| - 1])
  }

  /** Whose packet is written next: that of the thread selected last, or none's since a region began or ended. */
  function NextWriter(events: seq<Event>): Writer {
    if events == [] then Threadless else
      var front := events[..|events| - 1];
      match events[|events| - 1]
      case Selects(id) => Application(id)
      case Begins => Threadless
      case Ends => if RegionOpen(front) then Threadless else NextWriter(front)
      case _ => NextWriter(front)
  }

  /** What the calls of this writer use, one after the other. */
  function CallsOf(events: seq<Event>, w: Writer): seq<seq<Need>> {
    if events == [] then [] else
      var front, last := events[..|events| - 1], events[|events| - 1];
      CallsOf(front, w) + if last.Calls? && NextWriter(front) == w then [last.uses] else []
  }

  function CallsIn(stream: seq<Packet>): seq<seq<Need>> {
    if stream == [] then [] else
      var last := stream[|stream| - 1];
      CallsIn(stream[..|stream| - 1]) + if last.Call? then [last.uses] else []
  }

  predicate Appeared(s: Import, w: Writer) {
    w.Threadless? || w.id in s.indices
  }

  function StreamOf(s: Import, w: Writer): nat
    requires Appeared(s, w)
  {
    if w.Threadless? then 0 else s.indices[w.id]
  }

  /** Every stream is that of one writer, and the current one is that of the next writer. */
  ghost predicate StreamsApart(s: Import, events: seq<Event>) {
    && s.streams != [] && s.active == RegionOpen(events)
    && Appeared(s, NextWriter(events)) && s.current == StreamOf(s, NextWriter(events))
    && (forall w | Appeared(s, w) :: StreamOf(s, w) < |s.streams|)
    && (forall v, w | Appeared(s, v) && Appeared(s, w) && v != w :: StreamOf(s, v) != StreamOf(s, w))
    && (forall t: nat | t < |s.streams| && t != 0 :: t in s.indices.Values)
  }

  ghost predicate HoldsCalls(s: Import, events: seq<Event>, w: Writer) {
    if !Appeared(s, w) then CallsOf(events, w) == []
    else StreamOf(s, w) < |s.streams| && CallsIn(s.streams[StreamOf(s, w)]) == CallsOf(events, w)
  }

  lemma CallsInMore(stream: seq<Packet>, p: Packet)
    ensures CallsIn(stream + [p]) == CallsIn(stream) + if p.Call? then [p.uses] else []
  {
    assert (stream + [p])[..|stream|] == stream;
  }

  lemma {:induction false} BarriersAreNoCalls(s: Import, endpoints: seq<nat>, n: nat, t: nat)
    requires n <= |s.streams| && t < |s.streams|
    ensures CallsIn(PutOnThreads(s, endpoints, n).streams[t]) == CallsIn(s.streams[t])
    ensures PutOnThreads(s, endpoints, n).indices == s.indices
    decreases n
  {
    if n > 1 {
      BarriersAreNoCalls(s, endpoints, n - 1, t);
      var r := PutOnThreads(s, endpoints, n - 1);
      CallsInMore(r.streams[t], Barrier(r.clock, endpoints));
    }
  }

  /** Barriers are nobody's calls. */
  lemma OnlyCallsCount(s: Import, e: Event, t: nat)
    requires Possible(s, e) && t < |s.streams|
    ensures t < |Handle(s, e).streams|
    ensures CallsIn(Handle(s, e).streams[t]) == CallsIn(s.streams[t]) + if e.Calls? && t == s.current then [e.uses] else []
  {
    var endpoints := Endpoints(s.streams);
    CallsInMore(s.streams[t], Barrier(s.clock, endpoints));
    match e
    case Calls(uses) => CallsInMore(s.streams[t], Call(s.clock, uses));
    case Ends =>
      if s.active {
        BarriersAreNoCalls(s, endpoints, |s.streams|, t);
      }
    case _ =>
  }
  lemma StartIsApart()
    ensures StreamsApart(START, []) && forall w | Appeared(START, w) :: w == Threadless
  {}

  ghost predicate WritersKept(s: Import, e: Event, r: Import) {
    && (forall w | Appeared(s, w) :: Appeared(r, w) && StreamOf(r, w) == StreamOf(s, w))
    && (forall w | Appeared(r, w) && !Appeared(s, w) ::
          e == Selects(w.id) && StreamOf(r, w) == |s.streams| < |r.streams|)
  }

  lemma SelectKeepsApart(s: Import, front: seq<Event>, id: nat)
    requires StreamsApart(s, front) && Possible(s, Selects(id))
    ensures StreamsApart(Handle(s, Selects(id)), front + [Selects(id)]) && WritersKept(s, Selects(id), Handle(s, Selects(id)))
  {
    assert (front + [Selects(id)])[..|front|] == front;
    var r, n := Handle(s, Selects(id)), |s.streams|;
    if id !in s.indices {
      NewThread(s, id);
      assert id in r.indices && r.indices[id] in r.indices.Values;
      forall t: nat | 0 < t < n ensures t in r.indices.Values {
        assert t in s.indices.Values;
        var i :| i in s.indices && s.indices[i] == t;
        assert i in r.indices && r.indices[i] == t;
      }
      forall w | Appeared(r, w) ensures if w == Application(id) then StreamOf(r, w) == n else Appeared(s, w) && StreamOf(r, w) == StreamOf(s, w) {}
    } else {
      forall w ensures Appeared(r, w) == Appeared(s, w) && (Appeared(s, w) ==> StreamOf(r, w) == StreamOf(s, w)) {}
    }
  }

  lemma NewThread(s: Import, id: nat)
    requires Possible(s, Selects(id)) && id !in s.indices
    ensures var r := Handle(s, Selects(id));
      r.indices == s.indices[id := |s.streams|] && |r.streams| == |s.streams| + 1 && r.current == |s.streams| && r.active == s.active
  {}

  lemma HandleKeepsApart(s: Import, front: seq<Event>, e: Event)
    requires StreamsApart(s, front) && Possible(s, e)
    ensures StreamsApart(Handle(s, e), front + [e]) && WritersKept(s, e, Handle(s, e))
  {
    assert (front + [e])[..|front|] == front;
    if e.Selects? {
      SelectKeepsApart(s, front, e.id);
    } else {
      if e.Ends? && s.active {
        BarriersAreNoCalls(s, Endpoints(s.streams), |s.streams|, 0);
      }
      var r := Handle(s, e);
      assert r.indices == s.indices && |r.streams| == |s.streams|;
      forall w ensures Appeared(r, w) == Appeared(s, w) && (Appeared(s, w) ==> StreamOf(r, w) == StreamOf(s, w)) {}
    }
  }

  lemma NewStreamIsEmpty(s: Import, id: nat)
    requires Possible(s, Selects(id)) && id !in s.indices
    ensures CallsIn(Handle(s, Selects(id)).streams[|s.streams|]) == []
  {
    var r := Handle(s, Selects(id)).streams[|s.streams|];
    assert r == [] + [Barrier(s.clock, Endpoints(s.streams + [[]]))];
    CallsInMore([], r[0]);
  }

  lemma HandleKeepsCalls(s: Import, front: seq<Event>, e: Event, w: Writer)
    requires StreamsApart(s, front) && Possible(s, e) && HoldsCalls(s, front, w)
    ensures HoldsCalls(Handle(s, e), front + [e], w)
  {
    var events := front + [e];
    assert events[..|events| - 1] == front;
    HandleKeepsApart(s, front, e);
    if Appeared(s, w) {
      OnlyCallsCount(s, e, StreamOf(s, w));
    } else if Appeared(Handle(s, e), w) {
      NewStreamIsEmpty(s, w.id);
    }
  }

  lemma {:induction false} StreamsStayApart(states: seq<Import>, events: seq<Event>, i: nat)
    requires IsImport(states, events) && i < |states|
    ensures StreamsApart(states[i], events[..i])
  {
    if i > 0 {
      StreamsStayApart(states, events, i - 1);
      HandleKeepsApart(states[i - 1], events[..i - 1], events[i - 1]);
      assert events[..i] == events[..i - 1] + [events[i - 1]];
    } else {
      assert events[..0] == [];
      StartIsApart();
    }
  }

  /** Whatever is imported: the stream of an application thread holds the calls of that thread, thread 0 those of
      metacommands, each all of them and in order; a thread that made none has none anywhere. */
  lemma {:induction false} CallsGoToTheirThread(states: seq<Import>, events: seq<Event>, i: nat, w: Writer)
    requires IsImport(states, events) && i < |states|
    ensures StreamsApart(states[i], events[..i]) && HoldsCalls(states[i], events[..i], w)
  {
    StreamsStayApart(states, events, i);
    if i > 0 {
      StreamsStayApart(states, events, i - 1);
      CallsGoToTheirThread(states, events, i - 1, w);
      HandleKeepsCalls(states[i - 1], events[..i - 1], events[i - 1], w);
      assert events[..i] == events[..i - 1] + [events[i - 1]];
    } else {
      assert events[..0] == [] && START.streams[0][..0] == [];
      StartIsApart();
    }
  }

  // ---- a metacommand in a region that is open already

  lemma ReplayOneMore(streams: Streams, run: seq<Replay>, threads: seq<nat>, t: nat, next: Replay)
    requires IsReplay(streams, run, threads) && Shaped(streams, run[|threads|]) && CanStep(streams, run[|threads|], t)
    requires next == Advance(streams, run[|threads|], t)
    ensures IsReplay(streams, run + [next], threads + [t])
  {
    forall i | 0 <= i < |threads + [t]|
      ensures Shaped(streams, (run + [next])[i]) && CanStep(streams, (run + [next])[i], (threads + [t])[i])
      ensures (run + [next])[i + 1] == Advance(streams, (run + [next])[i], (threads + [t])[i])
    {
      if i < |threads| {
        assert (run + [next])[i] == run[i] && (run + [next])[i + 1] == run[i + 1];
      }
    }
  }

  /** Any replay can be carried on until every packet is complete. */
  lemma {:induction false} RunOut(streams: Streams, run: seq<Replay>, threads: seq<nat>)
    returns (whole: seq<Replay>, schedule: seq<nat>)
    requires Sound(streams) && IsReplay(streams, run, threads) && Shaped(streams, run[|threads|])
    ensures IsReplay(streams, whole, schedule) && Shaped(streams, whole[|schedule|]) && AllFinished(streams, whole[|schedule|])
    decreases WorkLeft(streams, run[|threads|], |streams|)
  {
    var r := run[|threads|];
    if AllFinished(streams, r) {
      whole, schedule := run, threads;
    } else {
      NeverStuck(streams, r);
      var t :| CanStep(streams, r, t);
      var next := Advance(streams, r, t);
      AdvanceTakesWork(streams, r, t, |streams|);
      ReplayOneMore(streams, run, threads, t, next);
      whole, schedule := RunOut(streams, run + [next], threads + [t]);
    }
  }

  lemma StepTransfers(small: Streams, big: Streams, r: Replay, t: nat)
    requires |small| == |big| && Grows(small, big) && Shaped(small, r) && CanStep(small, r, t)
    ensures Shaped(big, r) && CanStep(big, r, t) && Advance(big, r, t) == Advance(small, r, t)
  {
    assert forall u | 0 <= u < |small| :: small[u] <= big[u];
  }

  /** Packets that are added behind the others do not stand in the way of a replay. */
  lemma ReplayTransfers(small: Streams, big: Streams, run: seq<Replay>, threads: seq<nat>)
    requires |small| == |big| && Grows(small, big) && IsReplay(small, run, threads)
    ensures IsReplay(big, run, threads)
  {
    forall i | 0 <= i < |threads|
      ensures Shaped(big, run[i]) && CanStep(big, run[i], threads[i]) && run[i + 1] == Advance(big, run[i], threads[i])
    {
      StepTransfers(small, big, run[i], threads[i]);
    }
  }

  /** In every replay everything in `before` is complete when thread 0 executes packet k, done with waiting. */
  ghost predicate CompleteBefore(streams: Streams, before: Streams, k: nat) {
    forall run: seq<Replay>, threads: seq<nat> | IsReplay(streams, run, threads) :: LastIsComplete(streams, before, k, run)
  }

  ghost predicate LastIsComplete(streams: Streams, before: Streams, k: nat, run: seq<Replay>)
    requires run != []
  {
    var r := run[|run| - 1];
    Shaped(streams, r) && Executing(streams, r, 0, k) && CanStep(streams, r, 0) ==>
      forall u | 0 <= u < |before| :: u < |r.done| && |before[u]| <= r.done[u]
  }

  /** An application thread writes a packet, then a metacommand one that waits for other packets only. */
  ghost predicate Interleaves(s: Import, id: nat, uses: seq<Need>, needs: seq<Need>) {
    && Valid(s) && id in s.indices && s.indices[id] > 0
    && (forall n | n in uses + needs :: n.thread < |s.streams| && n.count <= |s.streams[n.thread]|)
  }

  function AppliedTo(s: Import, id: nat, uses: seq<Need>): Import
    requires id in s.indices && s.indices[id] < |s.streams|
  {
    Put(s.(current := s.indices[id]), s.indices[id], Call(s.clock, uses))
  }

  lemma ApplicationWrites(s: Import, id: nat, uses: seq<Need>, needs: seq<Need>)
    requires Interleaves(s, id, uses, needs)
    ensures Possible(s, Selects(id)) && Possible(Handle(s, Selects(id)), Calls(uses))
    ensures Handle(Handle(s, Selects(id)), Calls(uses)) == AppliedTo(s, id, uses) && Valid(AppliedTo(s, id, uses))
  {
    assert forall n | n in uses :: n in uses + needs;
    HandleKeepsValid(s, Selects(id));
    HandleKeepsValid(Handle(s, Selects(id)), Calls(uses));
  }

  function MetacommandWrites(s: Import, needs: seq<Need>): Import
    requires s.streams != []
  {
    Put(MetacommandBegin(s), 0, Call(MetacommandBegin(s).clock, needs))
  }

  /** The metacommand's packet is covered by a barrier of its own if and only if the region was closed. */
  lemma MetacommandIsOrderedExactly(s: Import, id: nat, uses: seq<Need>, needs: seq<Need>)
    requires Interleaves(s, id, uses, needs)
    ensures var a := AppliedTo(s, id, uses);
      var m := MetacommandWrites(a, needs);
      CompleteBefore(m.streams, a.streams, |m.streams[0]| - 1) <==> !s.active
  {
    ApplicationWrites(s, id, uses, needs);
    var a := AppliedTo(s, id, uses);
    var m := MetacommandWrites(a, needs);
    if s.active {
      Overtakes(s, id, uses, needs);
    } else {
      forall run: seq<Replay>, threads: seq<nat> | IsReplay(m.streams, run, threads)
        ensures LastIsComplete(m.streams, a.streams, |m.streams[0]| - 1, run)
      {
        OwnBarrier(a, needs, run, threads);
      }
    }
  }

  lemma OwnBarrier(a: Import, needs: seq<Need>, run: seq<Replay>, threads: seq<nat>)
    requires Valid(a) && !a.active && IsReplay(MetacommandWrites(a, needs).streams, run, threads)
    ensures var m := MetacommandWrites(a, needs); LastIsComplete(m.streams, a.streams, |m.streams[0]| - 1, run)
  {
    var streams := MetacommandWrites(a, needs).streams;
    var r, at := run[|threads|], |a.streams[0]|;
    ReplayKeepsPassed(streams, run, threads, |threads|);
    if Executing(streams, r, 0, at + 1) {
      forall u | 0 <= u < |a.streams| ensures u < |r.done| && |a.streams[u]| <= r.done[u] {
        if u > 0 {
          BehindBarrier(streams, r, 0, at, at + 1, Endpoints(a.streams), u);
        }
      }
    }
  }

  lemma NeedsAreMet(s: Import, streams: Streams, r: Replay, needs: seq<Need>)
    requires Shaped(s.streams, r) && Shaped(streams, r) && AllFinished(s.streams, r) && s.streams != []
    requires forall n | n in needs :: n.thread < |s.streams| && n.count <= |s.streams[n.thread]|
    requires |streams[0]| > |s.streams[0]| && streams[0][|s.streams[0]|].Call? && streams[0][|s.streams[0]|].uses == needs
    ensures CanStep(streams, r, 0)
  {
    assert Finished(s.streams, r, 0);
    forall n | n in needs ensures Reached(r.done, n) {
      assert Finished(s.streams, r, n.thread);
    }
  }

  /** In an open region the packet overtakes what was written since: a replay that executes it first. */
  lemma Overtakes(s: Import, id: nat, uses: seq<Need>, needs: seq<Need>)
    requires Interleaves(s, id, uses, needs) && s.active
    ensures var a := AppliedTo(s, id, uses);
      var m := MetacommandWrites(a, needs);
      !CompleteBefore(m.streams, a.streams, |m.streams[0]| - 1)
  {
    var a := AppliedTo(s, id, uses);
    var m := MetacommandWrites(a, needs);
    ReplayKeepsPassed(s.streams, [Fresh(s.streams)], [], 0);
    var run, threads := RunOut(s.streams, [Fresh(s.streams)], []);
    assert forall n | n in needs :: n in uses + needs;
    ReplayTransfers(s.streams, m.streams, run, threads);
    ReplayKeepsPassed(m.streams, run, threads, |threads|);
    var t := s.indices[id];
    assert Finished(s.streams, run[|threads|], 0) && Finished(s.streams, run[|threads|], t);
    NeedsAreMet(s, m.streams, run[|threads|], needs);
    assert !LastIsComplete(m.streams, a.streams, |m.streams[0]| - 1, run);
  }

  // ---- the code

  class ImportContext {
    var streams: Streams
    var indices: map<nat, nat>
    var current: nat
    var active: bool
    var clock: nat // stands for the passing of time

    ghost function State(): Import
      reads this
    {
      Import(streams, indices, current, active, clock)
    }

    constructor ()
      ensures State() == START
    {
      streams, indices, current, active, clock := [[Barrier(0, [0])]], map[], 0, false, 1;
    }

    method ThreadEndpoints() returns (endpoints: seq<nat>)
      ensures endpoints == Endpoints(streams)
    {
      endpoints := [];
      for i := 0 to |streams|
        invariant |endpoints| == i && forall t | 0 <= t < i :: endpoints[t] == |streams[t]|
      {
        endpoints := endpoints + [|streams[i]|];
      }
    }

    method WriteThreadBarrier(endpoints: seq<nat>)
      requires current < |streams|
      modifies this
      ensures State() == PutBarrier(old(State()), old(current), endpoints)
    {
      streams := streams[current := streams[current] + [Barrier(clock, endpoints)]];
      clock := clock + 1;
    }

    method WriteCall(uses: seq<Need>)
      requires Possible(State(), Calls(uses))
      modifies this
      ensures State() == Handle(old(State()), Calls(uses))
    {
      streams := streams[current := streams[current] + [Call(clock, uses)]];
      clock := clock + 1;
    }

    method InjectThreadBarrier()
      requires Possible(State(), Injects)
      modifies this
      ensures State() == Handle(old(State()), Injects)
    {
      var endpoints := ThreadEndpoints();
      WriteThreadBarrier(endpoints);
    }

    /** import_select_thread; false stands for the process dying. */
    method SelectThread(id: nat) returns (ok: bool)
      requires forall i | i in indices :: indices[i] < |streams|
      modifies this
      ensures ok <==> Select(old(State()), id).Some?
      ensures ok ==> State() == Select(old(State()), id).value
    {
      if id in indices {
        current := indices[id];
        return true;
      }
      if |streams| >= MAX_THREADS {
        return false;
      }
      var index := |streams|;
      streams := streams + [[]];
      indices := indices[id := index];
      current := index;
      var endpoints := ThreadEndpoints();
      WriteThreadBarrier(endpoints);
      return true;
    }

    method ThreadlessMetacommandBegin()
      requires streams != []
      modifies this
      ensures State() == MetacommandBegin(old(State()))
    {
      current := 0;
      if active {
        return;
      }
      var endpoints := ThreadEndpoints();
      WriteThreadBarrier(endpoints);
      active := true;
    }

    method ThreadlessMetacommandEnd()
      requires streams != []
      modifies this
      ensures State() == MetacommandEnd(old(State()))
    {
      if !active {
        return;
      }
      var endpoints := ThreadEndpoints();
      for i := 1 to |streams|
        invariant |streams| == |old(streams)| && indices == old(indices) && active
        invariant State().(current := 0) == PutOnThreads(old(State()), endpoints, i).(current := 0)
      {
        current := i;
        WriteThreadBarrier(endpoints);
      }
      current := 0;
      active := false;
    }
  }
}
