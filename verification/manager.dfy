/**
 Admission control of the multiproof manager: at most `maxConcurrent`
 proof calculations run at once, further requests wait in a FIFO queue and
 each completion starts the oldest waiting request. A request without
 targets is answered at once with an empty proof.

 Spawning a calculation on the thread pool is reduced to the decision to
 spawn; its result comes back later as a separate message to the task.
 */
module MultiProofManager {

  import opened Wrappers
  import opened PostState

  /** `MultiProofInput`: what a proof calculation needs, minus configuration and channels. */
  datatype ProofInput = ProofInput(
    targets: Targets,
    sequenceNumber: nat,
    state: HashedPostState)

  datatype Manager = Manager(
    maxConcurrent: nat,
    inflight: nat,
    pending: seq<ProofInput>)   // front = oldest

  /** What `spawn_or_queue` did with a request. */
  datatype Admission =
    | AnsweredEmpty(sequenceNumber: nat, state: HashedPostState)   // `EmptyProof` sent back
    | Queued
    | Spawned(input: ProofInput)

  /** Threads assumed when the host's parallelism cannot be determined. */
  const DefaultPoolSize: nat := 3

  /**
   `rayon_thread_pool_size`: the available parallelism less two, but never
   below three; three when the parallelism is unknown.
   */
  function RayonThreadPoolSize(available: Option<nat>): (r: nat)
    ensures r >= 3
    ensures available.None? ==> r == DefaultPoolSize
    ensures available.Some? && available.value >= 5 ==> r + 2 == available.value
    ensures available.Some? && available.value < 5 ==> r == 3
  {
    match available
    case None => DefaultPoolSize
    case Some(n) => if SatSub(n, 2) >= 3 then SatSub(n, 2) else 3
  }

  /** `MultiProofManager::new`: two threads of the pool are kept for the task itself. */
  function New(threadPoolSize: nat): (m: Manager)
    ensures m.inflight == 0 && m.pending == []
    ensures threadPoolSize >= 2 ==> m.maxConcurrent + 2 == threadPoolSize
    ensures threadPoolSize < 2 ==> m.maxConcurrent == 0
  {
    Manager(SatSub(threadPoolSize, 2), 0, [])
  }

  /**
   The admission invariant: never more than `maxConcurrent` in flight, at
   least one slot, and requests wait only while every slot is taken.
   */
  predicate Inv(m: Manager)
  {
    1 <= m.maxConcurrent && m.inflight <= m.maxConcurrent &&
    (m.pending != [] ==> m.inflight == m.maxConcurrent)
  }

  /**
   The manager the task builds satisfies the invariant for every host: the
   pool size is at least three, so at least one calculation may run.
   */
  lemma NewFromPoolSize(available: Option<nat>)
    ensures Inv(New(RayonThreadPoolSize(available)))
    ensures New(RayonThreadPoolSize(available)).maxConcurrent >= 1
  {
  }

  /** A manager built directly satisfies the invariant exactly when the pool has three threads or more. */
  lemma NewInv(threadPoolSize: nat)
    ensures Inv(New(threadPoolSize)) <==> threadPoolSize >= 3
  {
  }

  /** `spawn_or_queue`. */
  function SpawnOrQueue(m: Manager, input: ProofInput): (r: (Manager, Admission))
    // no targets: answered immediately, nothing else changes
    ensures input.targets == map[] ==> r == (m, AnsweredEmpty(input.sequenceNumber, input.state))
    // all slots busy: appended at the back of the queue
    ensures input.targets != map[] && m.inflight >= m.maxConcurrent ==>
      r.1 == Queued && r.0 == m.(pending := m.pending + [input])
    // a free slot: started at once
    ensures input.targets != map[] && m.inflight < m.maxConcurrent ==>
      r.1 == Spawned(input) && r.0 == m.(inflight := m.inflight + 1)
    ensures Inv(m) ==> Inv(r.0)
  {
    if input.targets == map[] then (m, AnsweredEmpty(input.sequenceNumber, input.state))
    else if m.inflight >= m.maxConcurrent then (m.(pending := m.pending + [input]), Queued)
    else (m.(inflight := m.inflight + 1), Spawned(input))
  }

  /** `on_calculation_complete`: frees a slot (saturating) and starts the oldest waiting request. */
  function OnCalculationComplete(m: Manager): (r: (Manager, Option<ProofInput>))
    ensures m.pending == [] ==> r == (m.(inflight := SatSub(m.inflight, 1)), None)
    ensures m.pending != [] ==>
      r.1 == Some(m.pending[0]) && r.0.pending == m.pending[1..] &&
      r.0.inflight == SatSub(m.inflight, 1) + 1
    ensures r.0.maxConcurrent == m.maxConcurrent
    ensures Inv(m) ==> Inv(r.0)
  {
    var freed := m.(inflight := SatSub(m.inflight, 1));
    if freed.pending == [] then (freed, None)
    else (freed.(inflight := freed.inflight + 1, pending := freed.pending[1..]), Some(freed.pending[0]))
  }

  /** An event the manager reacts to. */
  datatype Event = Submit(input: ProofInput) | Complete

  /**
   Replays events against the manager. Returns the final manager, the
   requests started (in order) and the requests answered with an empty proof.
   */
  function Replay(m: Manager, events: seq<Event>): (r: (Manager, seq<ProofInput>, seq<Admission>))
    ensures r.0.maxConcurrent == m.maxConcurrent
    decreases |events|
  {
    if events == [] then (m, [], [])
    else
      var rest := Replay(m, events[..|events| - 1]);
      match events[|events| - 1]
      case Submit(input) =>
        var (m1, a) := SpawnOrQueue(rest.0, input);
        if a.Spawned? then (m1, rest.1 + [input], rest.2)
        else if a.AnsweredEmpty? then (m1, rest.1, rest.2 + [a])
        else (m1, rest.1, rest.2)
      case Complete =>
        var (m1, started) := OnCalculationComplete(rest.0);
        if started.Some? then (m1, rest.1 + [started.value], rest.2) else (m1, rest.1, rest.2)
  }

  /** The requests with targets among the submitted ones, in submission order. */
  function WithTargets(events: seq<Event>): (r: seq<ProofInput>)
    ensures forall i :: 0 <= i < |r| ==> r[i].targets != map[]
    decreases |events|
  {
    if events == [] then []
    else
      var rest := WithTargets(events[..|events| - 1]);
      match events[|events| - 1]
      case Submit(input) => if input.targets != map[] then rest + [input] else rest
      case Complete => rest
  }

  /** The empty-proof answers a submission sequence calls for, in submission order. */
  function EmptyAnswers(events: seq<Event>): seq<Admission>
    decreases |events|
  {
    if events == [] then []
    else
      var rest := EmptyAnswers(events[..|events| - 1]);
      match events[|events| - 1]
      case Submit(input) =>
        if input.targets == map[] then rest + [AnsweredEmpty(input.sequenceNumber, input.state)] else rest
      case Complete => rest
  }

  /**
   FIFO fairness and bounded concurrency over any event sequence starting
   from an idle manager: the invariant holds throughout, the requests
   started followed by those still waiting are exactly the submitted
   requests with targets, in submission order, so no request overtakes an
   earlier one and none is lost or duplicated; requests without targets
   are answered with an empty proof, in order, and never started.
   */
  lemma {:induction false} ReplayFifo(m: Manager, events: seq<Event>)
    requires Inv(m) && m.pending == []
    ensures Inv(Replay(m, events).0)
    ensures Replay(m, events).1 + Replay(m, events).0.pending == WithTargets(events)
    ensures Replay(m, events).2 == EmptyAnswers(events)
    decreases |events|
  {
    if events != [] {
      var init := events[..|events| - 1];
      ReplayFifo(m, init);
      var rest := Replay(m, init);
      match events[|events| - 1]
      case Submit(input) =>
        if input.targets != map[] && rest.0.inflight < rest.0.maxConcurrent {
          assert rest.0.pending == [];
        }
      case Complete =>
        if rest.0.pending != [] {
          var p := rest.0.pending;
          assert rest.1 + [p[0]] + p[1..] == rest.1 + p;
        }
    }
  }
}
