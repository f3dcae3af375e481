/**
 The state root task's message loop as a transition function: one inbox
 message in, the task's new bookkeeping and its effects out.

 Effects are the multiproof calculations started, the `EmptyProof`
 messages the task sends to itself, the updates sent to the sparse trie
 task and the closing of that channel, which tells the sparse trie to
 compute the final root. Worker results arrive as ordinary messages, so a
 run of the task is a fold of `Step` over its inbox.
 */
module StateRootTask {

  import opened Wrappers
  import opened PostState
  import opened TrieUpdate
  import PS = ProofSequencer
  import MPM = MultiProofManager

  /** `StateRootMessage`, with timing data, sources and error payloads dropped. */
  datatype Message =
    | PrefetchProofs(targets: Targets)
    | StateUpdate(delta: seq<(Address, EvmAccount)>)
    | FinishedStateUpdates
    | EmptyProof(sequenceNumber: nat, state: HashedPostState)
    | ProofCalculated(sequenceNumber: nat, update: SparseTrieUpdate)
    | ProofCalculationError
    | RootCalculated(stateRoot: B256)
    | RootCalculationError

  /** The three messages after which the end condition is checked. */
  predicate ChecksEnd(msg: Message)
  {
    msg.FinishedStateUpdates? || msg.EmptyProof? || msg.ProofCalculated?
  }

  datatype Output =
    | StartProof(input: MPM.ProofInput)                     // calculation spawned on the pool
    | SendEmptyProof(sequenceNumber: nat, state: HashedPostState)  // `EmptyProof` to the task's own inbox
    | ToSparseTrie(update: SparseTrieUpdate)
    | CloseSparseTrie                                       // sender dropped: compute the final root

  datatype TaskError = ProofCalculationFailed | RootCalculationFailed

  /** The `expect`s in the loop. */
  datatype Panic =
    | SparseTrieAlreadyClosed   // "tx not dropped"
    | NoStateUpdateReceived     // "first update time should be set"

  datatype Outcome = Running | Finished(stateRoot: B256) | Failed(error: TaskError) | Panicked(reason: Panic)

  datatype Task = Task(
    fetched: Targets,                                 // `fetched_proof_targets`
    sequencer: PS.Sequencer<SparseTrieUpdate>,
    manager: MPM.Manager,
    prefetchProofsReceived: nat,
    updatesReceived: nat,
    proofsProcessed: nat,
    updatesFinished: bool,
    sparseTrieOpen: bool)                             // `sparse_trie_tx.is_some()`

  /**
   The task as `StateRootTask::new` and `run` start it: nothing fetched,
   received or processed, the sparse trie channel open, and a manager with
   at least one free slot, so the loop invariant holds from the start.
   */
  function NewTask(available: Option<nat>): (r: Task)
    ensures r.fetched == map[] && r.sequencer == PS.New() && r.sparseTrieOpen && !r.updatesFinished
    ensures r.prefetchProofsReceived == 0 && r.updatesReceived == 0 && r.proofsProcessed == 0
    ensures r.manager.inflight == 0 && r.manager.pending == [] && r.manager.maxConcurrent >= 1
  {
    MPM.NewFromPoolSize(available);
    Task(map[], PS.New(), MPM.New(MPM.RayonThreadPoolSize(available)), 0, 0, 0, false, true)
  }

  /**
   `check_end_condition`: every requested proof was processed, nothing
   waits in the sequencer and the state updates are finished.
   */
  predicate EndCondition(t: Task)
  {
    t.proofsProcessed >= t.updatesReceived + t.prefetchProofsReceived &&
    !PS.HasPending(t.sequencer) &&
    t.updatesFinished
  }

  /** Hands a request to `spawn_or_queue` and turns its decision into effects. */
  function Submit(t: Task, input: MPM.ProofInput): (r: (Task, seq<Output>))
    ensures r.0 == t.(manager := r.0.manager)
    ensures MPM.Inv(t.manager) ==> MPM.Inv(r.0.manager)
    // no targets: the task answers itself with an empty proof, the manager is untouched
    ensures input.targets == map[] ==>
      r.1 == [SendEmptyProof(input.sequenceNumber, input.state)] && r.0 == t
    // targets: started exactly when a slot is free, otherwise queued at the back
    ensures input.targets != map[] ==>
      (r.1 == [StartProof(input)] <==> t.manager.inflight < t.manager.maxConcurrent)
    ensures input.targets != map[] && t.manager.inflight < t.manager.maxConcurrent ==>
      r.0.manager == t.manager.(inflight := t.manager.inflight + 1)
    ensures input.targets != map[] && t.manager.inflight >= t.manager.maxConcurrent ==>
      r.1 == [] && r.0.manager == t.manager.(pending := t.manager.pending + [input])
  {
    var (m, admission) := MPM.SpawnOrQueue(t.manager, input);
    var out := match admission
      case AnsweredEmpty(n, s) => [SendEmptyProof(n, s)]
      case Queued => []
      case Spawned(i) => [StartProof(i)];
    (t.(manager := m), out)
  }

  /**
   `on_prefetch_proof`: the request is reduced to targets not fetched yet,
   which are then recorded as fetched; it takes a sequence number even when
   nothing is left to fetch.
   */
  function PrefetchRequest(t: Task, targets: Targets): (r: (Task, MPM.ProofInput))
    ensures r.1.targets == RetainDifference(targets, t.fetched)
    ensures r.0.fetched == ExtendRef(t.fetched, r.1.targets)
    ensures r.1.sequenceNumber == t.sequencer.nextSequence && r.1.state == EmptyState
    ensures r.0.sequencer.nextSequence == t.sequencer.nextSequence + 1
  {
    var sent := RetainDifference(targets, t.fetched);
    var (s, n) := PS.NextSequence(t.sequencer);
    (t.(fetched := ExtendRef(t.fetched, sent), sequencer := s), MPM.ProofInput(sent, n, EmptyState))
  }

  /**
   `on_state_update`: the delta is hashed, its targets are reduced to those
   not fetched yet, which are then recorded as fetched.
   */
  function UpdateRequest(h: Hasher, t: Task, update: seq<(Address, EvmAccount)>): (r: (Task, MPM.ProofInput))
    ensures r.1.state == HashedStateOf(h, update)
    ensures r.1.targets == RetainDifference(TargetsOf(r.1.state), t.fetched)
    ensures r.0.fetched == ExtendRef(t.fetched, r.1.targets)
    ensures r.1.sequenceNumber == t.sequencer.nextSequence
    ensures r.0.sequencer.nextSequence == t.sequencer.nextSequence + 1
  {
    var (s, n) := PS.NextSequence(t.sequencer);
    var hashed := HashedStateOf(h, update);
    var targets := TargetsDifference(hashed, t.fetched);
    TargetsDifferenceIsRetain(hashed, t.fetched);
    (t.(fetched := ExtendRef(t.fetched, targets), sequencer := s), MPM.ProofInput(targets, n, hashed))
  }

  /**
   `on_proof`: sequences the update and merges what becomes deliverable.
   Only the sequencer changes. A number already delivered changes nothing
   and yields nothing; a number beyond a gap is only buffered; the awaited
   number with a non-empty update always yields a merge; nothing empty is
   ever yielded.
   */
  function OnProof(t: Task, sequenceNumber: nat, update: SparseTrieUpdate): (r: (Task, Option<SparseTrieUpdate>))
    ensures r.0 == t.(sequencer := r.0.sequencer)
    ensures r.0.sequencer.nextSequence == t.sequencer.nextSequence
    ensures r.0.sequencer.nextToDeliver >= t.sequencer.nextToDeliver
    ensures PS.Valid(t.sequencer) ==> PS.Valid(r.0.sequencer)
    ensures PS.Valid(t.sequencer) && sequenceNumber < t.sequencer.nextToDeliver ==> r == (t, None)
    ensures PS.Valid(t.sequencer) && sequenceNumber > t.sequencer.nextToDeliver ==>
      r.1 == None &&
      r.0 == t.(sequencer := t.sequencer.(pending := t.sequencer.pending[sequenceNumber := update]))
    ensures sequenceNumber == t.sequencer.nextToDeliver && !UpdateIsEmpty(update) ==> r.1.Some?
    ensures r.1.Some? ==> !UpdateIsEmpty(r.1.value)
  {
    var (s, run) := PS.AddProof(t.sequencer, sequenceNumber, update);
    (t.(sequencer := s), MergeReleased(run))
  }

  /**
   Drops the sparse trie sender when the end condition holds; dropping
   twice does nothing. Afterwards the channel is closed whenever the task
   is done, a closed channel stays closed, nothing closes while the task is
   not done, and a close is emitted exactly when the channel goes from open
   to closed.
   */
  function CloseIfDone(t: Task): (r: (Task, seq<Output>))
    ensures r.0 == t.(sparseTrieOpen := r.0.sparseTrieOpen)
    ensures r.0.sparseTrieOpen ==> t.sparseTrieOpen && !EndCondition(r.0)
    ensures !EndCondition(t) ==> r == (t, [])
    ensures r.1 == (if t.sparseTrieOpen && !r.0.sparseTrieOpen then [CloseSparseTrie] else [])
  {
    if EndCondition(t) then (t.(sparseTrieOpen := false), if t.sparseTrieOpen then [CloseSparseTrie] else [])
    else (t, [])
  }

  /**
   A proof message after the manager bookkeeping: sequence it, send the
   merged run if any (which panics once the channel is closed), then check
   the end condition. The effects already produced come first; one more
   proof counts as processed; a panic is only possible with the channel
   closed; while running, what reaches the sparse trie is what `on_proof`
   yields.
   */
  function ProofArrived(t: Task, sequenceNumber: nat, update: SparseTrieUpdate, before: seq<Output>)
    : (r: StepResult)
    ensures r.request == None && |before| <= |r.outputs| && r.outputs[..|before|] == before
    ensures r.task.proofsProcessed == t.proofsProcessed + 1
    ensures r.task.sequencer == PS.AddProof(t.sequencer, sequenceNumber, update).0
    ensures r.task == t.(proofsProcessed := r.task.proofsProcessed, sequencer := r.task.sequencer,
                         sparseTrieOpen := r.task.sparseTrieOpen)
    ensures r.outcome == Running || (r.outcome == Panicked(SparseTrieAlreadyClosed) && !t.sparseTrieOpen)
  {
    var (t1, merged) := OnProof(t.(proofsProcessed := t.proofsProcessed + 1), sequenceNumber, update);
    if merged.Some? && !t1.sparseTrieOpen then StepResult(t1, before, Panicked(SparseTrieAlreadyClosed), None)
    else
      var sent := if merged.Some? then [ToSparseTrie(merged.value)] else [];
      var (t2, closing) := CloseIfDone(t1);
      StepResult(t2, before + sent + closing, Running, None)
  }

  /**
   While the loop goes on, what a proof message sends to the sparse trie
   after the effects already produced is exactly the merge `on_proof`
   yields.
   */
  lemma ProofArrivedSends(t: Task, sequenceNumber: nat, update: SparseTrieUpdate, before: seq<Output>)
    requires ProofArrived(t, sequenceNumber, update, before).outcome == Running
    ensures var r := ProofArrived(t, sequenceNumber, update, before);
      Sent(r.outputs) == Sent(before) +
        OptionSeq(OnProof(t.(proofsProcessed := t.proofsProcessed + 1), sequenceNumber, update).1)
  {
    var (t1, merged) := OnProof(t.(proofsProcessed := t.proofsProcessed + 1), sequenceNumber, update);
    var sent := if merged.Some? then [ToSparseTrie(merged.value)] else [];
    var closing := CloseIfDone(t1).1;
    assert ProofArrived(t, sequenceNumber, update, before).outputs == before + sent + closing;
    SentAppend(before + sent, closing);
    SentAppend(before, sent);
    assert Sent(sent) == OptionSeq(merged) by {
      if merged.Some? {
        assert sent[1..] == [];
      }
    }
    assert Sent(closing) == [] by {
      if closing != [] {
        assert closing == [CloseSparseTrie] && closing[1..] == [];
      }
    }
  }

  /** The updates sent to the sparse trie, in the order sent. */
  function Sent(outputs: seq<Output>): seq<SparseTrieUpdate>
    decreases |outputs|
  {
    if outputs == [] then []
    else (if outputs[0].ToSparseTrie? then [outputs[0].update] else []) + Sent(outputs[1..])
  }

  lemma {:induction false} SentAppend(a: seq<Output>, b: seq<Output>)
    ensures Sent(a + b) == Sent(a) + Sent(b)
    decreases |a|
  {
    if a != [] {
      assert (a + b)[0] == a[0];
      assert (a + b)[1..] == a[1..] + b;
      SentAppend(a[1..], b);
      var head := if a[0].ToSparseTrie? then [a[0].update] else [];
      PS.ConcatAssoc(head, Sent(a[1..]), Sent(b));
    } else {
      assert a + b == b;
    }
  }

  function OptionSeq<T>(o: Option<T>): seq<T>
  {
    match o case None => [] case Some(v) => [v]
  }

  /** The task after one message, its effects, and whether the loop goes on. */
  datatype StepResult = StepResult(
    task: Task,
    outputs: seq<Output>,
    outcome: Outcome,
    request: Option<MPM.ProofInput>)   // the request handed to `spawn_or_queue`, if any

  /**
   One iteration of the `run` loop. Only the two error messages and a
   calculated root end the loop; the root finishes it only after a state
   update was received. Requests hand exactly one input to the manager, under
   the next sequence number. With the sparse trie channel open no message
   panics.
   */
  function Step(h: Hasher, t: Task, msg: Message): (r: StepResult)
    ensures msg.ProofCalculationError? ==> r.outcome == Failed(ProofCalculationFailed)
    ensures msg.RootCalculationError? ==> r.outcome == Failed(RootCalculationFailed)
    ensures msg.RootCalculated? ==>
      r.outcome == (if t.updatesReceived == 0 then Panicked(NoStateUpdateReceived) else Finished(msg.stateRoot))
    ensures r.outcome.Panicked? && !msg.RootCalculated? ==> !t.sparseTrieOpen && (msg.EmptyProof? || msg.ProofCalculated?)
    ensures r.request.Some? <==> msg.PrefetchProofs? || msg.StateUpdate?
    ensures r.request.Some? ==> r.request.value.sequenceNumber == t.sequencer.nextSequence
  {
    match msg
    case PrefetchProofs(targets) =>
      var (t1, input) := PrefetchRequest(t.(prefetchProofsReceived := t.prefetchProofsReceived + 1), targets);
      var (t2, out) := Submit(t1, input);
      StepResult(t2, out, Running, Some(input))
    case StateUpdate(update) =>
      var (t1, input) := UpdateRequest(h, t.(updatesReceived := t.updatesReceived + 1), update);
      var (t2, out) := Submit(t1, input);
      StepResult(t2, out, Running, Some(input))
    case FinishedStateUpdates =>
      var (t1, closing) := CloseIfDone(t.(updatesFinished := true));
      StepResult(t1, closing, Running, None)
    case EmptyProof(n, state) =>
      ProofArrived(t, n, SparseTrieUpdate(state, TrieUpdate.EmptyProof), [])
    case ProofCalculated(n, update) =>
      var (m, started) := MPM.OnCalculationComplete(t.manager);
      var before := if started.Some? then [StartProof(started.value)] else [];
      ProofArrived(t.(manager := m), n, update, before)
    case ProofCalculationError => StepResult(t, [], Failed(ProofCalculationFailed), None)
    case RootCalculated(root) =>
      if t.updatesReceived == 0 then StepResult(t, [], Panicked(NoStateUpdateReceived), None)
      else StepResult(t, [], Finished(root), None)
    case RootCalculationError => StepResult(t, [], Failed(RootCalculationFailed), None)
  }

  /**
   The bookkeeping invariant of the loop: the sequencer buffer is well
   formed, every sequence number handed out belongs to a prefetch or a
   state update, the manager's admission invariant holds, the sparse trie
   channel is open exactly while the end condition has not been reached,
   and it is closed only after the state updates finished.
   */
  predicate Inv(t: Task)
  {
    PS.Valid(t.sequencer) &&
    t.sequencer.nextSequence == t.prefetchProofsReceived + t.updatesReceived &&
    MPM.Inv(t.manager) &&
    (t.sparseTrieOpen ==> !EndCondition(t)) &&
    (!t.sparseTrieOpen ==> t.updatesFinished)
  }

  /**
   Under the loop invariant the end condition means that a proof was
   processed for every sequence number handed out.
   */
  lemma EndConditionMeaning(t: Task)
    requires Inv(t)
    ensures EndCondition(t) <==>
      t.proofsProcessed >= t.sequencer.nextSequence && t.sequencer.pending == map[] && t.updatesFinished
  {
  }

  lemma NewTaskInv(available: Option<nat>)
    ensures Inv(NewTask(available))
  {
    MPM.NewFromPoolSize(available);
  }

  /** Only the three checking messages can make the end condition true. */
  lemma EndConditionOnlyOnChecks(h: Hasher, t: Task, msg: Message)
    requires !ChecksEnd(msg) && Step(h, t, msg).outcome == Running
    ensures EndCondition(Step(h, t, msg).task) ==> EndCondition(t)
  {
  }

  /** `ProofArrived` keeps the invariant of a task whose other parts are already in order. */
  lemma ProofArrivedInv(t: Task, n: nat, update: SparseTrieUpdate, before: seq<Output>)
    requires PS.Valid(t.sequencer) && MPM.Inv(t.manager)
    requires t.sequencer.nextSequence == t.prefetchProofsReceived + t.updatesReceived
    requires !t.sparseTrieOpen ==> t.updatesFinished
    requires ProofArrived(t, n, update, before).outcome == Running
    ensures Inv(ProofArrived(t, n, update, before).task)
  {
  }

  /** Every step that lets the loop go on preserves the invariant. */
  lemma StepInv(h: Hasher, t: Task, msg: Message)
    requires Inv(t) && Step(h, t, msg).outcome == Running
    ensures Inv(Step(h, t, msg).task)
  {
    match msg
    case PrefetchProofs(targets) =>
    case StateUpdate(update) =>
    case FinishedStateUpdates =>
    case EmptyProof(n, state) =>
      ProofArrivedInv(t, n, SparseTrieUpdate(state, TrieUpdate.EmptyProof), []);
    case ProofCalculated(n, update) =>
      var (m, started) := MPM.OnCalculationComplete(t.manager);
      var before := if started.Some? then [StartProof(started.value)] else [];
      ProofArrivedInv(t.(manager := m), n, update, before);
    case ProofCalculationError =>
    case RootCalculated(root) =>
    case RootCalculationError =>
  }

  /**
   The counters: a proof message counts one processed proof, a prefetch or
   state update one received request and one sequence number, nothing else
   moves them.
   */
  lemma StepCounters(h: Hasher, t: Task, msg: Message)
    requires Step(h, t, msg).outcome == Running
    ensures Step(h, t, msg).task.proofsProcessed ==
      t.proofsProcessed + (if msg.EmptyProof? || msg.ProofCalculated? then 1 else 0)
    ensures Step(h, t, msg).task.prefetchProofsReceived ==
      t.prefetchProofsReceived + (if msg.PrefetchProofs? then 1 else 0)
    ensures Step(h, t, msg).task.updatesReceived ==
      t.updatesReceived + (if msg.StateUpdate? then 1 else 0)
    ensures Step(h, t, msg).task.sequencer.nextSequence ==
      t.sequencer.nextSequence + (if msg.PrefetchProofs? || msg.StateUpdate? then 1 else 0)
    ensures Step(h, t, msg).task.updatesFinished == (t.updatesFinished || msg.FinishedStateUpdates?)
  {
  }

  /**
   Closing: the channel is closed on exactly the step whose message is one
   of the three checking ones and after which the end condition holds, and
   only if it was still open; once closed it stays closed.
   */
  lemma StepClose(h: Hasher, t: Task, msg: Message)
    requires Inv(t) && Step(h, t, msg).outcome == Running
    ensures (CloseSparseTrie in Step(h, t, msg).outputs) <==>
      t.sparseTrieOpen && ChecksEnd(msg) && EndCondition(Step(h, t, msg).task)
    ensures Step(h, t, msg).task.sparseTrieOpen <==>
      t.sparseTrieOpen && !(ChecksEnd(msg) && EndCondition(Step(h, t, msg).task))
    ensures multiset(Step(h, t, msg).outputs)[CloseSparseTrie] <= 1
    // nothing reaches a closed sparse trie: sending would panic instead
    ensures !t.sparseTrieOpen ==> forall o :: o in Step(h, t, msg).outputs ==> !o.ToSparseTrie?
  {
    var r := Step(h, t, msg);
    if msg.PrefetchProofs? || msg.StateUpdate? {
      RequestClose(h, t, msg);
    } else if msg.EmptyProof? {
      EmptyProofClose(h, t, msg);
    } else if msg.ProofCalculated? {
      CalculatedClose(h, t, msg);
    } else if msg.FinishedStateUpdates? {
      assert ClosesOnce(t, msg, r);
    } else {
      // the remaining messages end the loop
      assert false;
    }
  }

  /** The four closing facts of `StepClose` about one step. */
  predicate ClosesOnce(t: Task, msg: Message, r: StepResult)
  {
    ((CloseSparseTrie in r.outputs) <==> t.sparseTrieOpen && ChecksEnd(msg) && EndCondition(r.task)) &&
    (r.task.sparseTrieOpen <==> t.sparseTrieOpen && !(ChecksEnd(msg) && EndCondition(r.task))) &&
    multiset(r.outputs)[CloseSparseTrie] <= 1 &&
    (!t.sparseTrieOpen ==> forall o :: o in r.outputs ==> !o.ToSparseTrie?)
  }

  lemma EmptyProofClose(h: Hasher, t: Task, msg: Message)
    requires msg.EmptyProof? && Step(h, t, msg).outcome == Running
    ensures ClosesOnce(t, msg, Step(h, t, msg))
  {
    ProofArrivedClose(t, msg.sequenceNumber, SparseTrieUpdate(msg.state, TrieUpdate.EmptyProof), []);
  }

  lemma CalculatedClose(h: Hasher, t: Task, msg: Message)
    requires msg.ProofCalculated? && Step(h, t, msg).outcome == Running
    ensures ClosesOnce(t, msg, Step(h, t, msg))
  {
    var (m, started) := MPM.OnCalculationComplete(t.manager);
    var before := if started.Some? then [StartProof(started.value)] else [];
    ProofArrivedClose(t.(manager := m), msg.sequenceNumber, msg.update, before);
  }

  /** A request neither closes nor feeds the sparse trie. */
  lemma RequestClose(h: Hasher, t: Task, msg: Message)
    requires msg.PrefetchProofs? || msg.StateUpdate?
    ensures Step(h, t, msg).outcome == Running
    ensures Step(h, t, msg).task.sparseTrieOpen == t.sparseTrieOpen
    ensures forall o :: o in Step(h, t, msg).outputs ==> o.StartProof? || o.SendEmptyProof?
    ensures |Step(h, t, msg).outputs| <= 1
  {
  }

  lemma ProofArrivedClose(t: Task, n: nat, update: SparseTrieUpdate, before: seq<Output>)
    requires forall o :: o in before ==> o.StartProof?
    requires |before| <= 1
    requires ProofArrived(t, n, update, before).outcome == Running
    ensures (CloseSparseTrie in ProofArrived(t, n, update, before).outputs) <==>
      t.sparseTrieOpen && EndCondition(ProofArrived(t, n, update, before).task)
    ensures ProofArrived(t, n, update, before).task.sparseTrieOpen <==>
      t.sparseTrieOpen && !EndCondition(ProofArrived(t, n, update, before).task)
  {
    var (t1, merged) := OnProof(t.(proofsProcessed := t.proofsProcessed + 1), n, update);
    var sent := if merged.Some? then [ToSparseTrie(merged.value)] else [];
    var (t2, closing) := CloseIfDone(t1);
    assert ProofArrived(t, n, update, before).outputs == before + sent + closing;
    assert CloseSparseTrie !in before;
  }

  /** A proof message closes the sparse trie channel at most once. */
  lemma ProofArrivedClosesOnce(t: Task, n: nat, update: SparseTrieUpdate, before: seq<Output>)
    requires forall o :: o in before ==> o.StartProof?
    requires ProofArrived(t, n, update, before).outcome == Running
    ensures multiset(ProofArrived(t, n, update, before).outputs)[CloseSparseTrie] <= 1
  {
    var (t1, merged) := OnProof(t.(proofsProcessed := t.proofsProcessed + 1), n, update);
    var sent := if merged.Some? then [ToSparseTrie(merged.value)] else [];
    var (t2, closing) := CloseIfDone(t1);
    assert ProofArrived(t, n, update, before).outputs == before + sent + closing;
    assert multiset(before + sent + closing) == multiset(before) + multiset(sent) + multiset(closing);
    assert CloseSparseTrie !in before;
    assert multiset(before)[CloseSparseTrie] == 0;
  }

  /** Once the sparse trie channel is closed, a proof that still arrives sends nothing to it. */
  lemma ProofArrivedAfterClose(t: Task, n: nat, update: SparseTrieUpdate, before: seq<Output>)
    requires forall o :: o in before ==> o.StartProof?
    requires ProofArrived(t, n, update, before).outcome == Running
    ensures !t.sparseTrieOpen ==> forall o :: o in ProofArrived(t, n, update, before).outputs ==> !o.ToSparseTrie?
  {
  }

  /**
   Deduplication per request: the targets handed to the manager are
   disjoint from everything fetched before, and the fetched set grows by
   exactly the pairs the incoming request asked for.
   */
  lemma StepDedup(h: Hasher, t: Task, msg: Message)
    requires msg.PrefetchProofs? || msg.StateUpdate?
    ensures Step(h, t, msg).request.Some?
    ensures Slots(Step(h, t, msg).request.value.targets) !! Slots(t.fetched)
    ensures msg.PrefetchProofs? ==> Slots(Step(h, t, msg).task.fetched) == Slots(t.fetched) + Slots(msg.targets)
    ensures msg.StateUpdate? ==>
      Slots(Step(h, t, msg).task.fetched) == Slots(t.fetched) + Slots(TargetsOf(HashedStateOf(h, msg.delta)))
  {
    match msg
    case PrefetchProofs(targets) =>
      RetainDifferenceSpec(targets, t.fetched);
    case StateUpdate(update) =>
      RetainDifferenceSpec(TargetsOf(HashedStateOf(h, update)), t.fetched);
  }

  /**
   `FinishedStateUpdates` while some proof is still outstanding leaves the
   sparse trie channel open and emits nothing.
   */
  lemma FinishWhileProofsOutstanding(h: Hasher, t: Task)
    requires t.sparseTrieOpen
    requires t.proofsProcessed < t.updatesReceived + t.prefetchProofsReceived
    ensures Step(h, t, FinishedStateUpdates).outputs == []
    ensures Step(h, t, FinishedStateUpdates).task.sparseTrieOpen
    ensures Step(h, t, FinishedStateUpdates).task.updatesFinished
  {
  }

  /**
   After the state updates finished, the last outstanding proof, arriving
   for the awaited number with nothing buffered or queued, is forwarded and
   the channel is closed while that same message is processed.
   */
  lemma LastProofCloses(h: Hasher, t: Task, n: nat, u: SparseTrieUpdate)
    requires t.sparseTrieOpen && t.updatesFinished
    requires t.proofsProcessed + 1 == t.updatesReceived + t.prefetchProofsReceived
    requires t.sequencer.pending == map[] && n == t.sequencer.nextToDeliver
    requires t.manager.pending == []
    requires !UpdateIsEmpty(u)
    ensures Step(h, t, ProofCalculated(n, u)).outcome == Running
    ensures Step(h, t, ProofCalculated(n, u)).outputs == [ToSparseTrie(u), CloseSparseTrie]
    ensures !Step(h, t, ProofCalculated(n, u)).task.sparseTrieOpen
  {
    var added := PS.AddProof(t.sequencer, n, u);
    var p := PS.Buffered(t.sequencer, n, u);
    assert p == map[n := u] && n + 1 !in p;
    assert added.1 == [u];
    assert added.0.pending == map[] by {
      assert added.0.pending.Keys == {};
    }
  }

  /**
   A prefetch whose targets were all fetched before is answered with an
   empty proof under a fresh sequence number.
   */
  lemma PrefetchAlreadyFetched(h: Hasher, t: Task, targets: Targets)
    requires forall a :: a in targets ==> a in t.fetched && targets[a] <= t.fetched[a]
    ensures Step(h, t, PrefetchProofs(targets)).outputs == [SendEmptyProof(t.sequencer.nextSequence, EmptyState)]
    ensures Step(h, t, PrefetchProofs(targets)).task.sequencer.nextSequence == t.sequencer.nextSequence + 1
  {
    assert RetainDifference(targets, t.fetched) == map[] by {
      assert RetainDifference(targets, t.fetched).Keys == {};
    }
  }

  /** A proof beyond a gap is buffered and nothing is sent or closed. */
  lemma ProofAheadOfGap(h: Hasher, t: Task, n: nat, state: HashedPostState)
    requires PS.Valid(t.sequencer) && n > t.sequencer.nextToDeliver
    ensures Step(h, t, EmptyProof(n, state)).outcome == Running
    ensures Step(h, t, EmptyProof(n, state)).outputs == []
    ensures Step(h, t, EmptyProof(n, state)).task.sequencer ==
      t.sequencer.(pending := t.sequencer.pending[n := SparseTrieUpdate(state, TrieUpdate.EmptyProof)])
    ensures Step(h, t, EmptyProof(n, state)).task.sparseTrieOpen == t.sparseTrieOpen
  {
    var u := SparseTrieUpdate(state, TrieUpdate.EmptyProof);
    assert n in PS.AddProof(t.sequencer, n, u).0.pending;
  }

  /** The loop over an inbox: stops at the first message that ends it. */
  function Run(h: Hasher, t: Task, inbox: seq<Message>): (r: StepResult)
    decreases |inbox|
  {
    if inbox == [] then StepResult(t, [], Running, None)
    else
      var s := Step(h, t, inbox[0]);
      if s.outcome != Running then StepResult(s.task, s.outputs, s.outcome, None)
      else
        var rest := Run(h, s.task, inbox[1..]);
        StepResult(rest.task, s.outputs + rest.outputs, rest.outcome, None)
  }

  /**
   How a run ends: it finishes only with a root some message delivered,
   fails only on an error message that arrived, and, when no message that
   ends the loop arrived, either runs on or panics on a send to a closed
   sparse trie channel.
   */
  lemma {:induction false} RunOutcome(h: Hasher, t: Task, inbox: seq<Message>)
    ensures var r := Run(h, t, inbox);
      (r.outcome.Finished? ==> RootCalculated(r.outcome.stateRoot) in inbox) &&
      (r.outcome == Failed(ProofCalculationFailed) ==> ProofCalculationError in inbox) &&
      (r.outcome == Failed(RootCalculationFailed) ==> RootCalculationError in inbox) &&
      ((forall i :: 0 <= i < |inbox| ==> !Ends(inbox[i])) ==>
        r.outcome == Running || r.outcome == Panicked(SparseTrieAlreadyClosed))
    decreases |inbox|
  {
    if inbox != [] {
      assert inbox == [inbox[0]] + inbox[1..];
      var s := Step(h, t, inbox[0]);
      if s.outcome == Running {
        RunOutcome(h, s.task, inbox[1..]);
        if forall i :: 0 <= i < |inbox| ==> !Ends(inbox[i]) {
          assert forall i :: 0 <= i < |inbox[1..]| ==> inbox[1..][i] == inbox[i + 1];
        }
      }
    }
  }

  /** The messages that can end the loop. */
  predicate Ends(msg: Message)
  {
    msg.ProofCalculationError? || msg.RootCalculated? || msg.RootCalculationError?
  }

  /** The two messages carrying a proof for a sequence number. */
  predicate IsProof(msg: Message)
  {
    msg.EmptyProof? || msg.ProofCalculated?
  }

  /** What a proof message hands to the sequencer. */
  function ArrivalOf(msg: Message): (a: PS.Arrival<SparseTrieUpdate>)
    requires IsProof(msg)
    ensures a.sequence == msg.sequenceNumber
    ensures msg.EmptyProof? ==> a.update.multiproof == TrieUpdate.EmptyProof
  {
    match msg
    case EmptyProof(n, state) => PS.Arrival(n, SparseTrieUpdate(state, TrieUpdate.EmptyProof))
    case ProofCalculated(n, update) => PS.Arrival(n, update)
  }

  function Arrivals(inbox: seq<Message>): (r: seq<PS.Arrival<SparseTrieUpdate>>)
    requires forall i :: 0 <= i < |inbox| ==> IsProof(inbox[i])
    ensures |r| == |inbox|
    decreases |inbox|
  {
    if inbox == [] then [] else [ArrivalOf(inbox[0])] + Arrivals(inbox[1..])
  }

  /**
   While state updates are still streaming in, a proof message never ends
   the loop or closes the channel; it moves the sequencer exactly as one
   `add_proof` call does and sends the merge of the run that call releases,
   if that merge is not empty.
   */
  lemma ProofStepSends(h: Hasher, t: Task, msg: Message)
    requires IsProof(msg) && t.sparseTrieOpen && !t.updatesFinished
    ensures var r := Step(h, t, msg);
      var added := PS.AddProof(t.sequencer, ArrivalOf(msg).sequence, ArrivalOf(msg).update);
      r.outcome == Running && r.task.sparseTrieOpen && !r.task.updatesFinished &&
      r.task.sequencer == added.0 &&
      Sent(r.outputs) == OptionSeq(MergeReleased(added.1))
  {
    var a := ArrivalOf(msg);
    if msg.EmptyProof? {
      ProofArrivedSends(t, a.sequence, a.update, []);
    } else {
      var (m, started) := MPM.OnCalculationComplete(t.manager);
      var before := if started.Some? then [StartProof(started.value)] else [];
      assert Sent(before) == [];
      ProofArrivedSends(t.(manager := m), a.sequence, a.update, before);
    }
  }

  /**
   A stream of proof messages while state updates are still coming: the
   loop keeps running with the channel open, the sequencer ends where one
   `add_proof` call per message, in arrival order, leaves it, and the
   sparse trie receives the merge of each non-empty released run, in order.
   */
  lemma {:induction false} RunProofs(h: Hasher, t: Task, inbox: seq<Message>)
    requires forall i :: 0 <= i < |inbox| ==> IsProof(inbox[i])
    requires t.sparseTrieOpen && !t.updatesFinished
    ensures var r := Run(h, t, inbox);
      var released := PS.ReleaseAll(t.sequencer, Arrivals(inbox));
      r.outcome == Running && r.task.sparseTrieOpen && !r.task.updatesFinished &&
      r.task.sequencer == released.0 &&
      Sent(r.outputs) == MergedRuns(released.1)
    decreases |inbox|
  {
    if inbox != [] {
      var s := Step(h, t, inbox[0]);
      ProofStepSends(h, t, inbox[0]);
      RunProofs(h, s.task, inbox[1..]);
      var rest := Run(h, s.task, inbox[1..]);
      SentAppend(s.outputs, rest.outputs);
      var a := ArrivalOf(inbox[0]);
      var added := PS.AddProof(t.sequencer, a.sequence, a.update);
      assert Arrivals(inbox) == [a] + Arrivals(inbox[1..]);
      var runs := PS.ReleaseAll(added.0, Arrivals(inbox[1..])).1;
      assert PS.ReleaseAll(t.sequencer, Arrivals(inbox)).1 == [added.1] + runs;
      assert ([added.1] + runs)[1..] == runs;
    } else {
      assert Sent([]) == [];
    }
  }

  /**
   In-order delivery through the loop: when the proofs for the numbers
   `b .. b + n - 1` arrive once each, in any order, into a task waiting for
   `b` with nothing buffered, every update is released exactly once and in
   number order — the released runs, joined, are the updates listed by
   number — the sparse trie receives the merge of each non-empty run in
   that order, and nothing stays buffered.
   */
  lemma InOrderDelivery(h: Hasher, t: Task, inbox: seq<Message>, n: nat)
    requires forall i :: 0 <= i < |inbox| ==> IsProof(inbox[i])
    requires t.sparseTrieOpen && !t.updatesFinished && t.sequencer.pending == map[]
    requires PS.DistinctNumbers(Arrivals(inbox))
    requires forall k :: k in PS.Numbers(Arrivals(inbox)) <==>
      t.sequencer.nextToDeliver <= k < t.sequencer.nextToDeliver + n
    ensures Run(h, t, inbox).outcome == Running
    ensures Sent(Run(h, t, inbox).outputs) == MergedRuns(PS.ReleaseAll(t.sequencer, Arrivals(inbox)).1)
    ensures PS.InNumberOrder(Arrivals(inbox), t.sequencer.nextToDeliver, n,
                             PS.Flatten(PS.ReleaseAll(t.sequencer, Arrivals(inbox)).1))
    ensures Run(h, t, inbox).task.sequencer.pending == map[]
    ensures Run(h, t, inbox).task.sequencer.nextToDeliver == t.sequencer.nextToDeliver + n
  {
    RunProofs(h, t, inbox);
    PS.ReleaseInOrder(t.sequencer, Arrivals(inbox), n);
  }

  /**
   Over any inbox, the invariant holds at the end of a run still going and
   the sparse trie channel is closed at most once; a run that starts closed
   never closes it again.
   */
  lemma {:induction false} RunClosesOnce(h: Hasher, t: Task, inbox: seq<Message>)
    requires Inv(t)
    ensures Run(h, t, inbox).outcome == Running ==> Inv(Run(h, t, inbox).task)
    ensures multiset(Run(h, t, inbox).outputs)[CloseSparseTrie] <= (if t.sparseTrieOpen then 1 else 0)
    ensures !Run(h, t, inbox).task.sparseTrieOpen ==> Run(h, t, inbox).task.updatesFinished
    decreases |inbox|
  {
    if inbox != [] {
      var s := Step(h, t, inbox[0]);
      if s.outcome == Running {
        StepInv(h, t, inbox[0]);
        StepClose(h, t, inbox[0]);
        RunClosesOnce(h, s.task, inbox[1..]);
        var rest := Run(h, s.task, inbox[1..]);
        assert multiset(s.outputs + rest.outputs) == multiset(s.outputs) + multiset(rest.outputs);
      } else {
        FinalStepCloses(h, t, inbox[0]);
      }
    }
  }

  /** A step that ends the loop emits no `CloseSparseTrie`. */
  lemma FinalStepCloses(h: Hasher, t: Task, msg: Message)
    requires Step(h, t, msg).outcome != Running
    ensures CloseSparseTrie !in Step(h, t, msg).outputs
    ensures !Step(h, t, msg).task.sparseTrieOpen ==> Step(h, t, msg).task.updatesFinished || !t.sparseTrieOpen
  {
  }
}

/** Concrete runs of the task, following the lifecycle described in the comment on `run` (root.rs:764-804). */
module StateRootExamples {

  import opened Wrappers
  import opened PostState
  import opened TrieUpdate
  import opened StateRootTask
  import MPM = MultiProofManager
  import PS = ProofSequencer

  /** A hasher that leaves addresses and slots as they are. */
  function Plain(): Hasher
  {
    Hasher((a: Address) => a as B256, (s: U256) => s)
  }

  /** A touched, live account without storage changes. */
  function Touched(): EvmAccount
  {
    EvmAccount(AccountInfo(1, 0, KeccakEmpty), [], true, false)
  }

  /** An update carrying one revealed account node. */
  function SomeProof(): SparseTrieUpdate
  {
    SparseTrieUpdate(EmptyState, MultiProof(map[[] := [0x80]], map[]))
  }

  /**
   The state updates finish before the last proof: the channel stays open
   until that proof arrives and closes while it is processed, right after
   the proof is forwarded; the root then ends the loop.
   */
  lemma TerminationOrder()
    ensures var t0 := NewTask(Some(8));
      var s1 := Step(Plain(), t0, StateUpdate([(1, Touched())]));
      var s2 := Step(Plain(), s1.task, FinishedStateUpdates);
      var s3 := Step(Plain(), s2.task, ProofCalculated(0, SomeProof()));
      var s4 := Step(Plain(), s3.task, RootCalculated(7));
      |s1.outputs| == 1 && s1.outputs[0].StartProof? && s1.outputs[0].input.sequenceNumber == 0 &&
      s2.outputs == [] && s2.task.sparseTrieOpen &&
      s3.outputs == [ToSparseTrie(SomeProof()), CloseSparseTrie] && !s3.task.sparseTrieOpen &&
      s4.outcome == Finished(7)
  {
    var h := Plain();
    FirstUpdateSpawns();
    var s1 := Step(h, NewTask(Some(8)), StateUpdate([(1, Touched())]));
    FinishWhileProofsOutstanding(h, s1.task);
    var s2 := Step(h, s1.task, FinishedStateUpdates);
    assert s2.task == s1.task.(updatesFinished := true);
    SomeProofNotEmpty();
    LastProofCloses(h, s2.task, 0, SomeProof());
    var s3 := Step(h, s2.task, ProofCalculated(0, SomeProof()));
    assert s3.task.updatesReceived == 1 by {
      StepCounters(h, s2.task, ProofCalculated(0, SomeProof()));
    }
    RootAfterUpdates(h, s3.task, 7);
  }

  lemma RootAfterUpdates(h: Hasher, t: Task, root: B256)
    requires t.updatesReceived > 0
    ensures Step(h, t, RootCalculated(root)).outcome == Finished(root)
  {
  }

  lemma SomeProofNotEmpty()
    ensures !UpdateIsEmpty(SomeProof())
  {
    assert [] in SomeProof().multiproof.accountSubtree;
  }

  /** The first state update of a fresh task touches one account and its proof is spawned at once. */
  lemma FirstUpdateSpawns()
    ensures var s1 := Step(Plain(), NewTask(Some(8)), StateUpdate([(1, Touched())]));
      |s1.outputs| == 1 && s1.outputs[0].StartProof? && s1.outputs[0].input.sequenceNumber == 0 &&
      s1.task.sparseTrieOpen && !s1.task.updatesFinished && s1.task.proofsProcessed == 0 &&
      s1.task.updatesReceived == 1 && s1.task.prefetchProofsReceived == 0 &&
      s1.task.sequencer.pending == map[] && s1.task.sequencer.nextToDeliver == 0 &&
      s1.task.manager.pending == []
  {
    var h := Plain();
    var t0 := NewTask(Some(8));
    assert t0.manager.maxConcurrent == 4;
    var state := HashedStateOf(h, [(1, Touched())]);
    assert 1 in state.accounts by {
      assert [(1, Touched())][0].1.touched;
    }
    assert 1 in RetainDifference(TargetsOf(state), map[]);
  }

  /**
   A prefetch of targets already fetched still takes a sequence number and
   is answered with an empty proof; that answer waits for the earlier proof
   and is merged into it when it arrives.
   */
  lemma EmptyProofOccupiesSlot()
    ensures var t0 := NewTask(None);
      var targets := map[5 := {9}];
      var s1 := Step(Plain(), t0, PrefetchProofs(targets));
      var s2 := Step(Plain(), s1.task, PrefetchProofs(targets));
      var s3 := Step(Plain(), s2.task, EmptyProof(1, EmptyState));
      var s4 := Step(Plain(), s3.task, ProofCalculated(0, SomeProof()));
      s1.outputs == [StartProof(MPM.ProofInput(targets, 0, EmptyState))] &&
      s2.outputs == [SendEmptyProof(1, EmptyState)] &&
      s3.outputs == [] &&
      s4.outputs == [ToSparseTrie(SomeProof())]
  {
    var h := Plain();
    var targets: Targets := map[5 := {9}];
    FirstPrefetchSpawns();
    var s1 := Step(h, NewTask(None), PrefetchProofs(targets));
    var s2 := Step(h, s1.task, PrefetchProofs(targets));
    PrefetchAlreadyFetched(h, s1.task, targets);
    var s3 := Step(h, s2.task, EmptyProof(1, EmptyState));
    ProofAheadOfGap(h, s2.task, 1, EmptyState);
    LateProofMerges(h, s3.task);
  }

  /** A fresh task spawns the first prefetch and records its targets as fetched. */
  lemma FirstPrefetchSpawns()
    ensures var targets: Targets := map[5 := {9}];
      var s1 := Step(Plain(), NewTask(None), PrefetchProofs(targets));
      s1.outputs == [StartProof(MPM.ProofInput(targets, 0, EmptyState))] &&
      s1.task.fetched == targets && s1.task.sparseTrieOpen && !s1.task.updatesFinished &&
      s1.task.sequencer.pending == map[] && s1.task.sequencer.nextToDeliver == 0 &&
      s1.task.sequencer.nextSequence == 1 && s1.task.manager.pending == []
  {
    var targets: Targets := map[5 := {9}];
    assert RetainDifference(targets, map[]) == targets;
    var e := ExtendRef(map[], targets);
    assert e.Keys == {5} && e[5] == {9};
    assert e == targets;
  }

  /** The awaited proof releases the empty proof buffered behind it; merging leaves it unchanged. */
  lemma LateProofMerges(h: Hasher, t: Task)
    requires t.sequencer.nextToDeliver == 0
    requires t.sequencer.pending == map[1 := SparseTrieUpdate(EmptyState, TrieUpdate.EmptyProof)]
    requires t.sparseTrieOpen && !t.updatesFinished && t.manager.pending == []
    ensures Step(Plain(), t, ProofCalculated(0, SomeProof())).outputs == [ToSparseTrie(SomeProof())]
  {
    var empty := SparseTrieUpdate(EmptyState, TrieUpdate.EmptyProof);
    var run := PS.AddProof(t.sequencer, 0, SomeProof()).1;
    LateProofRun(t.sequencer);
    ExtendUpdateUnit(SomeProof());
    assert MergeAll(run) == ExtendUpdate(MergeAll([SomeProof()]), empty);
    assert [] in SomeProof().multiproof.accountSubtree;
  }

  /** Proof 0 arriving with the empty proof 1 buffered releases both, in order. */
  lemma LateProofRun(s: PS.Sequencer<SparseTrieUpdate>)
    requires s.nextToDeliver == 0
    requires s.pending == map[1 := SparseTrieUpdate(EmptyState, TrieUpdate.EmptyProof)]
    ensures PS.AddProof(s, 0, SomeProof()).1 == [SomeProof(), SparseTrieUpdate(EmptyState, TrieUpdate.EmptyProof)]
  {
    var b := PS.Buffered(s, 0, SomeProof());
    assert b == map[1 := SparseTrieUpdate(EmptyState, TrieUpdate.EmptyProof), 0 := SomeProof()] && 2 !in b;
    var run := PS.AddProof(s, 0, SomeProof()).1;
    assert |run| == 2 && run[0] == SomeProof();
    assert run[1 - 0] == b[1];
  }
}
