# reth: state root task bookkeeping, eth message framing, disk blob store

This project is a Dafny model of three parts of reth, the Rust Ethereum
execution client, together with proofs about them.

- **State root task** (`crates/engine/tree/src/tree/root.rs`). The engine
  computes a block's state root while the block executes. The EVM sends
  state updates and prefetch requests to this task. For each one the task
  asks for a multiproof of the trie paths not fetched before. A
  `MultiProofManager` bounds how many multiproof calculations run at once.
  A `ProofSequencer` puts the finished proofs back in request order. The
  merged updates go to the sparse trie task. The task closes that channel
  once every proof is processed and the updates have finished.
  - Modules: `ProofSequencer`, `MultiProofManager`, `PostState` (hashed post
    state, proof targets), `TrieUpdate` (multiproofs, `SparseTrieUpdate`)
    and `StateRootTask` (the message loop as a transition function `Step`,
    folded over an inbox by `Run`).
- **eth wire messages** (`crates/net/eth-wire-types/src/message.rs`).
  - A protocol message is one identifier byte followed by its RLP payload.
  - Request and response payloads carry a request id inside a list header.
  - Which identifiers exist depends on the protocol version, eth/66 to eth/69.
  - Modules: `Rlp` (the RLP headers and `u64` integers the framing relies
    on, and the `u8` lists that the request pair tests carry),
    `EthMessageId` and `EthMessages`.
- **Disk blob store** (`crates/transaction-pool/src/blobstore/disk.rs`).
  - Blob sidecars are stored one file per transaction, with an in-memory
    cache in front.
  - Deletion is deferred until `cleanup`.
  - An index maps versioned blob hashes to transactions.
  - Module: `DiskBlobStore`.

Shared types (`Option`, `Result`, bytes, `SatSub` for saturating
subtraction) are in module `Wrappers` in `common.dfy`.

Some effects cannot be modelled directly. They become explicit inputs:

| effect in the code | how the model takes it |
|---|---|
| the hash functions (keccak of an address or a slot) | a `Hasher` value |
| the available parallelism | an `Option<nat>` |
| the filesystem | an `Io` value that names the files whose write, read or removal fails |
| the sidecar file codec | functions inside `Io` |
| iteration order of the blob cache and of `HashMap`s | a sequence argument |
| payload codecs of the message bodies | a `Codec` value whose round trip is a precondition |

Three modelling choices:

- **Messages and worker results.** A worker's result reaches the task's
  inbox as an ordinary message. A run of the task is therefore a fold of
  `Step` over its inbox.
- **Integer width.** `usize` and `u64` values are modelled as `nat`.
  Where the code saturates, the model saturates explicitly. This covers the
  pool-size subtraction, the in-flight count and the blob count.
- **Deduplication and stale proofs.** The task neither merges pending
  requests nor caches completed proofs. It removes already-fetched proof
  targets from each new request (`retain_difference` against
  `fetched_proof_targets`, root.rs:706-719). `add_proof` silently drops a
  proof whose number was already delivered (root.rs:251-253).

## Model

| member | source | states |
|---|---|---|
| `ProofSequencer.NextSequence` | crates/engine/tree/src/tree/root.rs:237-242 | hands out the current number and advances the counter by one, touching nothing else |
| `ProofSequencer.IssueManyConsecutive` | crates/engine/tree/src/tree/root.rs:237-242 | n calls hand out n distinct consecutive numbers starting at the counter |
| `ProofSequencer.AddProof` | crates/engine/tree/src/tree/root.rs:244-277 | releases exactly the maximal buffered run starting at the next number to deliver, in ascending order, and removes it from the buffer; a number already delivered is dropped without effect; a number beyond a gap is only buffered; the awaited number heads the run; validity of the buffer is preserved |
| `ProofSequencer.Drain` | crates/engine/tree/src/tree/root.rs:259-274 | collects consecutive buffered entries from a start number until the first missing one and removes exactly those |
| `ProofSequencer.Deliver` | crates/engine/tree/src/tree/root.rs:244-282 | over any sequence of arrivals the released updates are one contiguous run from where delivery stood, and the buffer stays valid |
| `ProofSequencer.DeliveryStep` | crates/engine/tree/src/tree/root.rs:244-277 | one arrival of a fresh number keeps the delivery invariant: the released updates are those of the numbers from the start up to the next one to deliver, in number order, and the buffer holds exactly the arrived numbers beyond it, with their updates |
| `ProofSequencer.DeliverInvariant` | crates/engine/tree/src/tree/root.rs:244-282 | for distinct arrivals in any order, the delivery invariant holds after all of them |
| `ProofSequencer.DeliverPermutation` | crates/engine/tree/src/tree/root.rs:244-282 | when the arrivals are a permutation of n consecutive numbers, all n are released, each in its number's position, and nothing stays pending |
| `ProofSequencer.ReleaseAll` | crates/engine/tree/src/tree/root.rs:244-277 | one `add_proof` call per arrival, in order, releases one run per arrival |
| `ProofSequencer.DeliverCons` | crates/engine/tree/src/tree/root.rs:244-282 | feeding the first arrival and then the rest equals feeding them all, states and released updates alike |
| `ProofSequencer.ReleaseAllDeliver` | crates/engine/tree/src/tree/root.rs:244-282 | the runs released one call at a time end in the same sequencer and, joined, are everything delivered |
| `ProofSequencer.ReleaseInOrder` | crates/engine/tree/src/tree/root.rs:244-282 | for a permutation of n consecutive numbers from the awaited one, the runs released call by call, joined, list every update once in number order, and nothing stays pending |
| `ProofSequencerExamples.OutOfOrder` | crates/engine/tree/src/tree/root.rs:1222-1241 | proofs 2, 0, 1 release nothing, then 0, then 1 and 2 together, leaving nothing pending |
| `ProofSequencerExamples.OutOfOrderFirst` | crates/engine/tree/src/tree/root.rs:1222-1241 | proof 2 alone is buffered and releases nothing |
| `ProofSequencerExamples.OutOfOrderSecond` | crates/engine/tree/src/tree/root.rs:1222-1241 | proof 0 then releases itself and leaves 2 buffered |
| `ProofSequencerExamples.OutOfOrderThird` | crates/engine/tree/src/tree/root.rs:1222-1241 | proof 1 then releases 1 and 2 and empties the buffer |
| `ProofSequencerExamples.BatchHoldsBack` | crates/engine/tree/src/tree/root.rs:1272-1286 | the batch 4, 2, 1, 3 releases nothing while 0 is missing |
| `ProofSequencerExamples.BatchReleasesAll` | crates/engine/tree/src/tree/root.rs:1272-1286 | once 0 arrives the whole batch 0 to 4 is released in order and nothing stays pending |
| `ProofSequencerExamples.BatchProcessing` | crates/engine/tree/src/tree/root.rs:1272-1286 | the two halves of the batch test together |
| `ProofSequencerExamples.DuplicateSequence` | crates/engine/tree/src/tree/root.rs:1258-1270 | a second proof with an already delivered number releases nothing and changes nothing |
| `MultiProofManager.RayonThreadPoolSize` | crates/engine/tree/src/tree/root.rs:44-59 | available parallelism minus two, at least three, and three by default when parallelism is unknown |
| `MultiProofManager.New` | crates/engine/tree/src/tree/root.rs:376-392 | starts with nothing in flight or queued and allows the pool size minus two (saturating) concurrent calculations |
| `MultiProofManager.NewInv` | crates/engine/tree/src/tree/root.rs:376-392 | the manager can make progress (at least one slot) exactly when the pool has at least three threads |
| `MultiProofManager.NewFromPoolSize` | crates/engine/tree/src/tree/root.rs:44-59 | the pool size the task actually uses always gives a manager with a free slot |
| `MultiProofManager.SpawnOrQueue` | crates/engine/tree/src/tree/root.rs:394-417 | a request without targets is answered at once with an empty proof and changes nothing; otherwise it is started when a slot is free and appended to the queue when none is; the admission invariant is preserved |
| `MultiProofManager.OnCalculationComplete` | crates/engine/tree/src/tree/root.rs:419-429 | frees a slot (saturating) and starts the front of the queue if any, keeping the invariant |
| `MultiProofManager.ReplayFifo` | crates/engine/tree/src/tree/root.rs:394-429 | over any interleaving of requests and completions, the requests started followed by those still queued are exactly the requests with targets in arrival order, and the empty ones are answered in order |
| `PostState.RetainDifference` | crates/engine/tree/src/tree/root.rs:706-719 | removes from the request every slot already fetched, keeping only accounts of the request |
| `PostState.RetainDifferenceSpec` | crates/engine/tree/src/tree/root.rs:706-719 | the remaining slots are exactly the requested ones minus the fetched ones; an account drops out only when already fetched; extending the fetched set by the remainder covers both |
| `PostState.ExtendRefSlots` | crates/engine/tree/src/tree/root.rs:707-710 | extending targets gives the union of their slots |
| `PostState.DedupRunDisjoint` | crates/engine/tree/src/tree/root.rs:706-743 | over a run of requests, the proof targets requested are pairwise disjoint, never repeat a fetched slot, and the fetched set ends up covering every request |
| `PostState.DedupStep` | crates/engine/tree/src/tree/root.rs:706-719 | one request asks only for unfetched slots and afterwards the fetched set is the old one plus the request |
| `PostState.Extend` | crates/engine/tree/src/tree/root.rs:106-110 | account entries of the later state override the earlier, storages merge per account |
| `PostState.ExtendStorage` | crates/engine/tree/src/tree/root.rs:106-110 | a later wiped storage replaces the earlier slots, otherwise later slots override earlier ones; wiped if either was |
| `PostState.ExtendAssoc` | crates/engine/tree/src/tree/root.rs:106-110 | extending hashed post states is associative |
| `PostState.ExtendUnit` | crates/engine/tree/src/tree/root.rs:106-110 | the empty state is a unit of extension on both sides |
| `PostState.ExtendEmpty` | crates/engine/tree/src/tree/root.rs:96-99 | an extension is empty exactly when both parts are |
| `PostState.TargetsDifferenceIsRetain` | crates/engine/tree/src/tree/root.rs:721-743 | the targets of a state minus the fetched ones equal the retained difference of the state's targets |
| `PostState.ToAccount` | crates/engine/tree/src/tree/root.rs:310-312 | nonce and balance are kept; the bytecode hash is absent exactly for the empty code hash |
| `PostState.ChangedSlots` | crates/engine/tree/src/tree/root.rs:314-319 | only changed slots are kept, keyed by their hashed slot |
| `PostState.ChangedSlotsValues` | crates/engine/tree/src/tree/root.rs:314-319 | each changed slot maps to its present value |
| `PostState.HashedStateOf` | crates/engine/tree/src/tree/root.rs:302-332 | the hashed state holds exactly the touched accounts, and storage only for accounts it holds |
| `PostState.HashedStateOfSpec` | crates/engine/tree/src/tree/root.rs:302-332 | for distinct address hashes, every touched account is present: a self-destructed one with no info and a wiped empty storage, any other with its converted info and exactly its changed slots, storage present only when a slot changed; untouched accounts are absent |
| `PostState.AddAccountStep` | crates/engine/tree/src/tree/root.rs:306-328 | adding one account reflects it when touched, does nothing when untouched, and leaves every other account alone |
| `TrieUpdate.MergeStorageProofs` | crates/engine/tree/src/tree/root.rs:106-110 | storage proofs merge per account: shared accounts keep the first root and concatenate their nodes, others are copied |
| `TrieUpdate.ExtendProofAssoc` | crates/engine/tree/src/tree/root.rs:106-110 | extending multiproofs is associative |
| `TrieUpdate.ExtendProofEmpty` | crates/engine/tree/src/tree/root.rs:96-99 | a merged multiproof is empty exactly when both are, and an empty one is a unit |
| `TrieUpdate.ExtendUpdateAssoc` | crates/engine/tree/src/tree/root.rs:106-110 | extending sparse trie updates is associative |
| `TrieUpdate.ExtendUpdateUnit` | crates/engine/tree/src/tree/root.rs:106-110 | the empty update is a unit of extension |
| `TrieUpdate.ExtendUpdateEmpty` | crates/engine/tree/src/tree/root.rs:96-99 | an extended update is empty exactly when both parts are |
| `TrieUpdate.MergeAllSplit` | crates/engine/tree/src/tree/root.rs:753-759 | merging a released run equals merging any split of it and then the two halves |
| `TrieUpdate.MergeAllEmpty` | crates/engine/tree/src/tree/root.rs:753-761 | a merged run is empty exactly when every element is |
| `TrieUpdate.MergeReleased` | crates/engine/tree/src/tree/root.rs:745-762 | nothing is sent exactly when every released update is empty; otherwise the merge of the run, which is not empty |
| `TrieUpdate.MergedRuns` | crates/engine/tree/src/tree/root.rs:745-762 | what a sequence of released runs sends: at most one update per run, none of them empty |
| `StateRootTask.Submit` | crates/engine/tree/src/tree/root.rs:394-417 | a request without targets becomes an `EmptyProof` to the task itself and changes nothing; otherwise it is started exactly when the manager has a free slot, taking that slot, and is appended to the queue otherwise; only the manager changes and its invariant is kept |
| `StateRootTask.PrefetchRequest` | crates/engine/tree/src/tree/root.rs:706-719 | requests only unfetched targets, records them as fetched, and takes the next sequence number with an empty state |
| `StateRootTask.UpdateRequest` | crates/engine/tree/src/tree/root.rs:721-743 | hashes the update, requests its unfetched targets, records them as fetched and takes the next sequence number |
| `StateRootTask.NewTask` | crates/engine/tree/src/tree/root.rs:572-590 | the task starts with nothing fetched, received or processed, the channel open, the updates not finished, and a manager with a free slot and nothing in flight or queued |
| `StateRootTask.OnProof` | crates/engine/tree/src/tree/root.rs:745-762 | only the sequencer changes and it stays valid; a number already delivered changes nothing and yields nothing; a number beyond the awaited one is only buffered and yields nothing; the awaited number with a non-empty update always yields a merge; nothing empty is ever yielded |
| `StateRootTask.CloseIfDone` | crates/engine/tree/src/tree/root.rs:1015-1037 | only the open flag changes; the channel is open afterwards only if it was open and the end condition does not hold; while the task is not done nothing changes; one close is emitted exactly when the channel goes from open to closed |
| `StateRootTask.ProofArrived` | crates/engine/tree/src/tree/root.rs:872-949 | a proof message keeps the effects already produced first, counts one more processed proof, moves the sequencer as `add_proof` does, changes nothing else but the open flag, and can only panic when the channel is closed |
| `StateRootTask.ProofArrivedSends` | crates/engine/tree/src/tree/root.rs:872-949 | while the loop goes on, what a proof sends to the sparse trie is exactly the merge `on_proof` yields |
| `StateRootTask.Step` | crates/engine/tree/src/tree/root.rs:819-1002 | error messages fail, a root finishes unless no state update was received, where it panics; other panics come only from a proof on a closed channel; exactly the requests hand an input to the manager, under the next sequence number |
| `StateRootTask.EndConditionMeaning` | crates/engine/tree/src/tree/root.rs:1015-1037 | under the loop invariant the end condition holds exactly when a proof was processed for every number handed out, nothing is buffered, and the updates finished |
| `StateRootTask.NewTaskInv` | crates/engine/tree/src/tree/root.rs:805-817 | the task starts in a state satisfying the loop invariant |
| `StateRootTask.StepInv` | crates/engine/tree/src/tree/root.rs:764-1003 | every message that keeps the loop running preserves the loop invariant |
| `StateRootTask.StepCounters` | crates/engine/tree/src/tree/root.rs:823-949 | each message kind increments exactly its own counter and the sequence counter advances only for requests |
| `StateRootTask.EndConditionOnlyOnChecks` | crates/engine/tree/src/tree/root.rs:823-853 | messages that do not check the end condition cannot make it true |
| `StateRootTask.StepClose` | crates/engine/tree/src/tree/root.rs:854-949 | the channel is closed by a step exactly when it was open, the message checks the end condition and the condition holds; it is closed at most once; nothing is sent to a closed channel |
| `StateRootTask.ProofArrivedClose` | crates/engine/tree/src/tree/root.rs:872-949 | the same closing facts for a proof message after the manager bookkeeping |
| `StateRootTask.ProofArrivedClosesOnce` | crates/engine/tree/src/tree/root.rs:872-949 | a proof message emits at most one close |
| `StateRootTask.ProofArrivedAfterClose` | crates/engine/tree/src/tree/root.rs:872-949 | once the channel is closed, a proof message that keeps the loop running sends nothing to the sparse trie |
| `StateRootTask.RequestClose` | crates/engine/tree/src/tree/root.rs:823-853 | a request never ends the loop or closes the channel and emits at most one start or empty proof |
| `StateRootTask.StepDedup` | crates/engine/tree/src/tree/root.rs:823-853 | every request asks only for slots not fetched before, and the fetched set grows by exactly the request's targets |
| `StateRootTask.FinishWhileProofsOutstanding` | crates/engine/tree/src/tree/root.rs:854-871 | finishing the updates while proofs are outstanding records it and keeps the channel open |
| `StateRootTask.LastProofCloses` | crates/engine/tree/src/tree/root.rs:901-949 | the last outstanding proof after updates finished is sent and then the channel is closed |
| `StateRootTask.PrefetchAlreadyFetched` | crates/engine/tree/src/tree/root.rs:706-719 | a prefetch of already fetched targets still takes a sequence number and answers itself with an empty proof |
| `StateRootTask.ProofAheadOfGap` | crates/engine/tree/src/tree/root.rs:872-900 | a proof beyond a gap is buffered and emits nothing |
| `StateRootTask.RunOutcome` | crates/engine/tree/src/tree/root.rs:805-1002 | a run finishes only with a root some message delivered, fails only on an error message that arrived, and without a message that ends the loop either runs on or panics on a closed channel |
| `StateRootTask.ProofStepSends` | crates/engine/tree/src/tree/root.rs:872-949 | while updates still stream in, a proof message keeps the loop running with the channel open, moves the sequencer as one `add_proof` call, and sends the non-empty merge of the released run |
| `StateRootTask.RunProofs` | crates/engine/tree/src/tree/root.rs:805-1002 | a stream of proof messages ends with the sequencer where one `add_proof` per message leaves it, and sends the merge of each non-empty released run, in order |
| `StateRootTask.InOrderDelivery` | crates/engine/tree/src/tree/root.rs:805-1002 | when the proofs for n consecutive numbers from the awaited one arrive once each in any order, every update is released exactly once in number order, the sparse trie receives the merges of the runs in that order, and nothing stays buffered |
| `StateRootTask.RunClosesOnce` | crates/engine/tree/src/tree/root.rs:764-1003 | over any inbox the invariant holds while running, the channel is closed at most once, and only after updates finished |
| `StateRootTask.FinalStepCloses` | crates/engine/tree/src/tree/root.rs:950-990 | a message that ends the loop never closes the channel |
| `StateRootExamples.TerminationOrder` | crates/engine/tree/src/tree/root.rs:835-978 | update, finish, proof, root: the proof is started, finishing keeps the channel open, the proof is sent then the channel closed, and the root ends the task |
| `StateRootExamples.RootAfterUpdates` | crates/engine/tree/src/tree/root.rs:950-978 | after at least one state update, a calculated root finishes the task with that root |
| `StateRootExamples.EmptyProofOccupiesSlot` | crates/engine/tree/src/tree/root.rs:823-949 | a repeated prefetch answers itself with an empty proof, which waits for the earlier proof and is then merged into it |
| `StateRootExamples.LateProofMerges` | crates/engine/tree/src/tree/root.rs:901-949 | a late proof releases the buffered empty proof after it and sends only the non-empty merge |
| `StateRootExamples.LateProofRun` | crates/engine/tree/src/tree/root.rs:244-277 | proof 0 with the empty proof 1 buffered releases both, in order |
| `Rlp.DecodeEncodeHeader` | crates/net/eth-wire-types/src/message.rs:614-635 | a list header, or a string header not describing a lone small byte, decodes back from its encoding |
| `Rlp.DecodeEncodeU64` | crates/net/eth-wire-types/src/message.rs:596-603 | every `u64` request id decodes back from its encoding, leaving what follows |
| `Rlp.DecodeU8` | crates/net/eth-wire-types/src/message.rs:698-707 | a decoded byte consumes input, and the input is exactly the byte's canonical encoding followed by the rest |
| `Rlp.DecodeEncodeU8` | crates/net/eth-wire-types/src/message.rs:683-707 | every byte decodes back from its encoding, leaving what follows |
| `Rlp.DecodeListBytes` | crates/net/eth-wire-types/src/message.rs:614-635 | a list header and its payload: the input is the canonical list header of the payload, the payload and the rest; a string is rejected |
| `Rlp.DecodeItems` | crates/net/eth-wire-types/src/message.rs:683-724 | a decoded list payload is the concatenation of the items' encodings |
| `Rlp.DecodeByteVec` | crates/net/eth-wire-types/src/message.rs:683-724 | a decoded `Vec<u8>` is followed by the rest exactly when the input is its encoding followed by the rest |
| `Rlp.DecodeEncodeItems` | crates/net/eth-wire-types/src/message.rs:683-724 | the items of a byte list decode back from their concatenated encodings |
| `Rlp.DecodeEncodeByteVec` | crates/net/eth-wire-types/src/message.rs:683-724 | every `Vec<u8>` that fits decodes back from its encoding, leaving what follows |
| `Rlp.LeftPad64` | crates/net/eth-wire-types/src/message.rs:614-635 | more than eight bytes overflow, a leading zero is rejected, otherwise the big-endian value whose minimal encoding is the input |
| `Rlp.DecodeHeader` | crates/net/eth-wire-types/src/message.rs:619-620 | an empty buffer is too short; a decoded payload lies within the buffer and the remainder is a suffix |
| `EthMessageId.FromU8` | crates/net/eth-wire-types/src/message.rs:514-538 | a byte decodes to a named identifier exactly when it is one of the assigned codes |
| `EthMessageId.ToU8` | crates/net/eth-wire-types/src/message.rs:472-492 | a named identifier has an assigned code, a canonical identifier comes back from its code, and `Other` keeps its byte |
| `EthMessageId.ToU8FromU8` | crates/net/eth-wire-types/src/message.rs:472-538 | every byte survives decoding and re-encoding and decodes to a canonical identifier |
| `EthMessageId.FromU8ToU8` | crates/net/eth-wire-types/src/message.rs:472-538 | an identifier survives encoding and decoding exactly when it is canonical |
| `EthMessageId.OtherNamedCodeExample` | crates/net/eth-wire-types/src/message.rs:466-493 | `Other(0)` is not canonical and comes back as `Status` |
| `EthMessageId.Max` | crates/net/eth-wire-types/src/message.rs:495-502 | the highest code the version knows: it is assigned and exists in the version, and every code the version knows is at most it |
| `EthMessageId.MaxBounds` | crates/net/eth-wire-types/src/message.rs:495-502 | every named code is at most eth/69's maximum, and all but `BlockRangeUpdate` at most every version's |
| `EthMessageId.Decode` | crates/net/eth-wire-types/src/message.rs:514-538 | an empty buffer is too short, otherwise one byte is consumed and decoded canonically |
| `EthMessageId.DecodeEncode` | crates/net/eth-wire-types/src/message.rs:505-538 | a canonical identifier decodes back from its one-byte encoding |
| `EthMessageId.TryFromUsize` | crates/net/eth-wire-types/src/message.rs:540-564 | succeeds exactly on the assigned codes, giving the identifier with that code, and fails with "Invalid message ID" otherwise |
| `EthMessageId.TryFromAgrees` | crates/net/eth-wire-types/src/message.rs:540-564 | the `usize` conversion agrees with the byte decoder and fails exactly where the decoder yields `Other` |
| `EthMessages.EncodePair` | crates/net/eth-wire-types/src/message.rs:596-611 | the encoding is a list header of the payload length followed by the payload (request id, then message): its size is the payload plus the header and it ends with the payload |
| `EthMessages.EncodePairFramed` | crates/net/eth-wire-types/src/message.rs:591-635 | the encoding opens with a list header announcing exactly the payload, and the payload starts with the request id followed by the message's encoding |
| `EthMessages.PairLength` | crates/net/eth-wire-types/src/message.rs:605-611 | the length equals that of the encoding |
| `EthMessages.DecodePair` | crates/net/eth-wire-types/src/message.rs:614-635 | succeeds only when exactly the header's payload length was consumed |
| `EthMessages.DecodeEncodePair` | crates/net/eth-wire-types/src/message.rs:591-635 | for a round-tripping payload codec, every request pair decodes back from its encoding, leaving what follows |
| `EthMessages.ByteVecCodecRoundTrips` | crates/net/eth-wire-types/src/message.rs:683-724 | the `Vec<u8>` payload the tests use is a round-tripping codec |
| `EthMessages.EncodeByteVecExample` | crates/net/eth-wire-types/src/message.rs:683-724 | [5] encodes to c1 05 and [5, 5] to c2 05 05 |
| `EthMessages.EncodePairExample` | crates/net/eth-wire-types/src/message.rs:683-696 | id 1337 with the byte vector [5] encodes to c5 82 05 39 c1 05, of length 6 |
| `EthMessages.DecodePairExample` | crates/net/eth-wire-types/src/message.rs:698-707 | c5 82 05 39 c1 05 decodes to id 1337 with the byte vector [5], consuming everything |
| `EthMessages.ShortHeaderRejected` | crates/net/eth-wire-types/src/message.rs:626-631 | for any round-tripping payload codec, a list header shorter than the id and message it frames is rejected as an unexpected length |
| `EthMessages.MaliciousPairExample` | crates/net/eth-wire-types/src/message.rs:709-724 | c5 82 05 39 c2 05 05, whose header claims five bytes for six, is rejected as an unexpected length |
| `EthMessages.MessageId` | crates/net/eth-wire-types/src/message.rs:285-308 | a message's identifier is `Other` exactly for raw messages, whose id is truncated to a byte |
| `EthMessages.From` | crates/net/eth-wire-types/src/message.rs:154-158 | wraps the message with its own identifier |
| `EthMessages.IsRequest` | crates/net/eth-wire-types/src/message.rs:310-319 | a request is exactly a message with a request id whose identifier is odd |
| `EthMessages.IsResponse` | crates/net/eth-wire-types/src/message.rs:321-333 | a response is exactly a message with a request id whose identifier is even |
| `EthMessages.RequestResponse` | crates/net/eth-wire-types/src/message.rs:310-333 | no message is both request and response, the messages with request ids are exactly the requests and responses, and each response's identifier follows a request's |
| `EthMessages.Classify` | crates/net/eth-wire-types/src/message.rs:60-139 | raw exactly for unassigned codes; a routed kind has the identifier read and exists in the version; a rejection names the identifier read |
| `EthMessages.DecodeRouted` | crates/net/eth-wire-types/src/message.rs:76-135 | the decoded message has the identifier read and the routed kind; a raw message keeps the rest of the buffer; rejections are the only version errors |
| `EthMessages.DecodeMessage` | crates/net/eth-wire-types/src/message.rs:60-139 | an empty buffer is too short; a decoded message carries the identifier read, agrees with `From` and is valid in the version; it is rejected as invalid exactly when its identifier does not exist in the version, and the error names it |
| `EthMessages.ClassifyAsWritten` | crates/net/eth-wire-types/src/message.rs:101-112 | agrees with the corrected routing on every identifier except `NodeData` |
| `EthMessages.DecodeMessageAsWritten` | crates/net/eth-wire-types/src/message.rs:60-139 | agrees with the corrected decoder on every buffer not starting with the `NodeData` code |
| `EthMessages.NodeDataMisreported` | crates/net/eth-wire-types/src/message.rs:107-112 | from eth/67 a `NodeData` message is refused naming `GetNodeData`, while the corrected decoder names `NodeData` |
| `EthMessages.RemovedAtEth67` | crates/net/eth-wire-types/src/message.rs:654-681 | eth/67 refuses the node data exchange and eth/68 refuses `BlockRangeUpdate`, whatever follows |
| `EthMessages.Encode` | crates/net/eth-wire-types/src/message.rs:142-152 | the identifier byte followed by the message's encoding |
| `EthMessages.EncodeMessage` | crates/net/eth-wire-types/src/message.rs:336-358 | a plain message is its codec's encoding, a request or response has the length `RequestPair` reports and ends with its payload, and a raw message is its payload |
| `EthMessages.ClassifyMessageId` | crates/net/eth-wire-types/src/message.rs:285-308 | routing a valid message's identifier leads back to its kind |
| `EthMessages.DecodeRoutedEncoding` | crates/net/eth-wire-types/src/message.rs:76-135 | routing a valid message's identifier and decoding its encoding gives the message back, leaving what followed |
| `EthMessages.DecodeEncodeMessage` | crates/net/eth-wire-types/src/message.rs:142-158 | a message valid for the version decodes back from its encoding, leaving what followed; for a raw message nothing may follow |
| `DiskBlobStore.Open` | crates/transaction-pool/src/blobstore/disk.rs:28-42 | opens an empty store satisfying the invariant |
| `DiskBlobStore.RetainExisting` | crates/transaction-pool/src/blobstore/disk.rs:402-417 | keeps exactly the transactions the store contains, cached ones first |
| `DiskBlobStore.Delete` | crates/transaction-pool/src/blobstore/disk.rs:70-75 | marks the transaction for deletion if the store contains it and changes nothing else |
| `DiskBlobStore.DeleteAll` | crates/transaction-pool/src/blobstore/disk.rs:77-81 | marks every contained transaction of the list and changes nothing else |
| `DiskBlobStore.MarkAll` | crates/transaction-pool/src/blobstore/disk.rs:77-81 | the marked set becomes the union, without duplicates |
| `DiskBlobStore.RemoveFiles` | crates/transaction-pool/src/blobstore/disk.rs:83-106 | every drained transaction counts as removed or failed |
| `DiskBlobStore.RemoveFilesDisk` | crates/transaction-pool/src/blobstore/disk.rs:83-106 | exactly the removable files disappear from disk |
| `DiskBlobStore.RemoveFilesCount` | crates/transaction-pool/src/blobstore/disk.rs:83-106 | the success count is the number of files removed |
| `DiskBlobStore.RemoveFilesSize` | crates/transaction-pool/src/blobstore/disk.rs:83-106 | the bytes subtracted equal the sizes of the files removed |
| `DiskBlobStore.Cleanup` | crates/transaction-pool/src/blobstore/disk.rs:83-106 | drains the deletion set, removes exactly the removable files, counts successes and failures, keeps the cache, and keeps the size bookkeeping exact |
| `DiskBlobStore.WriteOneEncoded` | crates/transaction-pool/src/blobstore/disk.rs:499-514 | an existing file is left alone and reports zero bytes; otherwise the file is written or the write fails |
| `DiskBlobStore.RecordHashes` | crates/transaction-pool/src/blobstore/disk.rs:314-338 | every versioned hash of the sidecar now points at the transaction, others are kept |
| `DiskBlobStore.RecordAllSpec` | crates/transaction-pool/src/blobstore/disk.rs:340-391 | after a batch each versioned hash it holds names the last transaction holding it, and other entries are kept |
| `DiskBlobStore.CacheAll` | crates/transaction-pool/src/blobstore/disk.rs:340-391 | the cached transactions are the ones cached before plus the batch's |
| `DiskBlobStore.CacheAllLast` | crates/transaction-pool/src/blobstore/disk.rs:340-391 | each transaction of the batch is cached with the last sidecar given for it |
| `DiskBlobStore.CacheAllKeeps` | crates/transaction-pool/src/blobstore/disk.rs:340-391 | cache entries of transactions outside the batch are kept |
| `DiskBlobStore.InsertOneAsWritten` | crates/transaction-pool/src/blobstore/disk.rs:314-338 | a successful insert always increments the blob count |
| `DiskBlobStore.InsertOneAsWrittenDrifts` | crates/transaction-pool/src/blobstore/disk.rs:314-338 | inserting the same transaction twice counts two blobs for one file |
| `DiskBlobStore.InsertOne` | crates/transaction-pool/src/blobstore/disk.rs:314-338 | caches the sidecar under its transaction and keeps every other cache entry; every versioned hash of the sidecar names the transaction in the index and other index entries are kept; writes its file unless present, fails exactly when a new file cannot be written, keeps other files and the invariant |
| `DiskBlobStore.WriteAllFiles` | crates/transaction-pool/src/blobstore/disk.rs:340-391 | existing files keep their contents, exactly the new writable files are added, and a new file holds the encoding of the first sidecar the batch gives for it |
| `DiskBlobStore.WriteAllCount` | crates/transaction-pool/src/blobstore/disk.rs:340-391 | the count added is the number of new files and the size added is their total |
| `DiskBlobStore.InsertAll` | crates/transaction-pool/src/blobstore/disk.rs:340-391 | an empty batch changes nothing; every transaction is cached with the last sidecar given for it, other cache entries kept; every versioned hash names the last transaction holding it, other index entries kept; existing files kept, new writable files added holding the first sidecar given; the invariant kept |
| `DiskBlobStore.Evict` | crates/transaction-pool/src/blobstore/disk.rs:270-272 | drops one cache entry and nothing else |
| `DiskBlobStore.DataSizeHint` | crates/transaction-pool/src/blobstore/disk.rs:260-262 | the total size of the blob files |
| `DiskBlobStore.BlobsLen` | crates/transaction-pool/src/blobstore/disk.rs:264-266 | the number of blob files |
| `DiskBlobStore.ReadOne` | crates/transaction-pool/src/blobstore/disk.rs:443-462 | a missing file is `None`, a read failure an error, otherwise the decoded sidecar |
| `DiskBlobStore.GetOne` | crates/transaction-pool/src/blobstore/disk.rs:419-435 | a cached sidecar is returned as is; otherwise the file is read and a found sidecar is cached; something is found exactly when cached or readable |
| `DiskBlobStore.ContainsGetOne` | crates/transaction-pool/src/blobstore/disk.rs:394-400 | a transaction is neither cached nor on disk exactly when looking it up finds nothing without error |
| `DiskBlobStore.ReadManyDecoded` | crates/transaction-pool/src/blobstore/disk.rs:464-476 | returns exactly the requested readable transactions with their decoded sidecars |
| `DiskBlobStore.GetAll` | crates/transaction-pool/src/blobstore/disk.rs:516-559 | returns exactly the requested transactions that are cached or readable, cache hits first, each with the sidecar the store provides, and only warms the cache |
| `DiskBlobStore.GetExact` | crates/transaction-pool/src/blobstore/disk.rs:561-572 | succeeds with one sidecar per transaction in order when all are available; fails when one is missing, reporting `MissingSidecar` for the first missing one after transactions that are all served; only warms the cache |
| `DiskBlobStore.ScanCacheSpec` | crates/transaction-pool/src/blobstore/disk.rs:136-170 | the cache scan keeps what was found, finds only blobs of cached sidecars of the right kind, and finds every such blob |
| `DiskBlobStore.FillFromDiskSpec` | crates/transaction-pool/src/blobstore/disk.rs:171-193 | the disk pass fills only missing slots, only with blobs of the sidecars read, and fills every slot one of them has |
| `DiskBlobStore.MissingTxs` | crates/transaction-pool/src/blobstore/disk.rs:171-180 | every still missing hash with a known transaction has that transaction looked up |
| `DiskBlobStore.LookupSpec` | crates/transaction-pool/src/blobstore/disk.rs:136-193 | the lookup keeps the cache results, returns only blobs held by the cache or on disk, and finds every blob cached or on disk under a known hash |
| `DiskBlobStore.GetByVersionedHashesV1` | crates/transaction-pool/src/blobstore/disk.rs:136-193 | one answer per hash, each found blob belonging to a cached or stored legacy sidecar |
| `DiskBlobStore.GetByVersionedHashesV2` | crates/transaction-pool/src/blobstore/disk.rs:195-258 | answers only when every hash is found, then one blob per hash from a cached or stored cell-proof sidecar |
| `DiskBlobStore.InsertThenGet` | crates/transaction-pool/src/blobstore/disk.rs:712-722 | a sidecar just inserted is returned |
| `DiskBlobStore.InsertAllThenGet` | crates/transaction-pool/src/blobstore/disk.rs:675-686 | a batch of distinct transactions, once inserted, is served back, each alone and all together in batch order |
| `DiskBlobStore.InsertAllThenGetMissing` | crates/transaction-pool/src/blobstore/disk.rs:807-818 | looking up an inserted transaction together with one never inserted fails, naming the missing one |
| `DiskBlobStore.InsertEvictThenGet` | crates/transaction-pool/src/blobstore/disk.rs:420-435 | after eviction from the cache, the inserted sidecar is read back from its file and cached again |
| `DiskBlobStore.InsertEvictThenLookup` | crates/transaction-pool/src/blobstore/disk.rs:314-338 | after eviction from the cache, a lookup by versioned hash still finds every blob of the inserted sidecar, through the index and its file |
| `DiskBlobStore.DeletedStaysCached` | crates/transaction-pool/src/blobstore/disk.rs:724-745 | after delete and cleanup the sidecar is still served from the cache while its file is gone |
| `DiskBlobStore.DeleteAllCleanup` | crates/transaction-pool/src/blobstore/disk.rs:694-709 | deleting everything, clearing the cache and cleaning up removes every file, counts each removal, and leaves nothing to read, no blobs and zero size |

## Left out

- Code outside the three files is not part of this model. Its behaviour is
  modelled from its documented contract:
  - the trie crate's `retain_difference`, `extend_ref`,
    `HashedPostState::extend`, `multi_proof_targets_difference` and
    `MultiProof::extend`;
  - `alloy_rlp`, limited to headers, `u64` and `u8` integers and `Vec<u8>`
    lists;
  - the payload types' codecs;
  - `BlobStoreSize`.
- Threads, channels, the rayon pool and its spawning are left out. A
  spawned calculation becomes a `StartProof` output, and its result arrives
  later as an inbox message.
- Metrics, tracing, timing and the `first_update_time` bookkeeping are left
  out. The timing only matters for the panic on `RootCalculated` before any
  state update, which is modelled as a `Panicked` outcome.
- `calculate_multiproof`, the sparse trie task (`spawn_sparse_trie`,
  `update_sparse_trie`), `has_enough_parallelism`, `StateHookSender`, the
  handle and the configuration are left out. They compute or transport
  results; the bookkeeping does not depend on them.
- The hashing and decoding of the trie nodes inside a multiproof are left
  out. A proof is a map of opaque nodes merged as the trie crate merges them.
- TrieUpdate.ExtendProof: `MultiProof::extend` also merges the branch node
  hash masks and tree masks. The model has no masks, because nothing in the
  task's bookkeeping reads them.
- `RequestPair::map`, the broadcast message types and the payload structs
  are left out. Message bodies are an opaque type with a round-tripping
  codec.
- The blob cache is not modelled as a bounded LRU map. Its capacity, recency
  updates and evictions are replaced by `Evict`, which may happen at any
  time.
- The versioned-hash index is an LRU map in the code. The model never
  evicts from it, so the proved completeness holds only while an entry
  survives.
- Filesystem errors other than a failing write, read or removal are left
  out, as are the directory creation and removal in `open`.
- Locks are left out. Each operation is atomic.
- DiskBlobStore.GetByVersionedHashesV1: states soundness and length only.
  Completeness, that every cached or indexed blob is found, is proved
  separately in `DiskBlobStore.LookupSpec`.
- ProofSequencer.Deliver: states contiguity and validity only. The
  ordering and contents are proved in `ProofSequencer.DeliverInvariant` and
  `ProofSequencer.DeliverPermutation` for distinct arrivals.
- StateRootTask.RunClosesOnce: does not bound what a panicking step emits.
  Sending to a closed channel is modelled as an outcome, not as an output.
- StateRootTask.RunProofs: states the sparse trie traffic only while state
  updates are still streaming in, so that the channel stays open. Once the
  updates finished, the closing is covered by `StepClose` and
  `RunClosesOnce`.
- StateRootTask.InOrderDelivery: the same restriction as `RunProofs`, and
  it starts from a task with nothing buffered.
- StateRootTask.Run and StateRootTask.EndCondition carry no contract of
  their own. What they mean is stated by `RunOutcome`, `RunClosesOnce`,
  `RunProofs` and `EndConditionMeaning`.

## Findings

| source | as written | input that shows it | evidently intended | confidence | as-written member | corrected member |
|---|---|---|---|---|---|---|
| crates/net/eth-wire-types/src/message.rs:107-112 | from eth/67 a `NodeData` message is refused with an `Invalid` error naming `GetNodeData` | version eth/67, buffer starting with byte 0x0e | the error names `NodeData`, the identifier read, as the `GetNodeData` branch above it does for its own | not executed; high, the branch is a copy of the one before | `EthMessages.NodeDataMisreported` | `EthMessages.DecodeMessage` |
| crates/transaction-pool/src/blobstore/disk.rs:314-338 | `insert_one` increments the blob count whenever the write succeeds, including when the file already existed and nothing was written | insert transaction 7 twice into an empty store: the count is 2 with one file | count a blob only when a file was actually written, as `insert_many` does with the bytes it wrote | not executed; medium, the tracker is a metric | `DiskBlobStore.InsertOneAsWrittenDrifts` | `DiskBlobStore.InsertOne` |
