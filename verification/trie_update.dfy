/**
 The sparse trie update the state root task hands to the sparse trie: a post
 state together with the multiproof revealing the trie nodes it touches, and
 the merge `on_proof` applies to a released run of updates.

 `MultiProof` and its `extend` live in the trie crate; proof nodes are kept
 as opaque byte strings keyed by their nibble path.
 */
module TrieUpdate {

  import opened Wrappers
  import opened PostState

  type Nibble = n: nat | n < 16

  type Nibbles = seq<Nibble>

  /** Revealed trie nodes by path; a later node for the same path replaces an earlier one. */
  type ProofNodes = map<Nibbles, Bytes>

  /** The storage proof of one account. */
  datatype StorageMultiProof = StorageMultiProof(root: B256, subtree: ProofNodes)

  datatype MultiProof = MultiProof(accountSubtree: ProofNodes, storages: map<B256, StorageMultiProof>)

  const EmptyProof := MultiProof(map[], map[])

  predicate ProofIsEmpty(p: MultiProof)
  {
    p.accountSubtree == map[] && p.storages == map[]
  }

  /** Storage proofs of `MultiProof::extend`: a known account keeps its root and gains nodes. */
  function MergeStorageProofs(x: map<B256, StorageMultiProof>, y: map<B256, StorageMultiProof>)
    : (r: map<B256, StorageMultiProof>)
    ensures r.Keys == x.Keys + y.Keys
    ensures forall k :: k in x ==> r[k].root == x[k].root
    ensures forall k :: k in x && k in y ==> r[k].subtree == x[k].subtree + y[k].subtree
    ensures forall k :: k in x && k !in y ==> r[k] == x[k]
    ensures forall k :: k in y && k !in x ==> r[k] == y[k]
  {
    map k | k in x.Keys + y.Keys ::
      if k in x && k in y then StorageMultiProof(x[k].root, x[k].subtree + y[k].subtree)
      else if k in y then y[k]
      else x[k]
  }

  /**
   `MultiProof::extend`: account nodes of `b` are added; a storage proof for an
   account already present keeps its root and gains `b`'s nodes, one for a new
   account is inserted as is.
   */
  function ExtendProof(a: MultiProof, b: MultiProof): (r: MultiProof)
    ensures r.accountSubtree.Keys == a.accountSubtree.Keys + b.accountSubtree.Keys
    ensures r.storages == MergeStorageProofs(a.storages, b.storages)
  {
    MultiProof(a.accountSubtree + b.accountSubtree, MergeStorageProofs(a.storages, b.storages))
  }

  lemma NodesAssoc(x: ProofNodes, y: ProofNodes, z: ProofNodes)
    ensures (x + y) + z == x + (y + z)
  {
    assert ((x + y) + z).Keys == (x + (y + z)).Keys;
  }

  lemma MergeStorageProofsAssoc(x: map<B256, StorageMultiProof>, y: map<B256, StorageMultiProof>,
                                z: map<B256, StorageMultiProof>)
    ensures MergeStorageProofs(MergeStorageProofs(x, y), z) == MergeStorageProofs(x, MergeStorageProofs(y, z))
  {
    var l := MergeStorageProofs(MergeStorageProofs(x, y), z);
    var r := MergeStorageProofs(x, MergeStorageProofs(y, z));
    forall k | k in l ensures k in r && l[k] == r[k] {
      if k in x && k in y && k in z {
        NodesAssoc(x[k].subtree, y[k].subtree, z[k].subtree);
      }
    }
    assert l == r;
  }

  lemma ExtendProofAssoc(a: MultiProof, b: MultiProof, c: MultiProof)
    ensures ExtendProof(ExtendProof(a, b), c) == ExtendProof(a, ExtendProof(b, c))
  {
    NodesAssoc(a.accountSubtree, b.accountSubtree, c.accountSubtree);
    MergeStorageProofsAssoc(a.storages, b.storages, c.storages);
  }

  lemma ExtendProofEmpty(a: MultiProof, b: MultiProof)
    ensures ProofIsEmpty(ExtendProof(a, b)) <==> ProofIsEmpty(a) && ProofIsEmpty(b)
    ensures ProofIsEmpty(b) ==> ExtendProof(a, b) == a
    ensures ProofIsEmpty(a) ==> ExtendProof(a, b) == b
  {
    if ProofIsEmpty(ExtendProof(a, b)) {
      assert a.accountSubtree.Keys == {} && b.accountSubtree.Keys == {};
      assert a.storages.Keys == {} && b.storages.Keys == {};
    }
    if ProofIsEmpty(b) {
      assert ExtendProof(a, b).storages == a.storages;
    }
    if ProofIsEmpty(a) {
      assert ExtendProof(a, b).storages == b.storages;
    }
  }

  /** `SparseTrieUpdate`: a post state and the proof that reveals what it touches. */
  datatype SparseTrieUpdate = SparseTrieUpdate(state: HashedPostState, multiproof: MultiProof)

  const EmptyUpdate := SparseTrieUpdate(EmptyState, EmptyProof)

  /** `SparseTrieUpdate::is_empty`. */
  predicate UpdateIsEmpty(u: SparseTrieUpdate)
  {
    IsEmpty(u.state) && ProofIsEmpty(u.multiproof)
  }

  /** `SparseTrieUpdate::extend`: both halves are merged, `other` winning. */
  function ExtendUpdate(a: SparseTrieUpdate, b: SparseTrieUpdate): (r: SparseTrieUpdate)
    ensures r.state.accounts.Keys == a.state.accounts.Keys + b.state.accounts.Keys
    ensures r.multiproof.storages.Keys == a.multiproof.storages.Keys + b.multiproof.storages.Keys
  {
    SparseTrieUpdate(Extend(a.state, b.state), ExtendProof(a.multiproof, b.multiproof))
  }

  /** Merging updates is associative, so any grouping of a run merges alike. */
  lemma ExtendUpdateAssoc(a: SparseTrieUpdate, b: SparseTrieUpdate, c: SparseTrieUpdate)
    ensures ExtendUpdate(ExtendUpdate(a, b), c) == ExtendUpdate(a, ExtendUpdate(b, c))
  {
    ExtendAssoc(a.state, b.state, c.state);
    ExtendProofAssoc(a.multiproof, b.multiproof, c.multiproof);
  }

  /** The empty update is a unit of merging on both sides. */
  lemma ExtendUpdateUnit(a: SparseTrieUpdate)
    ensures ExtendUpdate(a, EmptyUpdate) == a && ExtendUpdate(EmptyUpdate, a) == a
  {
    ExtendUnit(a.state);
    ExtendProofEmpty(a.multiproof, EmptyProof);
    ExtendProofEmpty(EmptyProof, a.multiproof);
  }

  /** A merged update is empty exactly when both parts are. */
  lemma ExtendUpdateEmpty(a: SparseTrieUpdate, b: SparseTrieUpdate)
    ensures UpdateIsEmpty(ExtendUpdate(a, b)) <==> UpdateIsEmpty(a) && UpdateIsEmpty(b)
  {
    ExtendEmpty(a.state, b.state);
    ExtendProofEmpty(a.multiproof, b.multiproof);
  }

  /** `Iterator::reduce`: the first element absorbs the following ones in order. */
  function Reduce<T>(f: (T, T) -> T, run: seq<T>): T
    requires run != []
    decreases |run|
  {
    if |run| == 1 then run[0] else f(Reduce(f, run[..|run| - 1]), run[|run| - 1])
  }

  ghost predicate Associative<T(!new)>(f: (T, T) -> T)
  {
    forall x, y, z :: f(f(x, y), z) == f(x, f(y, z))
  }

  /** Reducing with an associative operation is insensitive to where the run is cut. */
  lemma {:induction false} ReduceSplit<T(!new)>(f: (T, T) -> T, s: seq<T>, k: nat)
    requires Associative(f)
    requires 0 < k < |s|
    ensures Reduce(f, s) == f(Reduce(f, s[..k]), Reduce(f, s[k..]))
    decreases |s|
  {
    var n := |s| - 1;
    var init, last := s[..n], s[n];
    if k == n {
      assert s[k..] == [last];
    } else {
      ReduceSplit(f, init, k);
      assert init[..k] == s[..k];
      assert s[k..][..|s[k..]| - 1] == init[k..];
      assert s[k..][|s[k..]| - 1] == last;
    }
  }

  /** `reduce` with `SparseTrieUpdate::extend`, as `on_proof` merges a released run. */
  function MergeAll(run: seq<SparseTrieUpdate>): SparseTrieUpdate
    requires run != []
  {
    Reduce(ExtendUpdate, run)
  }

  /**
   Merging is insensitive to grouping: merging two consecutive batches
   separately and then merging the results (as the sparse trie task does
   with the updates it finds queued) equals merging the whole run.
   */
  lemma MergeAllSplit(run: seq<SparseTrieUpdate>, k: nat)
    requires 0 < k < |run|
    ensures MergeAll(run) == ExtendUpdate(MergeAll(run[..k]), MergeAll(run[k..]))
  {
    forall x, y, z ensures ExtendUpdate(ExtendUpdate(x, y), z) == ExtendUpdate(x, ExtendUpdate(y, z)) {
      ExtendUpdateAssoc(x, y, z);
    }
    ReduceSplit(ExtendUpdate, run, k);
  }

  /** The merge of a run is empty exactly when every update in it is. */
  lemma {:induction false} MergeAllEmpty(run: seq<SparseTrieUpdate>)
    requires run != []
    ensures UpdateIsEmpty(MergeAll(run)) <==> forall i :: 0 <= i < |run| ==> UpdateIsEmpty(run[i])
    decreases |run|
  {
    if |run| > 1 {
      var init := run[..|run| - 1];
      MergeAllEmpty(init);
      assert MergeAll(run) == ExtendUpdate(MergeAll(init), run[|run| - 1]);
      ExtendUpdateEmpty(MergeAll(init), run[|run| - 1]);
      assert forall i :: 0 <= i < |run| - 1 ==> init[i] == run[i];
    }
  }

  /**
   The tail of `on_proof`: merges the released run and drops the result
   when nothing is left to apply. `None` exactly when the run is empty or
   consists only of empty updates; otherwise the merge of the whole run.
   */
  function MergeReleased(run: seq<SparseTrieUpdate>): (r: Option<SparseTrieUpdate>)
    ensures r.None? <==> forall i :: 0 <= i < |run| ==> UpdateIsEmpty(run[i])
    ensures r.Some? ==> run != [] && r.value == MergeAll(run) && !UpdateIsEmpty(r.value)
  {
    if run == [] then None
    else
      MergeAllEmpty(run);
      var merged := MergeAll(run);
      if UpdateIsEmpty(merged) then None else Some(merged)
  }

  /**
   What `on_proof` sends for a sequence of released runs, in order: the
   merge of every run that holds a non-empty update, and nothing for the
   others.
   */
  function MergedRuns(runs: seq<seq<SparseTrieUpdate>>): (r: seq<SparseTrieUpdate>)
    ensures |r| <= |runs|
    ensures forall i :: 0 <= i < |r| ==> !UpdateIsEmpty(r[i])
    decreases |runs|
  {
    if runs == [] then []
    else
      var head := match MergeReleased(runs[0]) case None => [] case Some(u) => [u];
      head + MergedRuns(runs[1..])
  }
}
