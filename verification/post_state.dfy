/**
 Proof targets, hashed post state and the conversion of an execution delta
 into a hashed post state, as the state root task uses them.

 The target and post-state containers (`MultiProofTargets`, `HashedPostState`,
 `HashedStorage`) and their `retain_difference`, `extend_ref`, `extend` and
 `multi_proof_targets_difference` live in the trie crate; they are given here
 as finite maps with the behaviour those methods document. Keccak-256 is an
 opaque parameter.
 */
module PostState {

  import opened Wrappers

  /** A 160-bit account address. */
  type Address = a: nat | a < 0x1_0000_0000_0000_0000_0000_0000_0000_0000_0000

  /** Proof targets: hashed account -> hashed storage slots whose proofs are needed. */
  type Targets = map<B256, set<B256>>

  /** Every (account, slot) pair the targets ask for. */
  ghost function Slots(t: Targets): set<(B256, B256)>
  {
    set a, s | a in t && s in t[a] :: (a, s)
  }

  /**
   `retain_difference`: drops every slot already present in `fetched`; an
   account already present in `fetched` is dropped when no new slot remains.
   */
  function RetainDifference(t: Targets, fetched: Targets): (r: Targets)
    ensures r.Keys <= t.Keys
  {
    map a | a in t && (a !in fetched || t[a] - fetched[a] != {}) ::
      if a in fetched then t[a] - fetched[a] else t[a]
  }

  /** `extend_ref`: adds every account of `other`, uniting slot sets. */
  function ExtendRef(t: Targets, other: Targets): (r: Targets)
    ensures r.Keys == t.Keys + other.Keys
  {
    map a | a in t.Keys + other.Keys ::
      (if a in t then t[a] else {}) + (if a in other then other[a] else {})
  }

  /**
   What deduplication achieves: the request asks for exactly the slots not
   fetched yet, re-asks for an already fetched account only together with a
   new slot, and the fetched set then covers both what it had and what was
   asked for.
   */
  lemma RetainDifferenceSpec(t: Targets, fetched: Targets)
    ensures Slots(RetainDifference(t, fetched)) == Slots(t) - Slots(fetched)
    ensures forall a :: a in RetainDifference(t, fetched) && a in fetched ==>
      RetainDifference(t, fetched)[a] != {}
    ensures forall a :: a in t && a !in RetainDifference(t, fetched) ==> a in fetched
    ensures ExtendRef(fetched, RetainDifference(t, fetched)).Keys == fetched.Keys + t.Keys
    ensures Slots(ExtendRef(fetched, RetainDifference(t, fetched))) == Slots(fetched) + Slots(t)
  {
    var r := RetainDifference(t, fetched);
    forall p | p in Slots(r) ensures p in Slots(t) - Slots(fetched) {
      var (a, s) := p;
      assert a in r && s in r[a];
    }
    forall p | p in Slots(t) - Slots(fetched) ensures p in Slots(r) {
      var (a, s) := p;
      assert a in t && s in t[a];
      assert a in fetched ==> s !in fetched[a];
      assert s in (if a in fetched then t[a] - fetched[a] else t[a]);
      assert a in r && s in r[a];
    }
    ExtendRefSlots(fetched, r);
    forall p | p in Slots(t) ensures p in Slots(fetched) + Slots(r) {
      var (a, s) := p;
      assert a in t && s in t[a];
      if a in fetched && s in fetched[a] {
        assert p in Slots(fetched);
      }
    }
  }

  lemma ExtendRefSlots(t: Targets, other: Targets)
    ensures Slots(ExtendRef(t, other)) == Slots(t) + Slots(other)
  {
    var e := ExtendRef(t, other);
    forall p | p in Slots(e) ensures p in Slots(t) + Slots(other) {
      var (a, s) := p;
      assert a in e && s in e[a];
      if a in t && s in t[a] {
        assert p in Slots(t);
      } else {
        assert a in other && s in other[a];
      }
    }
    forall p | p in Slots(t) ensures p in Slots(e) {
      var (a, s) := p;
      assert a in t && s in t[a] && a in e;
    }
    forall p | p in Slots(other) ensures p in Slots(e) {
      var (a, s) := p;
      assert a in other && s in other[a] && a in e;
    }
  }

  /**
   A run of deduplicated requests against a growing fetched set: each request
   is reduced by everything fetched so far, which then grows by that request.
   Returns the final fetched set and the requests actually made.
   */
  function DedupRun(fetched: Targets, requests: seq<Targets>): (r: (Targets, seq<Targets>))
    ensures |r.1| == |requests|
    decreases |requests|
  {
    if requests == [] then (fetched, [])
    else
      var sent := RetainDifference(requests[0], fetched);
      var rest := DedupRun(ExtendRef(fetched, sent), requests[1..]);
      (rest.0, [sent] + rest.1)
  }

  /**
   Over any run of requests no (account, slot) pair is requested twice, no
   requested pair was fetched beforehand, and the final fetched set covers
   every pair ever asked for.
   */
  lemma DedupRunDisjoint(fetched: Targets, requests: seq<Targets>)
    ensures forall i :: 0 <= i < |requests| ==>
      Slots(DedupRun(fetched, requests).1[i]) !! Slots(fetched)
    ensures forall i, j :: 0 <= i < j < |requests| ==>
      Slots(DedupRun(fetched, requests).1[i]) !! Slots(DedupRun(fetched, requests).1[j])
    ensures forall i :: 0 <= i < |requests| ==>
      Slots(requests[i]) <= Slots(DedupRun(fetched, requests).0)
    ensures Slots(fetched) <= Slots(DedupRun(fetched, requests).0)
  {
    DedupRunFresh(fetched, requests);
    DedupRunCovers(fetched, requests);
  }

  /** No request of a run asks for a pair fetched before it or asked for by another request. */
  lemma {:induction false} DedupRunFresh(fetched: Targets, requests: seq<Targets>)
    ensures forall i :: 0 <= i < |requests| ==>
      Slots(DedupRun(fetched, requests).1[i]) !! Slots(fetched)
    ensures forall i, j :: 0 <= i < j < |requests| ==>
      Slots(DedupRun(fetched, requests).1[i]) !! Slots(DedupRun(fetched, requests).1[j])
    decreases |requests|
  {
    if requests != [] {
      var sent := RetainDifference(requests[0], fetched);
      var grown := ExtendRef(fetched, sent);
      DedupStep(fetched, requests[0]);
      DedupRunFresh(grown, requests[1..]);
      var later := DedupRun(grown, requests[1..]).1;
      var out := DedupRun(fetched, requests).1;
      assert out == [sent] + later;
      forall i | 1 <= i < |requests|
        ensures Slots(out[i]) !! Slots(grown)
      {
        assert out[i] == later[i - 1];
      }
      forall i, j | 0 <= i < j < |requests|
        ensures Slots(out[i]) !! Slots(out[j])
      {
        assert out[j] == later[j - 1];
        if i > 0 {
          assert out[i] == later[i - 1];
        }
      }
    }
  }

  /** The final fetched set of a run covers the initial one and every request. */
  lemma {:induction false} DedupRunCovers(fetched: Targets, requests: seq<Targets>)
    ensures forall i :: 0 <= i < |requests| ==>
      Slots(requests[i]) <= Slots(DedupRun(fetched, requests).0)
    ensures Slots(fetched) <= Slots(DedupRun(fetched, requests).0)
    decreases |requests|
  {
    if requests != [] {
      var sent := RetainDifference(requests[0], fetched);
      var grown := ExtendRef(fetched, sent);
      DedupStep(fetched, requests[0]);
      DedupRunCovers(grown, requests[1..]);
      var last := DedupRun(fetched, requests).0;
      assert last == DedupRun(grown, requests[1..]).0;
      forall i | 0 <= i < |requests| ensures Slots(requests[i]) <= Slots(last) {
        if i > 0 {
          assert requests[i] == requests[1..][i - 1];
        }
      }
    }
  }

  /** One step of a run: the request sent is disjoint from, and absorbed by, the grown fetched set. */
  lemma DedupStep(fetched: Targets, request: Targets)
    ensures Slots(RetainDifference(request, fetched)) !! Slots(fetched)
    ensures Slots(ExtendRef(fetched, RetainDifference(request, fetched))) == Slots(fetched) + Slots(request)
    ensures Slots(RetainDifference(request, fetched)) <= Slots(fetched) + Slots(request)
  {
    RetainDifferenceSpec(request, fetched);
  }

  /** A storage word. */
  type U256 = B256

  /** An account as stored in the trie (`reth` `Account`). */
  datatype Account = Account(nonce: nat, balance: U256, bytecodeHash: Option<B256>)

  /** `HashedStorage`: `wiped` clears all prior storage of the account. */
  datatype HashedStorage = HashedStorage(wiped: bool, storage: map<B256, U256>)

  /** `HashedPostState`: `None` marks a destroyed account. */
  datatype HashedPostState = HashedPostState(
    accounts: map<B256, Option<Account>>,
    storages: map<B256, HashedStorage>)

  const EmptyState := HashedPostState(map[], map[])

  predicate IsEmpty(s: HashedPostState)
  {
    s.accounts == map[] && s.storages == map[]
  }

  /** `HashedStorage::extend`: a wiped `other` discards the current slots first; `other` wins on clashes. */
  function ExtendStorage(a: HashedStorage, b: HashedStorage): (r: HashedStorage)
    ensures r.wiped <==> a.wiped || b.wiped
    ensures r.storage.Keys == (if b.wiped then b.storage.Keys else a.storage.Keys + b.storage.Keys)
    ensures forall k :: k in b.storage ==> r.storage[k] == b.storage[k]
    ensures forall k :: k in r.storage && k !in b.storage ==> !b.wiped && r.storage[k] == a.storage[k]
  {
    if b.wiped then HashedStorage(true, b.storage)
    else HashedStorage(a.wiped, a.storage + b.storage)
  }

  /** Per-account storage merge of `HashedPostState::extend`. */
  function MergeStorages(x: map<B256, HashedStorage>, y: map<B256, HashedStorage>): (r: map<B256, HashedStorage>)
    ensures r.Keys == x.Keys + y.Keys
    ensures forall k :: k in x && k !in y ==> r[k] == x[k]
    ensures forall k :: k in y && k !in x ==> r[k] == y[k]
    ensures forall k :: k in x && k in y ==> r[k] == ExtendStorage(x[k], y[k])
  {
    map k | k in x.Keys + y.Keys ::
      if k in x && k in y then ExtendStorage(x[k], y[k])
      else if k in y then y[k]
      else x[k]
  }

  /** `HashedPostState::extend`: accounts of `b` replace those of `a`; storages merge per account. */
  function Extend(a: HashedPostState, b: HashedPostState): (r: HashedPostState)
    ensures r.accounts.Keys == a.accounts.Keys + b.accounts.Keys
    ensures forall k :: k in b.accounts ==> r.accounts[k] == b.accounts[k]
    ensures forall k :: k in a.accounts && k !in b.accounts ==> r.accounts[k] == a.accounts[k]
    ensures r.storages == MergeStorages(a.storages, b.storages)
  {
    HashedPostState(a.accounts + b.accounts, MergeStorages(a.storages, b.storages))
  }

  /** The empty state is a unit of merging on both sides. */
  lemma ExtendUnit(a: HashedPostState)
    ensures Extend(a, EmptyState) == a && Extend(EmptyState, a) == a
  {
    assert Extend(a, EmptyState).storages == a.storages;
    assert Extend(EmptyState, a).storages == a.storages;
  }

  lemma ExtendStorageAssoc(a: HashedStorage, b: HashedStorage, c: HashedStorage)
    ensures ExtendStorage(ExtendStorage(a, b), c) == ExtendStorage(a, ExtendStorage(b, c))
  {
  }

  lemma MergeStoragesAssoc(x: map<B256, HashedStorage>, y: map<B256, HashedStorage>, z: map<B256, HashedStorage>)
    ensures MergeStorages(MergeStorages(x, y), z) == MergeStorages(x, MergeStorages(y, z))
  {
    var xy := MergeStorages(x, y);
    var yz := MergeStorages(y, z);
    var l := MergeStorages(xy, z);
    var r := MergeStorages(x, yz);
    assert l.Keys == r.Keys;
    forall k | k in l ensures l[k] == r[k] {
      MergeStoragesAt(x, y, z, k);
    }
    assert l == r;
  }

  lemma MergeStoragesAt(x: map<B256, HashedStorage>, y: map<B256, HashedStorage>, z: map<B256, HashedStorage>, k: B256)
    requires k in x || k in y || k in z
    ensures MergeStorages(MergeStorages(x, y), z)[k] == MergeStorages(x, MergeStorages(y, z))[k]
  {
    if k in x && k in y && k in z {
      ExtendStorageAssoc(x[k], y[k], z[k]);
    }
  }

  lemma ExtendAccountsAssoc(a: HashedPostState, b: HashedPostState, c: HashedPostState)
    ensures Extend(Extend(a, b), c).accounts == Extend(a, Extend(b, c)).accounts
  {
    assert Extend(Extend(a, b), c).accounts == (a.accounts + b.accounts) + c.accounts;
    assert Extend(a, Extend(b, c)).accounts == a.accounts + (b.accounts + c.accounts);
    MapUnionAssoc(a.accounts, b.accounts, c.accounts);
  }

  lemma MapUnionAssoc<K, V>(x: map<K, V>, y: map<K, V>, z: map<K, V>)
    ensures (x + y) + z == x + (y + z)
  {
    var l := (x + y) + z;
    var r := x + (y + z);
    forall k | k in l ensures k in r && l[k] == r[k] {
    }
    assert l.Keys == r.Keys;
  }

  /** Merging is associative, so any grouping of a run of updates merges alike. */
  lemma ExtendAssoc(a: HashedPostState, b: HashedPostState, c: HashedPostState)
    ensures Extend(Extend(a, b), c) == Extend(a, Extend(b, c))
  {
    ExtendAccountsAssoc(a, b, c);
    MergeStoragesAssoc(a.storages, b.storages, c.storages);
  }

  /** A merged state is empty exactly when both parts are. */
  lemma ExtendEmpty(a: HashedPostState, b: HashedPostState)
    ensures IsEmpty(Extend(a, b)) <==> IsEmpty(a) && IsEmpty(b)
  {
    if IsEmpty(Extend(a, b)) {
      assert a.accounts.Keys == {} && b.accounts.Keys == {};
      assert a.storages.Keys == {} && b.storages.Keys == {};
    }
  }

  /** The proof targets of a post state: its accounts, each with the slots it writes. */
  function TargetsOf(s: HashedPostState): (r: Targets)
    ensures r.Keys == s.accounts.Keys + s.storages.Keys
  {
    map a | a in s.accounts.Keys + s.storages.Keys ::
      if a in s.storages then s.storages[a].storage.Keys else {}
  }

  /**
   `multi_proof_targets_difference`: every account not yet fetched, plus every
   account with a storage slot not yet fetched, with those slots.
   */
  function TargetsDifference(s: HashedPostState, excluded: Targets): Targets
  {
    map a | a in s.accounts.Keys + s.storages.Keys &&
      ((a in s.accounts && a !in excluded) || (a in s.storages && NewSlots(s, excluded, a) != {})) ::
      if a in s.storages then NewSlots(s, excluded, a) else {}
  }

  function NewSlots(s: HashedPostState, excluded: Targets, a: B256): set<B256>
    requires a in s.storages
  {
    s.storages[a].storage.Keys - (if a in excluded then excluded[a] else {})
  }

  /**
   For a state whose every storage entry belongs to a listed account (which
   `HashedStateOf` guarantees), the state-update path deduplicates exactly like
   the prefetch path: it is `retain_difference` applied to the state's targets.
   */
  lemma TargetsDifferenceIsRetain(s: HashedPostState, excluded: Targets)
    requires s.storages.Keys <= s.accounts.Keys
    ensures TargetsDifference(s, excluded) == RetainDifference(TargetsOf(s), excluded)
  {
    var l := TargetsDifference(s, excluded);
    var t := TargetsOf(s);
    var r := RetainDifference(t, excluded);
    forall a | a in t
      ensures a in l <==> a in r
      ensures a in l ==> l[a] == r[a]
    {
      if a in s.storages {
        assert t[a] == s.storages[a].storage.Keys;
        assert NewSlots(s, excluded, a) == (if a in excluded then t[a] - excluded[a] else t[a]);
      }
    }
    assert l.Keys == r.Keys;
  }

  /** A storage slot as execution leaves it. */
  datatype StorageSlot = StorageSlot(originalValue: U256, presentValue: U256)

  predicate IsChanged(v: StorageSlot)
  {
    v.originalValue != v.presentValue
  }

  /** Account fields as execution reports them. */
  datatype AccountInfo = AccountInfo(nonce: nat, balance: U256, codeHash: B256)

  /** An account touched by execution, with its changed storage in iteration order. */
  datatype EvmAccount = EvmAccount(
    info: AccountInfo,
    storage: seq<(U256, StorageSlot)>,
    touched: bool,
    selfDestructed: bool)

  /** The Keccak-256 hashes the conversion applies to addresses and storage slots. */
  datatype Hasher = Hasher(address: Address -> B256, slot: U256 -> B256)

  /** Keccak-256 of the empty byte string: the code hash of an account without code. */
  const KeccakEmpty: B256 := 0xc5d2460186f7233c927e7db2dcc703c0e500b653ca82273b7bfad8045d85a470

  /** `From<AccountInfo> for Account`: the empty-code hash is stored as "no bytecode". */
  function ToAccount(info: AccountInfo): (r: Account)
    ensures r.nonce == info.nonce && r.balance == info.balance
    ensures r.bytecodeHash == None <==> info.codeHash == KeccakEmpty
    ensures r.bytecodeHash.Some? ==> r.bytecodeHash.value == info.codeHash
  {
    Account(info.nonce, info.balance, if info.codeHash == KeccakEmpty then None else Some(info.codeHash))
  }

  /** The hashed keys of the changed slots. */
  ghost function ChangedKeys(h: Hasher, storage: seq<(U256, StorageSlot)>): set<B256>
  {
    set i | 0 <= i < |storage| && IsChanged(storage[i].1) :: h.slot(storage[i].0)
  }

  /** The changed slots of an account, hashed, in iteration order (later entries win). */
  function ChangedSlots(h: Hasher, storage: seq<(U256, StorageSlot)>): (r: map<B256, U256>)
    ensures r.Keys == ChangedKeys(h, storage)
    decreases |storage|
  {
    if storage == [] then map[]
    else
      var rest := ChangedSlots(h, storage[..|storage| - 1]);
      var (slot, value) := storage[|storage| - 1];
      ChangedKeysSnoc(h, storage);
      if IsChanged(value) then rest[h.slot(slot) := value.presentValue] else rest
  }

  lemma ChangedKeysSnoc(h: Hasher, storage: seq<(U256, StorageSlot)>)
    requires storage != []
    ensures ChangedKeys(h, storage) == ChangedKeys(h, storage[..|storage| - 1])
      + (if IsChanged(storage[|storage| - 1].1) then {h.slot(storage[|storage| - 1].0)} else {})
  {
    var init := storage[..|storage| - 1];
    assert forall i :: 0 <= i < |storage| - 1 ==> init[i] == storage[i];
  }

  /** True when some slot of the account changed (the `peek().is_some()` test). */
  predicate AnyChanged(storage: seq<(U256, StorageSlot)>)
  {
    exists i :: 0 <= i < |storage| && IsChanged(storage[i].1)
  }

  /** One iteration of `evm_state_to_hashed_post_state`. */
  function AddAccount(h: Hasher, st: HashedPostState, address: Address, account: EvmAccount): HashedPostState
  {
    if !account.touched then st
    else
      var ha := h.address(address);
      var destroyed := account.selfDestructed;
      var st1 := st.(accounts := st.accounts[ha := if destroyed then None else Some(ToAccount(account.info))]);
      if destroyed then st1.(storages := st1.storages[ha := HashedStorage(true, map[])])
      else if AnyChanged(account.storage) then
        st1.(storages := st1.storages[ha := HashedStorage(false, ChangedSlots(h, account.storage))])
      else st1
  }

  /** `evm_state_to_hashed_post_state`, over the delta's accounts in iteration order. */
  function HashedStateOf(h: Hasher, update: seq<(Address, EvmAccount)>): (r: HashedPostState)
    ensures r.accounts.Keys == set i | 0 <= i < |update| && update[i].1.touched :: h.address(update[i].0)
    ensures r.storages.Keys <= r.accounts.Keys
    decreases |update|
  {
    if update == [] then EmptyState
    else
      var init := update[..|update| - 1];
      var (address, account) := update[|update| - 1];
      var rest := HashedStateOf(h, init);
      assert forall i :: 0 <= i < |update| - 1 ==> init[i] == update[i];
      AddAccount(h, rest, address, account)
  }

  /**
   What the conversion records for one touched account: destroyed accounts
   map to `None` with a wiped, empty storage; live accounts map to their
   converted info and carry a storage entry exactly when a slot changed,
   holding exactly the changed slots at their present values.
   */
  ghost predicate Reflects(h: Hasher, r: HashedPostState, address: Address, account: EvmAccount)
  {
    var ha := h.address(address);
    ha in r.accounts &&
    (account.selfDestructed ==>
      r.accounts[ha] == None && ha in r.storages && r.storages[ha] == HashedStorage(true, map[])) &&
    (!account.selfDestructed ==>
      r.accounts[ha] == Some(ToAccount(account.info)) &&
      (ha in r.storages <==> AnyChanged(account.storage)) &&
      (ha in r.storages ==>
        !r.storages[ha].wiped &&
        r.storages[ha].storage == ChangedSlots(h, account.storage)))
  }

  /** The address hash is injective on the delta's (distinct) addresses. */
  ghost predicate DistinctHashes(h: Hasher, update: seq<(Address, EvmAccount)>)
  {
    forall i, j :: 0 <= i < j < |update| ==> h.address(update[i].0) != h.address(update[j].0)
  }

  /** One conversion step records its own account and leaves every other hashed address alone. */
  lemma AddAccountStep(h: Hasher, st: HashedPostState, address: Address, account: EvmAccount)
    ensures account.touched && h.address(address) !in st.storages ==>
      Reflects(h, AddAccount(h, st, address, account), address, account)
    ensures !account.touched ==> AddAccount(h, st, address, account) == st
    ensures forall ha :: ha != h.address(address) ==>
      (ha in st.accounts <==> ha in AddAccount(h, st, address, account).accounts) &&
      (ha in st.storages <==> ha in AddAccount(h, st, address, account).storages) &&
      (ha in st.accounts ==> AddAccount(h, st, address, account).accounts[ha] == st.accounts[ha]) &&
      (ha in st.storages ==> AddAccount(h, st, address, account).storages[ha] == st.storages[ha])
  {
  }

  /** `Reflects` depends only on the entries at the account's own hashed address. */
  lemma ReflectsFrame(h: Hasher, st: HashedPostState, st2: HashedPostState, address: Address, account: EvmAccount)
    requires Reflects(h, st, address, account)
    requires var ha := h.address(address);
      (ha in st2.accounts && st2.accounts[ha] == st.accounts[ha]) &&
      (ha in st.storages <==> ha in st2.storages) &&
      (ha in st.storages ==> st2.storages[ha] == st.storages[ha])
    ensures Reflects(h, st2, address, account)
  {
  }

  /**
   With distinct hashed addresses, every touched account of the delta is
   recorded as `Reflects` describes, and untouched accounts never appear.
   */
  lemma {:induction false} HashedStateOfSpec(h: Hasher, update: seq<(Address, EvmAccount)>)
    requires DistinctHashes(h, update)
    ensures forall i :: 0 <= i < |update| && update[i].1.touched ==>
      Reflects(h, HashedStateOf(h, update), update[i].0, update[i].1)
    ensures forall i :: 0 <= i < |update| && !update[i].1.touched ==>
      h.address(update[i].0) !in HashedStateOf(h, update).accounts
    decreases |update|
  {
    if update != [] {
      var n := |update| - 1;
      var init := update[..n];
      assert forall i :: 0 <= i < n ==> init[i] == update[i];
      assert DistinctHashes(h, init);
      HashedStateOfSpec(h, init);
      var rest := HashedStateOf(h, init);
      var r := HashedStateOf(h, update);
      assert r == AddAccount(h, rest, update[n].0, update[n].1);
      AddAccountStep(h, rest, update[n].0, update[n].1);
      assert h.address(update[n].0) !in rest.accounts by {
        forall i | 0 <= i < n ensures h.address(init[i].0) != h.address(update[n].0) {
          assert init[i] == update[i];
        }
      }
      forall i | 0 <= i < n && update[i].1.touched
        ensures Reflects(h, r, update[i].0, update[i].1)
      {
        assert Reflects(h, rest, init[i].0, init[i].1);
        assert h.address(update[i].0) != h.address(update[n].0);
        ReflectsFrame(h, rest, r, update[i].0, update[i].1);
      }
      forall i | 0 <= i < n && !update[i].1.touched
        ensures h.address(update[i].0) !in r.accounts
      {
        assert h.address(init[i].0) !in rest.accounts;
        assert h.address(update[i].0) != h.address(update[n].0);
      }
    }
  }

  /** Under distinct slot hashes each changed slot maps to its present value. */
  lemma {:induction false} ChangedSlotsValues(h: Hasher, storage: seq<(U256, StorageSlot)>)
    requires forall i, j :: 0 <= i < j < |storage| ==> h.slot(storage[i].0) != h.slot(storage[j].0)
    ensures forall i :: 0 <= i < |storage| && IsChanged(storage[i].1) ==>
      ChangedSlots(h, storage)[h.slot(storage[i].0)] == storage[i].1.presentValue
    decreases |storage|
  {
    if storage != [] {
      var n := |storage| - 1;
      var init := storage[..n];
      assert forall i :: 0 <= i < n ==> init[i] == storage[i];
      ChangedSlotsValues(h, init);
      forall i | 0 <= i < |storage| && IsChanged(storage[i].1)
        ensures ChangedSlots(h, storage)[h.slot(storage[i].0)] == storage[i].1.presentValue
      {
        if i < n {
          assert IsChanged(init[i].1);
          assert h.slot(storage[i].0) != h.slot(storage[n].0);
        }
      }
    }
  }
}
