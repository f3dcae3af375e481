/**
 The disk-backed blob store of the transaction pool: blob sidecars are kept
 in files named by transaction hash, with an in-memory cache in front and a
 set of transactions whose files are deleted later, in bulk, by `cleanup`.

 The directory is a map from transaction hash to file contents; the LRU
 cache is a map that may lose entries at any time (`Evict`); the same holds
 for the versioned-hash index. The outcome of each filesystem call is
 decided by an `Io` value: which reads, writes and removals fail, and the
 sidecar codec. Sidecars are reduced to their kind and their blobs by
 versioned hash.
 */
module DiskBlobStore {

  import opened Wrappers

  type TxHash = B256

  /** A blob together with its proof(s), opaque. */
  type Blob = Bytes

  datatype SidecarKind = Eip4844 | Eip7594

  /** `BlobTransactionSidecarVariant`: its kind and its blobs keyed by versioned hash. */
  datatype Sidecar = Sidecar(kind: SidecarKind, blobs: map<B256, Blob>)

  /** The filesystem and codec, as far as the store can observe them. */
  datatype Io = Io(
    encode: Sidecar -> Bytes,            // `rlp_encode_fields`
    decode: Bytes -> Option<Sidecar>,    // `rlp_decode_fields`, `None` on a decoding error
    readFails: set<TxHash>,              // files whose read fails other than by absence
    writeFails: set<TxHash>,             // files whose write fails
    removeFails: set<TxHash>)            // files whose removal fails

  datatype BlobStoreError =
    | MissingSidecar(tx: TxHash)
    | DecodeError
    | ReadFile(tx: TxHash)
    | WriteFile(tx: TxHash)

  datatype Store = Store(
    cache: map<TxHash, Sidecar>,
    versionedToTx: map<B256, TxHash>,
    disk: map<TxHash, Bytes>,
    toDelete: seq<TxHash>,       // the pending-deletion set, in insertion order
    dataSize: nat,
    numBlobs: nat)

  /** `BlobStoreCleanupStat`. */
  datatype CleanupStat = CleanupStat(deleteSucceed: nat, deleteFailed: nat)

  /** `DiskFileBlobStore::open`: the directory is cleared, everything starts empty. */
  function Open(): (s: Store)
    ensures Inv(s) && s.disk == map[] && s.cache == map[]
  {
    Store(map[], map[], map[], [], 0, 0)
  }

  /** Total size of the files on disk. */
  ghost function TotalSize(disk: map<TxHash, Bytes>): nat
    decreases |disk|
  {
    if disk == map[] then 0
    else
      var k :| k in disk;
      |disk[k]| + TotalSize(disk - {k})
  }

  lemma {:induction false} TotalSizeRemove(disk: map<TxHash, Bytes>, k: TxHash)
    requires k in disk
    ensures TotalSize(disk) == TotalSize(disk - {k}) + |disk[k]|
    decreases |disk|
  {
    var j :| j in disk && TotalSize(disk) == |disk[j]| + TotalSize(disk - {j});
    if j != k {
      var rest := disk - {j};
      TotalSizeRemove(rest, k);
      TotalSizeRemove(disk - {k}, j);
      assert rest - {k} == (disk - {k}) - {j};
    }
  }

  lemma TotalSizeAdd(disk: map<TxHash, Bytes>, k: TxHash, v: Bytes)
    requires k !in disk
    ensures TotalSize(disk[k := v]) == TotalSize(disk) + |v|
  {
    TotalSizeRemove(disk[k := v], k);
    assert disk[k := v] - {k} == disk;
  }

  lemma TotalSizeWrite(disk: map<TxHash, Bytes>, k: TxHash, v: Bytes)
    ensures k !in disk ==> TotalSize(disk[k := v]) == TotalSize(disk) + |v|
  {
    if k !in disk {
      TotalSizeAdd(disk, k, v);
    }
  }

  /**
   The accounting invariant: the tracked blob count and data size describe
   the files actually on disk, and the pending-deletion set holds each
   transaction once.
   */
  ghost predicate Inv(s: Store)
  {
    s.numBlobs == |s.disk| && s.dataSize == TotalSize(s.disk) && Distinct(s.toDelete)
  }

  /** `contains`: cached or on disk. */
  predicate Contains(s: Store, tx: TxHash)
  {
    tx in s.cache || tx in s.disk
  }

  function CachedOf(s: Store, txs: seq<TxHash>): (r: seq<TxHash>)
    ensures forall t :: t in r <==> t in txs && t in s.cache
    decreases |txs|
  {
    if txs == [] then []
    else CachedOf(s, txs[..|txs| - 1]) + (if txs[|txs| - 1] in s.cache then [txs[|txs| - 1]] else [])
  }

  function OnDiskOnly(s: Store, txs: seq<TxHash>): (r: seq<TxHash>)
    ensures forall t :: t in r <==> t in txs && t !in s.cache && t in s.disk
    decreases |txs|
  {
    if txs == [] then []
    else
      var t := txs[|txs| - 1];
      OnDiskOnly(s, txs[..|txs| - 1]) + (if t !in s.cache && t in s.disk then [t] else [])
  }

  /**
   `retain_existing`: the requested transactions that exist, the cached
   ones first and then those found only on disk, each group in request order.
   */
  function RetainExisting(s: Store, txs: seq<TxHash>): (r: seq<TxHash>)
    ensures forall t :: t in r <==> t in txs && Contains(s, t)
    ensures forall i :: 0 <= i < |r| && r[i] !in s.cache ==>
      forall j :: i <= j < |r| ==> r[j] !in s.cache
  {
    var cached, onDisk := CachedOf(s, txs), OnDiskOnly(s, txs);
    assert forall i :: 0 <= i < |cached| ==> cached[i] in cached;
    assert forall i :: 0 <= i < |onDisk| ==> onDisk[i] in onDisk;
    cached + onDisk
  }

  /** Adds to the pending-deletion set, as `HashSet::insert` does. */
  function MarkForDeletion(pending: seq<TxHash>, tx: TxHash): (r: seq<TxHash>)
    ensures Distinct(pending) ==> Distinct(r)
    ensures forall t :: t in r <==> t in pending || t == tx
  {
    if tx in pending then pending else pending + [tx]
  }

  function MarkAll(pending: seq<TxHash>, txs: seq<TxHash>): (r: seq<TxHash>)
    ensures Distinct(pending) ==> Distinct(r)
    ensures forall t :: t in r <==> t in pending || t in txs
    decreases |txs|
  {
    if txs == [] then pending else MarkForDeletion(MarkAll(pending, txs[..|txs| - 1]), txs[|txs| - 1])
  }

  /**
   `delete`: the transaction is marked for deletion only if it is cached or
   on disk; nothing is removed yet.
   */
  function Delete(s: Store, tx: TxHash): (r: Store)
    ensures forall t :: t in r.toDelete <==> t in s.toDelete || (t == tx && Contains(s, tx))
    ensures r.cache == s.cache && r.disk == s.disk
    ensures r == s.(toDelete := r.toDelete)
    ensures Inv(s) ==> Inv(r)
  {
    if Contains(s, tx) then s.(toDelete := MarkForDeletion(s.toDelete, tx)) else s
  }

  /** `delete_all`: marks exactly the requested transactions that are cached or on disk. */
  function DeleteAll(s: Store, txs: seq<TxHash>): (r: Store)
    ensures forall t :: t in r.toDelete <==> t in s.toDelete || (t in txs && Contains(s, t))
    ensures r == s.(toDelete := r.toDelete)
    ensures Inv(s) ==> Inv(r)
  {
    s.(toDelete := MarkAll(s.toDelete, RetainExisting(s, txs)))
  }

  /** The pending transactions whose file removal succeeds. */
  ghost function Removable(io: Io, disk: map<TxHash, Bytes>, pending: seq<TxHash>): set<TxHash>
  {
    set t | t in pending && t in disk && t !in io.removeFails
  }

  /**
   The loop of `cleanup` over the drained set: a removal succeeds when the
   file exists and its removal does not fail, and then counts the file's size.
   */
  function RemoveFiles(io: Io, disk: map<TxHash, Bytes>, drained: seq<TxHash>)
    : (r: (map<TxHash, Bytes>, CleanupStat, nat))
    ensures r.1.deleteSucceed + r.1.deleteFailed == |drained|
    decreases |drained|
  {
    if drained == [] then (disk, CleanupStat(0, 0), 0)
    else
      var (d, stat, sub) := RemoveFiles(io, disk, drained[..|drained| - 1]);
      var tx := drained[|drained| - 1];
      if tx in d && tx !in io.removeFails then
        (d - {tx}, stat.(deleteSucceed := stat.deleteSucceed + 1), sub + |d[tx]|)
      else
        (d, stat.(deleteFailed := stat.deleteFailed + 1), sub)
  }

  /** Exactly the removable files go. */
  lemma {:induction false} RemoveFilesDisk(io: Io, disk: map<TxHash, Bytes>, drained: seq<TxHash>)
    ensures RemoveFiles(io, disk, drained).0 == disk - Removable(io, disk, drained)
    decreases |drained|
  {
    if drained != [] {
      var init := drained[..|drained| - 1];
      var tx := drained[|drained| - 1];
      RemoveFilesDisk(io, disk, init);
      var d := RemoveFiles(io, disk, init).0;
      RemovableSnoc(io, disk, drained);
      if tx in d && tx !in io.removeFails {
        assert (d - {tx}).Keys == (disk - Removable(io, disk, drained)).Keys;
      } else {
        assert d.Keys == (disk - Removable(io, disk, drained)).Keys;
      }
    }
  }

  lemma RemovableSnoc(io: Io, disk: map<TxHash, Bytes>, drained: seq<TxHash>)
    requires drained != []
    ensures var tx := drained[|drained| - 1];
      Removable(io, disk, drained) == Removable(io, disk, drained[..|drained| - 1]) +
        (if tx in disk && tx !in io.removeFails then {tx} else {})
  {
    var init := drained[..|drained| - 1];
    assert drained == init + [drained[|drained| - 1]];
  }

  lemma DistinctInit<T>(s: seq<T>)
    requires s != [] && Distinct(s)
    ensures Distinct(s[..|s| - 1]) && s[|s| - 1] !in s[..|s| - 1]
  {
  }

  /** Each distinct removal counts as one success. */
  lemma {:induction false} RemoveFilesCount(io: Io, disk: map<TxHash, Bytes>, drained: seq<TxHash>)
    ensures Distinct(drained) ==> RemoveFiles(io, disk, drained).1.deleteSucceed == |Removable(io, disk, drained)|
    decreases |drained|
  {
    if drained != [] && Distinct(drained) {
      var init := drained[..|drained| - 1];
      var tx := drained[|drained| - 1];
      DistinctInit(drained);
      RemoveFilesCount(io, disk, init);
      RemoveFilesDisk(io, disk, init);
      RemovableSnoc(io, disk, drained);
      assert tx !in Removable(io, disk, init);
    }
  }

  /** The size reported is the size of the files removed. */
  lemma {:induction false} RemoveFilesSize(io: Io, disk: map<TxHash, Bytes>, drained: seq<TxHash>)
    ensures TotalSize(disk) == TotalSize(RemoveFiles(io, disk, drained).0) + RemoveFiles(io, disk, drained).2
    decreases |drained|
  {
    if drained != [] {
      var init := drained[..|drained| - 1];
      var tx := drained[|drained| - 1];
      RemoveFilesSize(io, disk, init);
      var d := RemoveFiles(io, disk, init).0;
      if tx in d && tx !in io.removeFails {
        TotalSizeRemove(d, tx);
      }
    }
  }

  /**
   `cleanup`: drains the pending-deletion set, removes those files, and
   lowers the tracked size and count by what was actually removed. The
   cache is not touched.
   */
  function Cleanup(io: Io, s: Store): (r: (Store, CleanupStat))
    ensures r.0.toDelete == [] && r.0.cache == s.cache && r.0.versionedToTx == s.versionedToTx
    ensures r.0.disk == s.disk - Removable(io, s.disk, s.toDelete)
    ensures r.1.deleteSucceed + r.1.deleteFailed == |s.toDelete|
    ensures r.0.numBlobs == SatSub(s.numBlobs, r.1.deleteSucceed)
    ensures Inv(s) ==> Inv(r.0) && r.1.deleteSucceed == |Removable(io, s.disk, s.toDelete)|
  {
    var (disk, stat, sub) := RemoveFiles(io, s.disk, s.toDelete);
    RemoveFilesDisk(io, s.disk, s.toDelete);
    RemoveFilesSize(io, s.disk, s.toDelete);
    RemoveFilesCount(io, s.disk, s.toDelete);
    assert |s.disk| == |disk| + |Removable(io, s.disk, s.toDelete)| by {
      assert Removable(io, s.disk, s.toDelete) <= s.disk.Keys;
      assert disk.Keys == s.disk.Keys - Removable(io, s.disk, s.toDelete);
    }
    (Store(s.cache, s.versionedToTx, disk, [], SatSub(s.dataSize, sub), SatSub(s.numBlobs, stat.deleteSucceed)), stat)
  }

  /**
   `write_one_encoded`: an existing file is never overwritten and counts
   zero bytes; otherwise the file is written and its length returned.
   */
  function WriteOneEncoded(io: Io, disk: map<TxHash, Bytes>, tx: TxHash, data: Bytes)
    : (r: (map<TxHash, Bytes>, Result<nat, BlobStoreError>))
    ensures tx in disk ==> r == (disk, Ok(0))
    ensures tx !in disk && tx in io.writeFails ==> r == (disk, Err(WriteFile(tx)))
    ensures tx !in disk && tx !in io.writeFails ==> r == (disk[tx := data], Ok(|data|))
  {
    if tx in disk then (disk, Ok(0))
    else if tx in io.writeFails then (disk, Err(WriteFile(tx)))
    else (disk[tx := data], Ok(|data|))
  }

  /** Records the transaction as the latest holder of each of the sidecar's versioned hashes. */
  function RecordHashes(index: map<B256, TxHash>, tx: TxHash, data: Sidecar): (r: map<B256, TxHash>)
    ensures forall h :: h in data.blobs ==> h in r && r[h] == tx
    ensures forall h :: h in index && h !in data.blobs ==> h in r && r[h] == index[h]
    ensures r.Keys == index.Keys + data.blobs.Keys
  {
    index + map h | h in data.blobs :: tx
  }

  /**
   `insert_one` as written: caches the sidecar, writes the file unless it
   exists, adds the bytes written, and counts one more blob in every case.
   */
  function InsertOneAsWritten(io: Io, s: Store, tx: TxHash, data: Sidecar): (r: (Store, Result<(), BlobStoreError>))
    ensures r.1.Ok? ==> r.0.numBlobs == s.numBlobs + 1
  {
    var cached := s.(versionedToTx := RecordHashes(s.versionedToTx, tx, data), cache := s.cache[tx := data]);
    var (disk, written) := WriteOneEncoded(io, s.disk, tx, io.encode(data));
    match written
    case Err(e) => (cached, Err(e))
    case Ok(size) => (cached.(disk := disk, dataSize := s.dataSize + size, numBlobs := s.numBlobs + 1), Ok(()))
  }

  /**
   The discrepancy: inserting a transaction whose file already exists
   counts a blob that was not written, so the count drifts above the
   number of files.
   */
  lemma InsertOneAsWrittenDrifts(io: Io, data: Sidecar)
    requires 7 !in io.writeFails
    ensures var s1 := InsertOneAsWritten(io, Open(), 7, data).0;
      var s2 := InsertOneAsWritten(io, s1, 7, data).0;
      s2.numBlobs == 2 && |s2.disk| == 1
  {
    var s1 := InsertOneAsWritten(io, Open(), 7, data).0;
    assert s1.disk == map[7 := io.encode(data)];
  }

  /**
   `insert_one`, counting a blob only when its file was written, as
   `insert_many` does: the sidecar is cached and indexed, the file is written
   unless it exists, and the accounting invariant is kept.
   */
  function InsertOne(io: Io, s: Store, tx: TxHash, data: Sidecar): (r: (Store, Result<(), BlobStoreError>))
    // the cache: the sidecar under its transaction, every other entry kept
    ensures tx in r.0.cache && r.0.cache[tx] == data
    ensures r.0.cache.Keys == s.cache.Keys + {tx}
    ensures forall t :: t in s.cache && t != tx ==> r.0.cache[t] == s.cache[t]
    // the index: every versioned hash of the sidecar names the transaction, other entries kept
    ensures forall h :: h in data.blobs ==> h in r.0.versionedToTx && r.0.versionedToTx[h] == tx
    ensures r.0.versionedToTx.Keys == s.versionedToTx.Keys + data.blobs.Keys
    ensures forall h :: h in s.versionedToTx && h !in data.blobs ==> r.0.versionedToTx[h] == s.versionedToTx[h]
    // the disk: existing files untouched
    ensures forall t :: t in s.disk ==> t in r.0.disk && r.0.disk[t] == s.disk[t]
    ensures r.1.Err? <==> tx !in s.disk && tx in io.writeFails
    ensures r.0.disk == if tx in s.disk || tx in io.writeFails then s.disk else s.disk[tx := io.encode(data)]
    ensures r.0.toDelete == s.toDelete
    ensures Inv(s) ==> Inv(r.0)
  {
    var cached := s.(versionedToTx := RecordHashes(s.versionedToTx, tx, data), cache := s.cache[tx := data]);
    assert cached.cache.Keys == s.cache.Keys + {tx};
    var (disk, written) := WriteOneEncoded(io, s.disk, tx, io.encode(data));
    match written
    case Err(e) => (cached, Err(e))
    case Ok(size) =>
      TotalSizeWrite(s.disk, tx, io.encode(data));
      (cached.(disk := disk, dataSize := s.dataSize + size, numBlobs := s.numBlobs + (if tx in s.disk then 0 else 1)),
       Ok(()))
  }

  /** No later entry of the batch is for the same transaction. */
  predicate LastFor(txs: seq<(TxHash, Sidecar)>, i: int)
    requires 0 <= i < |txs|
  {
    forall j :: i < j < |txs| ==> txs[j].0 != txs[i].0
  }

  /** No earlier entry of the batch is for the same transaction. */
  predicate FirstFor(txs: seq<(TxHash, Sidecar)>, i: int)
    requires 0 <= i < |txs|
  {
    forall j :: 0 <= j < i ==> txs[j].0 != txs[i].0
  }

  /** No later sidecar of the batch holds versioned hash `h`. */
  predicate LastHolder(txs: seq<(TxHash, Sidecar)>, i: int, h: B256)
    requires 0 <= i < |txs|
  {
    forall j :: i < j < |txs| ==> h !in txs[j].1.blobs
  }

  /** The versioned-hash index after recording a batch, in order. */
  function RecordAll(index: map<B256, TxHash>, txs: seq<(TxHash, Sidecar)>): map<B256, TxHash>
    decreases |txs|
  {
    if txs == [] then index
    else
      var (tx, data) := txs[|txs| - 1];
      RecordHashes(RecordAll(index, txs[..|txs| - 1]), tx, data)
  }

  /**
   Each hash a sidecar of the batch holds names the last transaction whose
   sidecar holds it; the entries for other hashes stay.
   */
  lemma {:induction false} RecordAllSpec(index: map<B256, TxHash>, txs: seq<(TxHash, Sidecar)>)
    ensures forall i, h :: 0 <= i < |txs| && h in txs[i].1.blobs && LastHolder(txs, i, h) ==>
      h in RecordAll(index, txs) && RecordAll(index, txs)[h] == txs[i].0
    ensures forall h :: h in index && (forall i :: 0 <= i < |txs| ==> h !in txs[i].1.blobs) ==>
      h in RecordAll(index, txs) && RecordAll(index, txs)[h] == index[h]
    decreases |txs|
  {
    if txs != [] {
      var n := |txs| - 1;
      var init := txs[..n];
      RecordAllSpec(index, init);
      assert forall i :: 0 <= i < n ==> init[i] == txs[i];
      forall i, h | 0 <= i < |txs| && h in txs[i].1.blobs && LastHolder(txs, i, h)
        ensures h in RecordAll(index, txs) && RecordAll(index, txs)[h] == txs[i].0 {
        if i < n {
          assert LastHolder(init, i, h);
          assert h !in txs[n].1.blobs;
        }
      }
    }
  }

  /**
   The cache after inserting a batch, in order: the batch's transactions and
   the cached ones are cached, the last sidecar given for a transaction wins,
   and entries the batch does not name are kept.
   */
  function CacheAll(cache: map<TxHash, Sidecar>, txs: seq<(TxHash, Sidecar)>): (r: map<TxHash, Sidecar>)
    ensures forall t :: t in r <==> t in cache || t in TxsOf(txs)
    decreases |txs|
  {
    if txs == [] then cache
    else
      var n := |txs| - 1;
      assert TxsOf(txs) == TxsOf(txs[..n]) + [txs[n].0];
      CacheAll(cache, txs[..n])[txs[n].0 := txs[n].1]
  }

  /** `CacheAll` holds the last sidecar given for each transaction of the batch. */
  lemma {:induction false} CacheAllLast(cache: map<TxHash, Sidecar>, txs: seq<(TxHash, Sidecar)>)
    ensures forall i :: 0 <= i < |txs| && LastFor(txs, i) ==>
      txs[i].0 in CacheAll(cache, txs) && CacheAll(cache, txs)[txs[i].0] == txs[i].1
    decreases |txs|
  {
    if txs != [] {
      var n := |txs| - 1;
      var init := txs[..n];
      CacheAllLast(cache, init);
      forall i | 0 <= i < |txs| && LastFor(txs, i)
        ensures txs[i].0 in CacheAll(cache, txs) && CacheAll(cache, txs)[txs[i].0] == txs[i].1 {
        if i < n {
          assert init[i] == txs[i] && txs[n].0 != txs[i].0;
          assert LastFor(init, i);
          CacheAllLastEarlier(cache, txs, i);
        }
      }
    }
  }

  /** An entry before the last one keeps the value the earlier entries cached, the last one not overwriting it. */
  lemma CacheAllLastEarlier(cache: map<TxHash, Sidecar>, txs: seq<(TxHash, Sidecar)>, i: int)
    requires 0 <= i < |txs| - 1 && txs[|txs| - 1].0 != txs[i].0
    requires txs[i].0 in CacheAll(cache, txs[..|txs| - 1])
    requires CacheAll(cache, txs[..|txs| - 1])[txs[i].0] == txs[i].1
    ensures txs[i].0 in CacheAll(cache, txs) && CacheAll(cache, txs)[txs[i].0] == txs[i].1
  {
  }

  /** `CacheAll` keeps the entries of transactions the batch does not name. */
  lemma {:induction false} CacheAllKeeps(cache: map<TxHash, Sidecar>, txs: seq<(TxHash, Sidecar)>)
    ensures forall t :: t in cache && t !in TxsOf(txs) ==> CacheAll(cache, txs)[t] == cache[t]
    decreases |txs|
  {
    if txs != [] {
      var n := |txs| - 1;
      CacheAllKeeps(cache, txs[..n]);
      assert TxsOf(txs) == TxsOf(txs[..n]) + [txs[n].0];
    }
  }

  /** The files a batch writes: the first sidecar given for a transaction whose file does not exist and can be written. */
  ghost function NewFiles(io: Io, disk: map<TxHash, Bytes>, txs: seq<(TxHash, Sidecar)>): set<TxHash>
  {
    set i | 0 <= i < |txs| && txs[i].0 !in disk && txs[i].0 !in io.writeFails :: txs[i].0
  }

  /**
   The write loop of `insert_many`: a file that exists is skipped, a failed
   write is skipped, every other file is written and counted.
   */
  function WriteAll(io: Io, disk: map<TxHash, Bytes>, txs: seq<(TxHash, Sidecar)>): (r: (map<TxHash, Bytes>, nat, nat))
    decreases |txs|
  {
    if txs == [] then (disk, 0, 0)
    else
      var (d, add, num) := WriteAll(io, disk, txs[..|txs| - 1]);
      var (tx, data) := txs[|txs| - 1];
      if tx in d || tx in io.writeFails then (d, add, num)
      else (d[tx := io.encode(data)], add + |io.encode(data)|, num + 1)
  }

  lemma NewFilesSnoc(io: Io, disk: map<TxHash, Bytes>, txs: seq<(TxHash, Sidecar)>)
    requires txs != []
    ensures var tx := txs[|txs| - 1].0;
      NewFiles(io, disk, txs) == NewFiles(io, disk, txs[..|txs| - 1]) +
        (if tx !in disk && tx !in io.writeFails then {tx} else {})
  {
    var init := txs[..|txs| - 1];
    assert forall i :: 0 <= i < |init| ==> init[i] == txs[i];
  }

  /**
   Existing files keep their contents, exactly the new files appear, and a
   new file holds the encoding of the first sidecar the batch gives for its
   transaction.
   */
  lemma {:induction false} WriteAllFiles(io: Io, disk: map<TxHash, Bytes>, txs: seq<(TxHash, Sidecar)>)
    ensures forall t :: t in disk ==> t in WriteAll(io, disk, txs).0 && WriteAll(io, disk, txs).0[t] == disk[t]
    ensures WriteAll(io, disk, txs).0.Keys == disk.Keys + NewFiles(io, disk, txs)
    ensures forall i :: 0 <= i < |txs| && FirstFor(txs, i) && txs[i].0 !in disk && txs[i].0 !in io.writeFails ==>
      WriteAll(io, disk, txs).0[txs[i].0] == io.encode(txs[i].1)
    decreases |txs|
  {
    if txs != [] {
      var n := |txs| - 1;
      var init := txs[..n];
      WriteAllFiles(io, disk, init);
      NewFilesSnoc(io, disk, txs);
      var d := WriteAll(io, disk, init).0;
      assert forall i :: 0 <= i < n ==> init[i] == txs[i];
      forall i | 0 <= i < |txs| && FirstFor(txs, i) && txs[i].0 !in disk && txs[i].0 !in io.writeFails
        ensures WriteAll(io, disk, txs).0[txs[i].0] == io.encode(txs[i].1) {
        if i < n {
          assert FirstFor(init, i);
          assert txs[i].0 in NewFiles(io, disk, init);
        }
      }
    }
  }

  /** The count and size added are those of the new files. */
  lemma {:induction false} WriteAllCount(io: Io, disk: map<TxHash, Bytes>, txs: seq<(TxHash, Sidecar)>)
    ensures WriteAll(io, disk, txs).2 == |NewFiles(io, disk, txs)|
    ensures TotalSize(WriteAll(io, disk, txs).0) == TotalSize(disk) + WriteAll(io, disk, txs).1
    decreases |txs|
  {
    if txs != [] {
      var init := txs[..|txs| - 1];
      var (tx, data) := txs[|txs| - 1];
      WriteAllCount(io, disk, init);
      WriteAllFiles(io, disk, init);
      NewFilesSnoc(io, disk, txs);
      var d := WriteAll(io, disk, init).0;
      if !(tx in d || tx in io.writeFails) {
        TotalSizeAdd(d, tx, io.encode(data));
        assert tx !in NewFiles(io, disk, init);
      }
    }
  }

  /**
   `insert_all`: an empty batch changes nothing; otherwise every sidecar is
   indexed and cached, and the files that do not exist yet are written and
   counted. No existing file is overwritten and the accounting invariant is
   kept.
   */
  function InsertAll(io: Io, s: Store, txs: seq<(TxHash, Sidecar)>): (r: Store)
    ensures txs == [] ==> r == s
    // the cache: every given transaction, holding the last sidecar given for it
    ensures forall i :: 0 <= i < |txs| ==> txs[i].0 in r.cache
    ensures forall i :: 0 <= i < |txs| && LastFor(txs, i) ==> r.cache[txs[i].0] == txs[i].1
    ensures forall t :: t in s.cache && t !in TxsOf(txs) ==> t in r.cache && r.cache[t] == s.cache[t]
    // the index: every hash of the batch names the last transaction holding it
    ensures forall i, h :: 0 <= i < |txs| && h in txs[i].1.blobs && LastHolder(txs, i, h) ==>
      h in r.versionedToTx && r.versionedToTx[h] == txs[i].0
    ensures forall h :: h in s.versionedToTx && (forall i :: 0 <= i < |txs| ==> h !in txs[i].1.blobs) ==>
      h in r.versionedToTx && r.versionedToTx[h] == s.versionedToTx[h]
    // the disk: existing files untouched, new files hold the first sidecar given
    ensures forall t :: t in s.disk ==> t in r.disk && r.disk[t] == s.disk[t]
    ensures r.disk.Keys == s.disk.Keys + NewFiles(io, s.disk, txs)
    ensures forall i :: 0 <= i < |txs| && FirstFor(txs, i) && txs[i].0 !in s.disk && txs[i].0 !in io.writeFails ==>
      r.disk[txs[i].0] == io.encode(txs[i].1)
    ensures r.toDelete == s.toDelete
    ensures Inv(s) ==> Inv(r)
  {
    if txs == [] then s
    else
      var (disk, add, num) := WriteAll(io, s.disk, txs);
      CacheAllLast(s.cache, txs);
      CacheAllKeeps(s.cache, txs);
      RecordAllSpec(s.versionedToTx, txs);
      WriteAllFiles(io, s.disk, txs);
      WriteAllCount(io, s.disk, txs);
      assert |disk| == |s.disk| + num by {
        assert NewFiles(io, s.disk, txs) !! s.disk.Keys;
      }
      Store(CacheAll(s.cache, txs), RecordAll(s.versionedToTx, txs), disk, s.toDelete,
            s.dataSize + add, s.numBlobs + num)
  }

  /** The cache may drop any entry at any time. */
  function Evict(s: Store, tx: TxHash): (r: Store)
    ensures tx !in r.cache && r.disk == s.disk
    ensures forall t :: t in s.cache && t != tx ==> t in r.cache && r.cache[t] == s.cache[t]
    ensures Inv(s) ==> Inv(r)
  {
    s.(cache := s.cache - {tx})
  }

  /** `data_size_hint`. */
  function DataSizeHint(s: Store): (r: Option<nat>)
    ensures Inv(s) ==> r == Some(TotalSize(s.disk))
  {
    Some(s.dataSize)
  }

  /** `blobs_len`. */
  function BlobsLen(s: Store): (r: nat)
    ensures Inv(s) ==> r == |s.disk|
  {
    s.numBlobs
  }

  /** A file that exists, reads without error and decodes. */
  predicate Readable(io: Io, disk: map<TxHash, Bytes>, tx: TxHash)
  {
    tx in disk && tx !in io.readFails && io.decode(disk[tx]).Some?
  }

  /** The sidecar a lookup may return: the cached one, or else the one on disk. */
  predicate Provides(io: Io, s: Store, tx: TxHash, data: Sidecar)
  {
    if tx in s.cache then s.cache[tx] == data
    else Readable(io, s.disk, tx) && io.decode(s.disk[tx]) == Some(data)
  }

  /** `read_one`: a missing file is no error; a failed read or a bad encoding is. */
  function ReadOne(io: Io, disk: map<TxHash, Bytes>, tx: TxHash): (r: Result<Option<Sidecar>, BlobStoreError>)
    ensures tx !in disk <==> r == Ok(None)
    ensures r.Ok? && r.value.Some? <==> Readable(io, disk, tx)
    ensures r.Ok? && r.value.Some? ==> io.decode(disk[tx]) == r.value
    ensures tx in disk && tx in io.readFails ==> r == Err(ReadFile(tx))
  {
    if tx !in disk then Ok(None)
    else if tx in io.readFails then Err(ReadFile(tx))
    else match io.decode(disk[tx])
      case None => Err(DecodeError)
      case Some(data) => Ok(Some(data))
  }

  /**
   `get_one`: the cache first; a sidecar read from disk is put into the
   cache; a transaction with neither gives `None`.
   */
  function GetOne(io: Io, s: Store, tx: TxHash): (r: (Store, Result<Option<Sidecar>, BlobStoreError>))
    ensures tx in s.cache ==> r == (s, Ok(Some(s.cache[tx])))
    ensures tx !in s.cache ==> r.1 == ReadOne(io, s.disk, tx)
    ensures !Contains(s, tx) ==> r == (s, Ok(None))
    ensures r.1.Ok? && r.1.value.Some? <==> tx in s.cache || Readable(io, s.disk, tx)
    ensures r.1.Ok? && r.1.value.Some? ==>
      Provides(io, s, tx, r.1.value.value) && r.0 == s.(cache := s.cache[tx := r.1.value.value])
    ensures !(r.1.Ok? && r.1.value.Some?) ==> r.0 == s
  {
    if tx in s.cache then (s, Ok(Some(s.cache[tx])))
    else match ReadOne(io, s.disk, tx)
      case Ok(Some(data)) => (s.(cache := s.cache[tx := data]), Ok(Some(data)))
      case other => (s, other)
  }

  /** A lookup only adds to the cache what the disk provides, and changes nothing else. */
  ghost predicate Warmed(io: Io, s: Store, s': Store)
  {
    s' == s.(cache := s'.cache) &&
    (forall t :: t in s.cache ==> t in s'.cache && s'.cache[t] == s.cache[t]) &&
    (forall t :: t in s'.cache && t !in s.cache ==> Provides(io, s, t, s'.cache[t]))
  }

  lemma WarmedProvides(io: Io, s: Store, s': Store, tx: TxHash, data: Sidecar)
    requires Warmed(io, s, s')
    ensures Provides(io, s', tx, data) ==> Provides(io, s, tx, data)
    ensures Inv(s) ==> Inv(s')
  {
  }

  function TxsOf(pairs: seq<(TxHash, Sidecar)>): (r: seq<TxHash>)
    ensures |r| == |pairs| && forall i :: 0 <= i < |r| ==> r[i] == pairs[i].0
  {
    seq(|pairs|, i requires 0 <= i < |pairs| => pairs[i].0)
  }

  /**
   `read_many_decoded`: the requested files that exist, read and decode,
   in request order; all failures are skipped.
   */
  function ReadManyDecoded(io: Io, disk: map<TxHash, Bytes>, txs: seq<TxHash>): (r: seq<(TxHash, Sidecar)>)
    ensures forall i :: 0 <= i < |r| ==> Readable(io, disk, r[i].0) && io.decode(disk[r[i].0]) == Some(r[i].1)
    ensures forall t :: t in TxsOf(r) <==> t in txs && Readable(io, disk, t)
    decreases |txs|
  {
    if txs == [] then []
    else
      var t := txs[|txs| - 1];
      var init := ReadManyDecoded(io, disk, txs[..|txs| - 1]);
      if Readable(io, disk, t) then
        var r := init + [(t, io.decode(disk[t]).value)];
        assert TxsOf(r) == TxsOf(init) + [t];
        r
      else init
  }

  function CacheHits(cache: map<TxHash, Sidecar>, txs: seq<TxHash>): (r: seq<(TxHash, Sidecar)>)
    ensures forall i :: 0 <= i < |r| ==> r[i].0 in cache && cache[r[i].0] == r[i].1
    ensures forall t :: t in TxsOf(r) <==> t in txs && t in cache
    decreases |txs|
  {
    if txs == [] then []
    else
      var t := txs[|txs| - 1];
      var init := CacheHits(cache, txs[..|txs| - 1]);
      if t in cache then
        var r := init + [(t, cache[t])];
        assert TxsOf(r) == TxsOf(init) + [t];
        r
      else init
  }

  function CacheMisses(cache: map<TxHash, Sidecar>, txs: seq<TxHash>): (r: seq<TxHash>)
    ensures forall t :: t in r <==> t in txs && t !in cache
    decreases |txs|
  {
    if txs == [] then []
    else
      var t := txs[|txs| - 1];
      CacheMisses(cache, txs[..|txs| - 1]) + (if t !in cache then [t] else [])
  }

  function CacheInsertAll(cache: map<TxHash, Sidecar>, found: seq<(TxHash, Sidecar)>): (r: map<TxHash, Sidecar>)
    ensures forall t :: t in r <==> t in cache || t in TxsOf(found)
    ensures forall t :: t in r ==> (t, r[t]) in found || (t in cache && r[t] == cache[t])
    decreases |found|
  {
    if found == [] then cache
    else
      var init := found[..|found| - 1];
      assert TxsOf(found) == TxsOf(init) + [found[|found| - 1].0];
      assert forall p :: p in init ==> p in found;
      CacheInsertAll(cache, init)[found[|found| - 1].0 := found[|found| - 1].1]
  }

  /**
   `get_all`: never fails on a miss. Returns the cache hits in request order,
   then the misses that could be read from disk, which are cached; every
   returned sidecar is what the store provides for its transaction, and
   every requested transaction that is cached or readable is returned.
   */
  function GetAll(io: Io, s: Store, txs: seq<TxHash>): (r: (Store, seq<(TxHash, Sidecar)>))
    ensures txs == [] ==> r == (s, [])
    ensures forall i :: 0 <= i < |r.1| ==> Provides(io, s, r.1[i].0, r.1[i].1)
    ensures forall t :: t in TxsOf(r.1) <==> t in txs && (t in s.cache || Readable(io, s.disk, t))
    ensures forall i, j :: 0 <= i < j < |r.1| && r.1[i].0 !in s.cache ==> r.1[j].0 !in s.cache
    ensures Warmed(io, s, r.0)
  {
    if txs == [] then (s, [])
    else
      var hits := CacheHits(s.cache, txs);
      var fromDisk := ReadManyDecoded(io, s.disk, CacheMisses(s.cache, txs));
      GetAllFound(io, s, txs, hits, fromDisk);
      if fromDisk == [] then (s, hits)
      else
        var s' := s.(cache := CacheInsertAll(s.cache, fromDisk));
        GetAllWarms(io, s, fromDisk, s');
        (s', hits + fromDisk)
  }

  lemma GetAllFound(io: Io, s: Store, txs: seq<TxHash>, hits: seq<(TxHash, Sidecar)>, fromDisk: seq<(TxHash, Sidecar)>)
    requires hits == CacheHits(s.cache, txs)
    requires fromDisk == ReadManyDecoded(io, s.disk, CacheMisses(s.cache, txs))
    ensures forall i :: 0 <= i < |hits + fromDisk| ==> Provides(io, s, (hits + fromDisk)[i].0, (hits + fromDisk)[i].1)
    ensures forall t :: t in TxsOf(hits + fromDisk) <==> t in txs && (t in s.cache || Readable(io, s.disk, t))
    ensures forall i, j :: 0 <= i < j < |hits + fromDisk| && (hits + fromDisk)[i].0 !in s.cache ==>
      (hits + fromDisk)[j].0 !in s.cache
    ensures forall i :: 0 <= i < |fromDisk| ==> fromDisk[i].0 !in s.cache
  {
    var r := hits + fromDisk;
    assert TxsOf(r) == TxsOf(hits) + TxsOf(fromDisk);
    assert forall i :: 0 <= i < |fromDisk| ==> fromDisk[i].0 in TxsOf(fromDisk);
    assert forall i :: 0 <= i < |hits| ==> hits[i].0 in TxsOf(hits);
  }

  lemma GetAllWarms(io: Io, s: Store, fromDisk: seq<(TxHash, Sidecar)>, s': Store)
    requires forall i :: 0 <= i < |fromDisk| ==> fromDisk[i].0 !in s.cache
    requires forall i :: 0 <= i < |fromDisk| ==>
      Readable(io, s.disk, fromDisk[i].0) && io.decode(s.disk[fromDisk[i].0]) == Some(fromDisk[i].1)
    requires s' == s.(cache := CacheInsertAll(s.cache, fromDisk))
    ensures Warmed(io, s, s')
  {
    assert forall p :: p in fromDisk ==> p.0 !in s.cache;
    forall t | t in s'.cache && t !in s.cache ensures Provides(io, s, t, s'.cache[t]) {
      var i :| 0 <= i < |fromDisk| && fromDisk[i] == (t, s'.cache[t]);
    }
  }

  /**
   `get_exact`: looks each transaction up in request order and stops at the
   first failure; a transaction neither cached nor on disk fails with
   `MissingSidecar`. On success the result holds, in request order, the
   sidecar the store provides for each transaction.
   */
  function GetExact(io: Io, s: Store, txs: seq<TxHash>): (r: (Store, Result<seq<Sidecar>, BlobStoreError>))
    ensures r.1.Ok? ==> |r.1.value| == |txs|
    ensures r.1.Ok? ==> forall i :: 0 <= i < |txs| ==> Provides(io, s, txs[i], r.1.value[i])
    ensures (forall t :: t in txs ==> t in s.cache || Readable(io, s.disk, t)) ==> r.1.Ok?
    ensures (exists t :: t in txs && !Contains(s, t)) ==> r.1.Err?
    // the first transaction that is neither cached nor on disk, after
    // transactions that all succeed, is the one reported missing
    ensures forall k :: 0 <= k < |txs| && !Contains(s, txs[k]) && Served(io, s, txs[..k]) ==>
      r.1 == Err(MissingSidecar(txs[k]))
    ensures Warmed(io, s, r.0)
    decreases |txs|
  {
    if txs == [] then (s, Ok([]))
    else
      var tx := txs[0];
      var (s1, one) := GetOne(io, s, tx);
      match one
      case Err(e) => (s1, Err(e))
      case Ok(None) => (s1, Err(MissingSidecar(tx)))
      case Ok(Some(data)) =>
        var (s2, rest) := GetExact(io, s1, txs[1..]);
        assert forall t :: t in txs[1..] ==> t in txs;
        GetExactStep(io, s, s1, s2, txs, data, rest);
        GetExactMissingStep(io, s, s1, txs, data, rest);
        (s2, if rest.Ok? then Ok([data] + rest.value) else rest)
  }

  /** Every one of the transactions is cached or readable from disk. */
  predicate Served(io: Io, s: Store, txs: seq<TxHash>)
  {
    forall i :: 0 <= i < |txs| ==> txs[i] in s.cache || Readable(io, s.disk, txs[i])
  }

  lemma ServedDrop(io: Io, s: Store, s1: Store, txs: seq<TxHash>)
    requires txs != [] && Served(io, s, txs)
    requires s1.disk == s.disk && s.cache.Keys <= s1.cache.Keys
    ensures Served(io, s1, txs[1..])
  {
    forall i | 0 <= i < |txs| - 1 ensures txs[1..][i] in s1.cache || Readable(io, s1.disk, txs[1..][i]) {
      assert txs[1..][i] == txs[i + 1];
    }
  }

  lemma GetExactStep(io: Io, s: Store, s1: Store, s2: Store, txs: seq<TxHash>, data: Sidecar,
                     rest: Result<seq<Sidecar>, BlobStoreError>)
    requires txs != [] && s1 == s.(cache := s.cache[txs[0] := data]) && Provides(io, s, txs[0], data)
    requires Warmed(io, s1, s2)
    requires rest.Ok? ==> |rest.value| == |txs| - 1
    requires rest.Ok? ==> forall i :: 0 <= i < |txs| - 1 ==> Provides(io, s1, txs[1..][i], rest.value[i])
    requires (forall t :: t in txs[1..] ==> t in s1.cache || Readable(io, s1.disk, t)) ==> rest.Ok?
    requires (exists t :: t in txs[1..] && !Contains(s1, t)) ==> rest.Err?
    ensures Warmed(io, s, s2)
    ensures rest.Ok? ==> forall i :: 0 <= i < |txs| ==> Provides(io, s, txs[i], ([data] + rest.value)[i])
    ensures (forall t :: t in txs ==> t in s.cache || Readable(io, s.disk, t)) ==> rest.Ok?
    ensures (exists t :: t in txs && !Contains(s, t)) ==> rest.Err?
  {
    var tx := txs[0];
    assert Warmed(io, s, s1);
    if rest.Ok? {
      forall i | 0 <= i < |txs| ensures Provides(io, s, txs[i], ([data] + rest.value)[i]) {
        if i > 0 {
          assert txs[i] == txs[1..][i - 1];
        }
      }
    }
    if exists t :: t in txs && !Contains(s, t) {
      var t :| t in txs && !Contains(s, t);
      assert t != tx;
      assert t in txs[1..];
    }
  }

  /** The first missing transaction of the tail is the first of the whole request. */
  lemma GetExactMissingStep(io: Io, s: Store, s1: Store, txs: seq<TxHash>, data: Sidecar,
                            rest: Result<seq<Sidecar>, BlobStoreError>)
    requires txs != [] && s1 == s.(cache := s.cache[txs[0] := data]) && Contains(s, txs[0])
    requires forall k :: 0 <= k < |txs[1..]| && !Contains(s1, txs[1..][k]) && Served(io, s1, txs[1..][..k]) ==>
      rest == Err(MissingSidecar(txs[1..][k]))
    ensures forall k :: 0 <= k < |txs| && !Contains(s, txs[k]) && Served(io, s, txs[..k]) ==>
      rest == Err(MissingSidecar(txs[k]))
  {
    var tx := txs[0];
    forall k | 0 <= k < |txs| && !Contains(s, txs[k]) && Served(io, s, txs[..k])
      ensures rest == Err(MissingSidecar(txs[k])) {
      assert k != 0;
      assert txs[k] == txs[1..][k - 1] && txs[k] != tx;
      assert txs[1..][..k - 1] == txs[..k][1..];
      ServedDrop(io, s, s1, txs[..k]);
    }
  }

  /**
   `contains` agrees with `get`: a transaction is neither cached nor on disk
   exactly when looking it up finds nothing and fails with no error.
   */
  lemma ContainsGetOne(io: Io, s: Store, tx: TxHash)
    ensures !Contains(s, tx) <==> GetOne(io, s, tx).1 == Ok(None)
  {
  }

  /** The sidecar is of the given kind and holds blob `b` under versioned hash `h`. */
  predicate Has(sc: Sidecar, kind: SidecarKind, h: B256, b: Blob)
  {
    sc.kind == kind && h in sc.blobs && sc.blobs[h] == b
  }

  ghost predicate CachedBlob(cache: map<TxHash, Sidecar>, kind: SidecarKind, h: B256, b: Blob)
  {
    exists t :: t in cache && Has(cache[t], kind, h, b)
  }

  ghost predicate DiskBlob(io: Io, disk: map<TxHash, Bytes>, kind: SidecarKind, h: B256, b: Blob)
  {
    exists t :: Readable(io, disk, t) && Has(io.decode(disk[t]).value, kind, h, b)
  }

  predicate AllSome(result: seq<Option<Blob>>)
  {
    forall j :: 0 <= j < |result| ==> result[j].Some?
  }

  function Nones(n: nat): (r: seq<Option<Blob>>)
    ensures |r| == n && forall j :: 0 <= j < n ==> r[j].None?
  {
    seq(n, _ => None)
  }

  /**
   `match_versioned_hashes` applied to the result: every requested position
   whose hash the sidecar holds receives that blob, unless `overwrite` is
   off and the position is already filled.
   */
  function MatchInto(result: seq<Option<Blob>>, sc: Sidecar, vh: seq<B256>, overwrite: bool): (r: seq<Option<Blob>>)
    requires |result| == |vh|
    ensures |r| == |vh|
    ensures forall j :: 0 <= j < |vh| && vh[j] in sc.blobs && (overwrite || result[j].None?) ==>
      r[j] == Some(sc.blobs[vh[j]])
    ensures forall j :: 0 <= j < |vh| && !(vh[j] in sc.blobs && (overwrite || result[j].None?)) ==>
      r[j] == result[j]
  {
    seq(|vh|, j requires 0 <= j < |vh| =>
      if vh[j] in sc.blobs && (overwrite || result[j].None?) then Some(sc.blobs[vh[j]]) else result[j])
  }

  /**
   The first phase of the versioned-hash lookups: the cached sidecars of the
   wanted kind, in the cache's iteration order `order`, each overwriting the
   positions it matches; it stops as soon as every position is filled. The
   flag tells whether it stopped early.
   */
  function ScanCache(kind: SidecarKind, cache: map<TxHash, Sidecar>, order: seq<TxHash>, vh: seq<B256>,
                     result: seq<Option<Blob>>): (r: (seq<Option<Blob>>, bool))
    requires |result| == |vh|
    ensures |r.0| == |vh|
    ensures r.1 ==> AllSome(r.0)
    decreases |order|
  {
    if order == [] then (result, false)
    else
      var tx := order[0];
      var next := if tx in cache && cache[tx].kind == kind then MatchInto(result, cache[tx], vh, true) else result;
      if AllSome(next) then (next, true) else ScanCache(kind, cache, order[1..], vh, next)
  }

  /**
   The cache scan only fills positions, fills them with blobs of cached
   sidecars of the wanted kind, and fills every position whose hash such a
   sidecar in the iteration order holds.
   */
  lemma {:induction false} ScanCacheSpec(kind: SidecarKind, cache: map<TxHash, Sidecar>, order: seq<TxHash>,
                                         vh: seq<B256>, result: seq<Option<Blob>>)
    requires |result| == |vh|
    ensures var r := ScanCache(kind, cache, order, vh, result).0;
      (forall j :: 0 <= j < |vh| && result[j].Some? ==> r[j].Some?) &&
      (forall j :: 0 <= j < |vh| && r[j].Some? ==> r[j] == result[j] || CachedBlob(cache, kind, vh[j], r[j].value)) &&
      (forall i, j :: (0 <= i < |order| && 0 <= j < |vh| && order[i] in cache && cache[order[i]].kind == kind &&
                       vh[j] in cache[order[i]].blobs) ==> r[j].Some?)
    decreases |order|
  {
    if order != [] {
      var tx := order[0];
      var next := if tx in cache && cache[tx].kind == kind then MatchInto(result, cache[tx], vh, true) else result;
      assert forall j :: 0 <= j < |vh| && next[j].Some? && next[j] != result[j] ==>
        CachedBlob(cache, kind, vh[j], next[j].value) by {
        forall j | 0 <= j < |vh| && next[j].Some? && next[j] != result[j]
          ensures CachedBlob(cache, kind, vh[j], next[j].value) {
          assert Has(cache[tx], kind, vh[j], next[j].value);
        }
      }
      if !AllSome(next) {
        ScanCacheSpec(kind, cache, order[1..], vh, next);
        forall i, j | 0 <= i < |order| && 0 <= j < |vh| && order[i] in cache && cache[order[i]].kind == kind &&
          vh[j] in cache[order[i]].blobs
          ensures ScanCache(kind, cache, order, vh, result).0[j].Some? {
          if i > 0 {
            assert order[i] == order[1..][i - 1];
          }
        }
      }
    }
  }

  /** The second phase: sidecars read from disk, in order, fill only positions still empty. */
  function FillFromDisk(kind: SidecarKind, found: seq<(TxHash, Sidecar)>, vh: seq<B256>,
                        result: seq<Option<Blob>>): (r: seq<Option<Blob>>)
    requires |result| == |vh|
    ensures |r| == |vh|
    ensures forall j :: 0 <= j < |vh| && result[j].Some? ==> r[j] == result[j]
    decreases |found|
  {
    if found == [] then result
    else
      var before := FillFromDisk(kind, found[..|found| - 1], vh, result);
      var sc := found[|found| - 1].1;
      if sc.kind == kind then MatchInto(before, sc, vh, false) else before
  }

  /** Disk fills come from the sidecars read, and every position they can fill is filled. */
  lemma {:induction false} FillFromDiskSpec(kind: SidecarKind, found: seq<(TxHash, Sidecar)>, vh: seq<B256>,
                                            result: seq<Option<Blob>>)
    requires |result| == |vh|
    ensures var r := FillFromDisk(kind, found, vh, result);
      (forall j :: 0 <= j < |vh| && r[j].Some? ==>
         r[j] == result[j] || exists i :: 0 <= i < |found| && Has(found[i].1, kind, vh[j], r[j].value)) &&
      (forall i, j :: 0 <= i < |found| && 0 <= j < |vh| && found[i].1.kind == kind && vh[j] in found[i].1.blobs ==>
         r[j].Some?)
    decreases |found|
  {
    if found != [] {
      var init := found[..|found| - 1];
      FillFromDiskSpec(kind, init, vh, result);
      var before := FillFromDisk(kind, init, vh, result);
      var n := |found| - 1;
      var r := FillFromDisk(kind, found, vh, result);
      forall j | 0 <= j < |vh| && r[j].Some? && r[j] != result[j]
        ensures exists i :: 0 <= i < |found| && Has(found[i].1, kind, vh[j], r[j].value) {
        if r[j] == before[j] {
          var i :| 0 <= i < |init| && Has(init[i].1, kind, vh[j], r[j].value);
          assert found[i] == init[i];
        } else {
          assert Has(found[n].1, kind, vh[j], r[j].value);
        }
      }
      forall i, j | 0 <= i < |found| && 0 <= j < |vh| && found[i].1.kind == kind && vh[j] in found[i].1.blobs
        ensures r[j].Some? {
        if i < n {
          assert found[i] == init[i];
        }
      }
    }
  }

  /** The transactions the index names for the positions still empty, in position order. */
  function MissingTxs(index: map<B256, TxHash>, vh: seq<B256>, result: seq<Option<Blob>>): (r: seq<TxHash>)
    requires |result| == |vh|
    ensures forall j :: 0 <= j < |vh| && result[j].None? && vh[j] in index ==> index[vh[j]] in r
    decreases |vh|
  {
    if vh == [] then []
    else
      var n := |vh| - 1;
      MissingTxs(index, vh[..n], result[..n]) + (if result[n].None? && vh[n] in index then [index[vh[n]]] else [])
  }

  /**
   The lookup shared by `get_by_versioned_hashes_v1` (EIP-4844 sidecars)
   and `_v2` (EIP-7594 sidecars): the cache scan, then, for the positions
   still empty, the transactions the versioned-hash index names, read from
   disk. Nothing is cached by this lookup.
   */
  function Lookup(io: Io, s: Store, kind: SidecarKind, order: seq<TxHash>, vh: seq<B256>): (r: seq<Option<Blob>>)
    ensures |r| == |vh|
  {
    var (scanned, done) := ScanCache(kind, s.cache, order, vh, Nones(|vh|));
    if done then scanned
    else
      var missing := MissingTxs(s.versionedToTx, vh, scanned);
      if missing == [] then scanned
      else FillFromDisk(kind, ReadManyDecoded(io, s.disk, missing), vh, scanned)
  }

  /**
   What the lookup returns, position by position: a position the cache scan
   filled keeps that blob; every blob returned is held under that versioned
   hash by a cached sidecar or a readable file of the wanted kind; a position
   is filled whenever a cached sidecar in the iteration order holds its hash,
   or the index names a readable file whose sidecar holds it.
   */
  lemma LookupSpec(io: Io, s: Store, kind: SidecarKind, order: seq<TxHash>, vh: seq<B256>)
    ensures var r := Lookup(io, s, kind, order, vh);
      var scanned := ScanCache(kind, s.cache, order, vh, Nones(|vh|)).0;
      (forall j :: 0 <= j < |vh| && scanned[j].Some? ==> r[j] == scanned[j]) &&
      (forall j :: 0 <= j < |vh| && r[j].Some? ==>
         CachedBlob(s.cache, kind, vh[j], r[j].value) || DiskBlob(io, s.disk, kind, vh[j], r[j].value)) &&
      (forall i, j :: (0 <= i < |order| && 0 <= j < |vh| && order[i] in s.cache && s.cache[order[i]].kind == kind &&
                       vh[j] in s.cache[order[i]].blobs) ==> r[j].Some?) &&
      (forall j :: (0 <= j < |vh| && vh[j] in s.versionedToTx && Readable(io, s.disk, s.versionedToTx[vh[j]]) &&
                    io.decode(s.disk[s.versionedToTx[vh[j]]]).value.kind == kind &&
                    vh[j] in io.decode(s.disk[s.versionedToTx[vh[j]]]).value.blobs) ==> r[j].Some?)
  {
    LookupSound(io, s, kind, order, vh);
    LookupComplete(io, s, kind, order, vh);
  }

  lemma LookupSound(io: Io, s: Store, kind: SidecarKind, order: seq<TxHash>, vh: seq<B256>)
    ensures var r := Lookup(io, s, kind, order, vh);
      var scanned := ScanCache(kind, s.cache, order, vh, Nones(|vh|)).0;
      (forall j :: 0 <= j < |vh| && scanned[j].Some? ==> r[j] == scanned[j]) &&
      (forall j :: 0 <= j < |vh| && r[j].Some? ==>
         CachedBlob(s.cache, kind, vh[j], r[j].value) || DiskBlob(io, s.disk, kind, vh[j], r[j].value))
  {
    var start := Nones(|vh|);
    var (scanned, done) := ScanCache(kind, s.cache, order, vh, start);
    ScanCacheSpec(kind, s.cache, order, vh, start);
    if !done {
      var missing := MissingTxs(s.versionedToTx, vh, scanned);
      var found := ReadManyDecoded(io, s.disk, missing);
      FillFromDiskSpec(kind, found, vh, scanned);
      var r := Lookup(io, s, kind, order, vh);
      forall j | 0 <= j < |vh| && r[j].Some? && r[j] != scanned[j]
        ensures DiskBlob(io, s.disk, kind, vh[j], r[j].value) {
        var i :| 0 <= i < |found| && Has(found[i].1, kind, vh[j], r[j].value);
        assert Readable(io, s.disk, found[i].0);
      }
    }
  }

  lemma LookupComplete(io: Io, s: Store, kind: SidecarKind, order: seq<TxHash>, vh: seq<B256>)
    ensures var r := Lookup(io, s, kind, order, vh);
      (forall i, j :: (0 <= i < |order| && 0 <= j < |vh| && order[i] in s.cache && s.cache[order[i]].kind == kind &&
                       vh[j] in s.cache[order[i]].blobs) ==> r[j].Some?) &&
      (forall j :: (0 <= j < |vh| && vh[j] in s.versionedToTx && Readable(io, s.disk, s.versionedToTx[vh[j]]) &&
                    io.decode(s.disk[s.versionedToTx[vh[j]]]).value.kind == kind &&
                    vh[j] in io.decode(s.disk[s.versionedToTx[vh[j]]]).value.blobs) ==> r[j].Some?)
  {
    var start := Nones(|vh|);
    var (scanned, done) := ScanCache(kind, s.cache, order, vh, start);
    ScanCacheSpec(kind, s.cache, order, vh, start);
    if !done {
      var missing := MissingTxs(s.versionedToTx, vh, scanned);
      var found := ReadManyDecoded(io, s.disk, missing);
      FillFromDiskSpec(kind, found, vh, scanned);
      var r := Lookup(io, s, kind, order, vh);
      forall j | 0 <= j < |vh| && vh[j] in s.versionedToTx && Readable(io, s.disk, s.versionedToTx[vh[j]]) &&
         io.decode(s.disk[s.versionedToTx[vh[j]]]).value.kind == kind &&
         vh[j] in io.decode(s.disk[s.versionedToTx[vh[j]]]).value.blobs
        ensures r[j].Some? {
        var t := s.versionedToTx[vh[j]];
        if scanned[j].None? {
          assert t in missing;
          assert t in TxsOf(found);
          var i :| 0 <= i < |found| && found[i].0 == t;
        }
      }
    }
  }

  /**
   `get_by_versioned_hashes_v1`: one entry per requested hash, in request
   order, `None` where no EIP-4844 blob was found.
   */
  function GetByVersionedHashesV1(io: Io, s: Store, order: seq<TxHash>, vh: seq<B256>): (r: seq<Option<Blob>>)
    ensures |r| == |vh|
    ensures forall j :: 0 <= j < |vh| && r[j].Some? ==>
      CachedBlob(s.cache, Eip4844, vh[j], r[j].value) || DiskBlob(io, s.disk, Eip4844, vh[j], r[j].value)
  {
    LookupSpec(io, s, Eip4844, order, vh);
    Lookup(io, s, Eip4844, order, vh)
  }

  /**
   `get_by_versioned_hashes_v2`: all or nothing. The blobs for every
   requested hash, in request order, when EIP-7594 blobs were found for all
   of them; `None` as soon as one is missing.
   */
  function GetByVersionedHashesV2(io: Io, s: Store, order: seq<TxHash>, vh: seq<B256>): (r: Option<seq<Blob>>)
    ensures r.Some? <==> AllSome(Lookup(io, s, Eip7594, order, vh))
    ensures r.Some? ==> |r.value| == |vh|
    ensures r.Some? ==> forall j :: 0 <= j < |vh| ==>
      CachedBlob(s.cache, Eip7594, vh[j], r.value[j]) || DiskBlob(io, s.disk, Eip7594, vh[j], r.value[j])
  {
    var found := Lookup(io, s, Eip7594, order, vh);
    LookupSpec(io, s, Eip7594, order, vh);
    if AllSome(found) then Some(seq(|found|, j requires 0 <= j < |found| => found[j].value)) else None
  }

  /** A stored sidecar is served from the cache right away. */
  lemma InsertThenGet(io: Io, s: Store, tx: TxHash, data: Sidecar)
    ensures GetOne(io, InsertOne(io, s, tx, data).0, tx).1 == Ok(Some(data))
  {
  }

  /**
   Once the cache has dropped a stored sidecar it is read back from its
   file, provided the file is new, its write and read succeed and the codec
   round-trips; the read puts it back into the cache.
   */
  lemma InsertEvictThenGet(io: Io, s: Store, tx: TxHash, data: Sidecar)
    requires tx !in s.disk && tx !in io.writeFails && tx !in io.readFails
    requires io.decode(io.encode(data)) == Some(data)
    ensures var s1 := InsertOne(io, s, tx, data).0;
      GetOne(io, Evict(s1, tx), tx) == (s1, Ok(Some(data)))
  {
    var s1 := InsertOne(io, s, tx, data).0;
    assert s1.disk == s.disk[tx := io.encode(data)];
    var e := s1.(cache := s1.cache - {tx});
    assert Evict(s1, tx) == e;
    assert ReadOne(io, e.disk, tx) == Ok(Some(data));
    assert (s1.cache - {tx})[tx := data] == s1.cache;
  }

  /**
   The index keeps an inserted sidecar reachable by hash: once the cache
   has dropped it, a lookup by versioned hash still finds every blob of it,
   through the index entry and the file, provided the file is new, its
   write and read succeed and the codec round-trips.
   */
  lemma InsertEvictThenLookup(io: Io, s: Store, tx: TxHash, data: Sidecar, order: seq<TxHash>, vh: seq<B256>)
    requires tx !in s.disk && tx !in io.writeFails && tx !in io.readFails
    requires io.decode(io.encode(data)) == Some(data)
    ensures var s1 := Evict(InsertOne(io, s, tx, data).0, tx);
      forall j :: 0 <= j < |vh| && vh[j] in data.blobs ==> Lookup(io, s1, data.kind, order, vh)[j].Some?
  {
    var s1 := Evict(InsertOne(io, s, tx, data).0, tx);
    assert s1.disk == s.disk[tx := io.encode(data)];
    assert Readable(io, s1.disk, tx);
    LookupSpec(io, s1, data.kind, order, vh);
  }

  /** The sidecars of a batch, in batch order. */
  function SidecarsOf(pairs: seq<(TxHash, Sidecar)>): (r: seq<Sidecar>)
    ensures |r| == |pairs| && forall i :: 0 <= i < |r| ==> r[i] == pairs[i].1
  {
    seq(|pairs|, i requires 0 <= i < |pairs| => pairs[i].1)
  }

  /**
   A batch of distinct transactions, once inserted, is served back from the
   cache: each one alone, and all of them together, in batch order.
   */
  lemma InsertAllThenGet(io: Io, s: Store, txs: seq<(TxHash, Sidecar)>)
    requires forall i, j :: 0 <= i < j < |txs| ==> txs[i].0 != txs[j].0
    ensures var r := InsertAll(io, s, txs);
      (forall i :: 0 <= i < |txs| ==> GetOne(io, r, txs[i].0).1 == Ok(Some(txs[i].1))) &&
      GetExact(io, r, TxsOf(txs)).1 == Ok(SidecarsOf(txs))
  {
    var r := InsertAll(io, s, txs);
    assert forall i :: 0 <= i < |txs| ==> LastFor(txs, i);
    var got := GetExact(io, r, TxsOf(txs)).1;
    assert got.Ok? by {
      forall t | t in TxsOf(txs) ensures t in r.cache {
        var i :| 0 <= i < |txs| && TxsOf(txs)[i] == t;
      }
    }
    assert got.value == SidecarsOf(txs);
  }

  /**
   A transaction that was never inserted makes a lookup of it together with
   an inserted one fail, naming the missing transaction.
   */
  lemma InsertAllThenGetMissing(io: Io, s: Store, txs: seq<(TxHash, Sidecar)>, missing: TxHash)
    requires txs != [] && !Contains(s, missing) && missing !in TxsOf(txs)
    ensures GetExact(io, InsertAll(io, s, txs), [txs[0].0, missing]).1 == Err(MissingSidecar(missing))
  {
    var r := InsertAll(io, s, txs);
    assert !Contains(r, missing);
    assert txs[0].0 in r.cache;
    assert Served(io, r, [txs[0].0, missing][..1]);
  }

  /**
   Deferred deletion: a deleted transaction stays readable from the cache
   after `cleanup` removed its file.
   */
  lemma DeletedStaysCached(io: Io, s: Store, tx: TxHash, data: Sidecar)
    ensures var s1 := InsertOne(io, s, tx, data).0;
      var s2 := Cleanup(io, Delete(s1, tx)).0;
      GetOne(io, s2, tx).1 == Ok(Some(data)) && (tx !in io.removeFails ==> tx !in s2.disk)
  {
    var s1 := InsertOne(io, s, tx, data).0;
    var d := Delete(s1, tx);
    assert tx in d.toDelete;
  }

  /**
   Deleting every stored transaction, dropping the cache and cleaning up,
   with no removal failing, empties the store: every file is removed and
   counted as removed, the size and count are zero, and no lookup finds
   anything.
   */
  lemma DeleteAllCleanup(io: Io, s: Store, txs: seq<TxHash>)
    requires Inv(s)
    requires forall t :: t in s.disk ==> t in txs && t !in io.removeFails
    ensures var (s2, stat) := Cleanup(io, DeleteAll(s, txs).(cache := map[]));
      s2.disk == map[] && stat.deleteSucceed == |s.disk| && BlobsLen(s2) == 0 && DataSizeHint(s2) == Some(0) &&
      forall t :: GetOne(io, s2, t) == (s2, Ok(None))
  {
    var d := DeleteAll(s, txs).(cache := map[]);
    assert Inv(d);
    var (s2, stat) := Cleanup(io, d);
    assert Removable(io, d.disk, d.toDelete) == s.disk.Keys by {
      forall t | t in s.disk ensures t in d.toDelete {
        assert Contains(s, t);
      }
    }
    assert s2.disk == map[];
    assert TotalSize(s2.disk) == 0;
  }
}
