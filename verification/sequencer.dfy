/**
 The proof sequencer of the state root task: a reorder buffer that hands out
 sequence numbers in arrival order and releases completed proofs only as a
 contiguous ascending run starting at the next number to deliver.

 `U` stands for the buffered payload (a sparse trie update in the task).
 */
module ProofSequencer {

  import opened Wrappers

  datatype Sequencer<U> = Sequencer(
    nextSequence: nat,          // next number handed out by `NextSequence`
    nextToDeliver: nat,         // next number the consumer is waiting for
    pending: map<nat, U>)       // completions that arrived ahead of a gap

  /** A completion as it arrives at the sequencer. */
  datatype Arrival<U> = Arrival(sequence: nat, update: U)

  function New<U>(): Sequencer<U>
  {
    Sequencer(0, 0, map[])
  }

  /**
   The buffer invariant `add_proof` maintains: every buffered number lies
   strictly beyond the next one to deliver (that one is never left waiting).
   */
  predicate Valid<U>(s: Sequencer<U>)
  {
    forall k :: k in s.pending ==> k > s.nextToDeliver
  }

  /** Hands out the next sequence number and advances the counter. */
  function NextSequence<U>(s: Sequencer<U>): (r: (Sequencer<U>, nat))
    ensures r.1 == s.nextSequence
    ensures r.0.nextSequence == r.1 + 1
    ensures r.0.nextToDeliver == s.nextToDeliver && r.0.pending == s.pending
  {
    (s.(nextSequence := s.nextSequence + 1), s.nextSequence)
  }

  /** Draws `n` sequence numbers in a row, returning them in the order drawn. */
  function IssueMany<U>(s: Sequencer<U>, n: nat): (r: (Sequencer<U>, seq<nat>))
    decreases n
  {
    if n == 0 then (s, [])
    else
      var (s1, k) := NextSequence(s);
      var (s2, ks) := IssueMany(s1, n - 1);
      (s2, [k] + ks)
  }

  /** `n` calls of `NextSequence` yield consecutive numbers, so none is reused. */
  lemma {:induction false} IssueManyConsecutive<U>(s: Sequencer<U>, n: nat)
    ensures |IssueMany(s, n).1| == n
    ensures forall i :: 0 <= i < n ==> IssueMany(s, n).1[i] == s.nextSequence + i
    ensures IssueMany(s, n).0.nextSequence == s.nextSequence + n
    ensures Distinct(IssueMany(s, n).1)
    decreases n
  {
    if n > 0 {
      var (s1, k) := NextSequence(s);
      IssueManyConsecutive(s1, n - 1);
    }
  }

  /** The buffer after an arrival is recorded: numbers already delivered are dropped. */
  function Buffered<U>(s: Sequencer<U>, sequence: nat, update: U): map<nat, U>
  {
    if sequence >= s.nextToDeliver then s.pending[sequence := update] else s.pending
  }

  /** The buffer without the numbers `k .. k + n - 1`. */
  function RemoveRange<U>(p: map<nat, U>, k: nat, n: nat): (q: map<nat, U>)
    ensures forall x :: x in q <==> x in p && !(k <= x < k + n)
    ensures forall x :: x in q ==> q[x] == p[x]
  {
    map x | x in p && !(k <= x < k + n) :: p[x]
  }

  /**
   The collection loop of `add_proof`: takes entries `k`, `k + 1`, ... out of
   the buffer while they are present. Returns the run and what stays buffered.
   */
  function Drain<U>(p: map<nat, U>, k: nat): (r: (seq<U>, map<nat, U>))
    ensures forall j :: k <= j < k + |r.0| ==> j in p && r.0[j - k] == p[j]
    ensures k + |r.0| !in p
    ensures r.1 == RemoveRange(p, k, |r.0|)
    decreases |p|
  {
    if k !in p then ([], p)
    else
      var d := Drain(p - {k}, k + 1);
      ConsRun(p, k, d.0);
      assert d.1.Keys == RemoveRange(p, k, |d.0| + 1).Keys;
      ([p[k]] + d.0, d.1)
  }

  /** Prepending the entry at `k` to a run that starts at `k + 1`. */
  lemma ConsRun<U>(p: map<nat, U>, k: nat, run: seq<U>)
    requires k in p
    requires forall j :: k + 1 <= j < k + 1 + |run| ==> j in p - {k} && run[j - (k + 1)] == (p - {k})[j]
    ensures forall j :: k <= j < k + 1 + |run| ==> j in p && ([p[k]] + run)[j - k] == p[j]
  {
    forall j | k <= j < k + 1 + |run|
      ensures j in p && ([p[k]] + run)[j - k] == p[j]
    {
      if j > k {
        assert j in p - {k} && run[j - (k + 1)] == (p - {k})[j];
        assert ([p[k]] + run)[j - k] == run[j - (k + 1)];
      }
    }
  }

  /**
   `add_proof`: records an arrival and returns every update that has become
   deliverable, in sequence order.
   */
  function AddProof<U>(s: Sequencer<U>, sequence: nat, update: U): (r: (Sequencer<U>, seq<U>))
    // the result is the maximal buffered run at `nextToDeliver`, in ascending order
    ensures forall j :: s.nextToDeliver <= j < s.nextToDeliver + |r.1| ==>
      j in Buffered(s, sequence, update) && r.1[j - s.nextToDeliver] == Buffered(s, sequence, update)[j]
    ensures s.nextToDeliver + |r.1| !in Buffered(s, sequence, update)
    // the run leaves the buffer and the delivery counter moves past it
    ensures r.0.pending == RemoveRange(Buffered(s, sequence, update), s.nextToDeliver, |r.1|)
    ensures r.0.nextToDeliver == s.nextToDeliver + |r.1|
    ensures r.0.nextSequence == s.nextSequence
    ensures Valid(s) ==> Valid(r.0)
    // a number already delivered is discarded without any effect
    ensures Valid(s) && sequence < s.nextToDeliver ==> r == (s, [])
    // a number beyond a gap is only buffered
    ensures Valid(s) && sequence > s.nextToDeliver ==>
      r.1 == [] && r.0 == s.(pending := s.pending[sequence := update])
    // the awaited number is released at once, at the head of the run
    ensures sequence == s.nextToDeliver ==> |r.1| >= 1 && r.1[0] == update
  {
    var p := Buffered(s, sequence, update);
    if s.nextToDeliver !in p then
      (s.(pending := p), [])
    else
      var d := Drain(p, s.nextToDeliver);
      assert Valid(s) ==> forall x :: x in p ==> x >= s.nextToDeliver;
      assert s.nextToDeliver in p && d.0[s.nextToDeliver - s.nextToDeliver] == p[s.nextToDeliver];
      (s.(pending := d.1, nextToDeliver := s.nextToDeliver + |d.0|), d.0)
  }

  /** `has_pending`. */
  predicate HasPending<U>(s: Sequencer<U>)
  {
    s.pending != map[]
  }

  /**
   Feeds a sequence of arrivals to the sequencer, one `add_proof` call each,
   and concatenates everything released.
   */
  function Deliver<U>(s: Sequencer<U>, arrivals: seq<Arrival<U>>): (r: (Sequencer<U>, seq<U>))
    // whatever the arrival order, the releases form one contiguous ascending
    // run of numbers starting where delivery stood
    ensures r.0.nextToDeliver == s.nextToDeliver + |r.1|
    ensures Valid(s) ==> Valid(r.0)
    decreases |arrivals|
  {
    if |arrivals| == 0 then (s, [])
    else
      var last := arrivals[|arrivals| - 1];
      var (s1, out1) := Deliver(s, arrivals[..|arrivals| - 1]);
      var (s2, out2) := AddProof(s1, last.sequence, last.update);
      (s2, out1 + out2)
  }

  /** The sequence numbers that occur among the arrivals. */
  function Numbers<U>(arrivals: seq<Arrival<U>>): set<nat>
  {
    set i | 0 <= i < |arrivals| :: arrivals[i].sequence
  }

  predicate DistinctNumbers<U>(arrivals: seq<Arrival<U>>)
  {
    forall i, j :: 0 <= i < j < |arrivals| ==> arrivals[i].sequence != arrivals[j].sequence
  }

  /** The update that arrived with number `k` (the first one, if any). */
  function UpdateOf<U>(arrivals: seq<Arrival<U>>, k: nat): U
    requires k in Numbers(arrivals)
  {
    if arrivals[0].sequence == k then arrivals[0].update
    else
      assert k in Numbers(arrivals[1..]) by {
        var i :| 0 <= i < |arrivals| && arrivals[i].sequence == k;
        assert arrivals[1..][i - 1].sequence == k;
      }
      UpdateOf(arrivals[1..], k)
  }

  /** `UpdateOf` does not change when further arrivals are appended. */
  lemma {:induction false} UpdateOfAppend<U>(arrivals: seq<Arrival<U>>, a: Arrival<U>, k: nat)
    requires k in Numbers(arrivals)
    ensures k in Numbers(arrivals + [a])
    ensures UpdateOf(arrivals + [a], k) == UpdateOf(arrivals, k)
  {
    var i :| 0 <= i < |arrivals| && arrivals[i].sequence == k;
    assert (arrivals + [a])[i].sequence == k;
    if arrivals[0].sequence != k {
      assert (arrivals + [a])[1..] == arrivals[1..] + [a];
      assert k in Numbers(arrivals[1..]) by {
        assert arrivals[1..][i - 1].sequence == k;
      }
      UpdateOfAppend(arrivals[1..], a, k);
    }
  }

  /** With distinct numbers, the number of the final arrival maps to its update. */
  lemma {:induction false} UpdateOfLast<U>(arrivals: seq<Arrival<U>>, a: Arrival<U>)
    requires a.sequence !in Numbers(arrivals)
    ensures a.sequence in Numbers(arrivals + [a])
    ensures UpdateOf(arrivals + [a], a.sequence) == a.update
  {
    assert (arrivals + [a])[|arrivals|].sequence == a.sequence;
    if |arrivals| > 0 {
      assert arrivals[0].sequence in Numbers(arrivals);
      assert (arrivals + [a])[1..] == arrivals[1..] + [a];
      NumbersTail(arrivals);
      UpdateOfLast(arrivals[1..], a);
    }
  }

  lemma NumbersTail<U>(arrivals: seq<Arrival<U>>)
    requires |arrivals| > 0
    ensures Numbers(arrivals[1..]) <= Numbers(arrivals)
  {
    forall k | k in Numbers(arrivals[1..]) ensures k in Numbers(arrivals) {
      var i :| 0 <= i < |arrivals[1..]| && arrivals[1..][i].sequence == k;
      assert arrivals[i + 1].sequence == k;
    }
  }

  lemma NumbersSnoc<U>(arrivals: seq<Arrival<U>>, a: Arrival<U>)
    ensures Numbers(arrivals + [a]) == Numbers(arrivals) + {a.sequence}
  {
    var all := arrivals + [a];
    forall k | k in Numbers(all) ensures k in Numbers(arrivals) + {a.sequence} {
      var i :| 0 <= i < |all| && all[i].sequence == k;
      if i < |arrivals| {
        assert arrivals[i].sequence == k;
      }
    }
    forall k | k in Numbers(arrivals) ensures k in Numbers(all) {
      var i :| 0 <= i < |arrivals| && arrivals[i].sequence == k;
      assert all[i].sequence == k;
    }
    assert all[|arrivals|].sequence == a.sequence;
  }

  /**
   What holds after a prefix of distinct arrivals numbered from `b`, starting
   from an empty buffer waiting for `b`.
   */
  ghost predicate DeliveryState<U>(b: nat, arrivals: seq<Arrival<U>>, s: Sequencer<U>, out: seq<U>)
  {
    && Valid(s)
    && s.nextToDeliver == b + |out|
    && s.nextToDeliver !in Numbers(arrivals)
    && (forall k :: b <= k < s.nextToDeliver ==> k in Numbers(arrivals))
    && (forall k :: k in s.pending <==> k in Numbers(arrivals) && k > s.nextToDeliver)
    && (forall k :: k in s.pending ==> k in Numbers(arrivals) && s.pending[k] == UpdateOf(arrivals, k))
    && (forall j :: b <= j < b + |out| ==> j in Numbers(arrivals) && out[j - b] == UpdateOf(arrivals, j))
  }

  /** One further `add_proof` with a fresh number keeps `DeliveryState`. */
  lemma DeliveryStep<U>(b: nat, arrivals: seq<Arrival<U>>, s: Sequencer<U>, out: seq<U>, a: Arrival<U>)
    requires DeliveryState(b, arrivals, s, out)
    requires a.sequence !in Numbers(arrivals) && a.sequence >= b
    ensures DeliveryState(b, arrivals + [a], AddProof(s, a.sequence, a.update).0,
                          out + AddProof(s, a.sequence, a.update).1)
  {
    var all := arrivals + [a];
    var x := a.sequence;
    NumbersSnoc(arrivals, a);
    UpdateOfLast(arrivals, a);
    forall k | k in Numbers(arrivals)
      ensures UpdateOf(all, k) == UpdateOf(arrivals, k)
    {
      UpdateOfAppend(arrivals, a, k);
    }
    assert x >= s.nextToDeliver;
    var p := Buffered(s, x, a.update);
    assert forall k :: k in p <==> k in Numbers(all) && k >= s.nextToDeliver;
    assert forall k :: k in p ==> p[k] == UpdateOf(all, k);
    var (s', run) := AddProof(s, x, a.update);
    var out' := out + run;
    forall j | b <= j < b + |out'|
      ensures j in Numbers(all) && out'[j - b] == UpdateOf(all, j)
    {
      if j < b + |out| {
        assert out'[j - b] == out[j - b];
      } else {
        assert j in p && run[j - s.nextToDeliver] == p[j];
      }
    }
  }

  lemma {:induction false} DeliverInvariant<U>(s: Sequencer<U>, arrivals: seq<Arrival<U>>)
    requires s.pending == map[]
    requires DistinctNumbers(arrivals)
    requires forall k :: k in Numbers(arrivals) ==> k >= s.nextToDeliver
    ensures DeliveryState(s.nextToDeliver, arrivals, Deliver(s, arrivals).0, Deliver(s, arrivals).1)
    decreases |arrivals|
  {
    if |arrivals| > 0 {
      var n := |arrivals|;
      var init := arrivals[..n - 1];
      var a := arrivals[n - 1];
      assert arrivals == init + [a];
      NumbersSnoc(init, a);
      forall k | k in Numbers(init) ensures k != a.sequence {
        var i :| 0 <= i < |init| && init[i].sequence == k;
        assert arrivals[i].sequence == k;
      }
      DeliverInvariant(s, init);
      DeliveryStep(s.nextToDeliver, init, Deliver(s, init).0, Deliver(s, init).1, a);
    }
  }

  /**
   Exactly-once in-order delivery: if the numbers `b .. b + n - 1` each arrive
   once, in any order, into an empty buffer waiting for `b`, then all `n`
   updates are released, each number's update at its own position, and the
   buffer ends empty.
   */
  lemma DeliverPermutation<U>(s: Sequencer<U>, arrivals: seq<Arrival<U>>, n: nat)
    requires s.pending == map[]
    requires DistinctNumbers(arrivals)
    requires forall k :: k in Numbers(arrivals) <==> s.nextToDeliver <= k < s.nextToDeliver + n
    ensures |Deliver(s, arrivals).1| == n
    ensures Deliver(s, arrivals).0.nextToDeliver == s.nextToDeliver + n
    ensures Deliver(s, arrivals).0.pending == map[]
    ensures forall j :: s.nextToDeliver <= j < s.nextToDeliver + n ==>
      j in Numbers(arrivals) && Deliver(s, arrivals).1[j - s.nextToDeliver] == UpdateOf(arrivals, j)
  {
    DeliverInvariant(s, arrivals);
    var (s', out) := Deliver(s, arrivals);
    var b := s.nextToDeliver;
    assert b + n !in Numbers(arrivals);
    assert s'.nextToDeliver == b + n;
    assert s'.pending.Keys == {};
  }

  /**
   The same arrivals fed one `add_proof` call at a time from the front: the
   sequencer at the end and the run each call released, in arrival order.
   */
  function ReleaseAll<U>(s: Sequencer<U>, arrivals: seq<Arrival<U>>): (r: (Sequencer<U>, seq<seq<U>>))
    ensures |r.1| == |arrivals|
    decreases |arrivals|
  {
    if arrivals == [] then (s, [])
    else
      var (s1, run) := AddProof(s, arrivals[0].sequence, arrivals[0].update);
      var (s2, runs) := ReleaseAll(s1, arrivals[1..]);
      (s2, [run] + runs)
  }

  /** The runs joined end to end. */
  function Flatten<U>(runs: seq<seq<U>>): seq<U>
    decreases |runs|
  {
    if runs == [] then [] else runs[0] + Flatten(runs[1..])
  }

  /** Feeding the first arrival and then the rest is feeding them all. */
  lemma {:induction false} DeliverCons<U>(s: Sequencer<U>, a: Arrival<U>, rest: seq<Arrival<U>>)
    ensures Deliver(s, [a] + rest).0 == Deliver(AddProof(s, a.sequence, a.update).0, rest).0
    ensures Deliver(s, [a] + rest).1 == AddProof(s, a.sequence, a.update).1 + Deliver(AddProof(s, a.sequence, a.update).0, rest).1
    decreases |rest|
  {
    var first := AddProof(s, a.sequence, a.update);
    if rest == [] {
      DeliverSnoc(s, [], a);
      assert [] + [a] == [a] + rest;
      assert first.1 + [] == first.1;
    } else {
      var init, z := rest[..|rest| - 1], rest[|rest| - 1];
      assert rest == init + [z];
      assert [a] + rest == ([a] + init) + [z];
      DeliverCons(s, a, init);
      DeliverSnoc(s, [a] + init, z);
      DeliverSnoc(first.0, init, z);
      var d := Deliver(first.0, init);
      ConcatAssoc(first.1, d.1, AddProof(d.0, z.sequence, z.update).1);
    }
  }

  /** `Deliver` feeds its last arrival after all the others. */
  lemma DeliverSnoc<U>(s: Sequencer<U>, xs: seq<Arrival<U>>, z: Arrival<U>)
    ensures Deliver(s, xs + [z]) ==
      (AddProof(Deliver(s, xs).0, z.sequence, z.update).0,
       Deliver(s, xs).1 + AddProof(Deliver(s, xs).0, z.sequence, z.update).1)
  {
    var all := xs + [z];
    assert all[..|all| - 1] == xs;
    assert all[|all| - 1] == z;
  }

  lemma ConcatAssoc<T>(a: seq<T>, b: seq<T>, c: seq<T>)
    ensures (a + b) + c == a + (b + c)
  {
  }

  /**
   Feeding from the front agrees with `Deliver`: the same final sequencer,
   and the runs released one by one, joined, are everything delivered.
   */
  lemma {:induction false} ReleaseAllDeliver<U>(s: Sequencer<U>, arrivals: seq<Arrival<U>>)
    ensures ReleaseAll(s, arrivals).0 == Deliver(s, arrivals).0
    ensures Flatten(ReleaseAll(s, arrivals).1) == Deliver(s, arrivals).1
    decreases |arrivals|
  {
    if arrivals != [] {
      var a := arrivals[0];
      var (s1, run) := AddProof(s, a.sequence, a.update);
      ReleaseAllDeliver(s1, arrivals[1..]);
      assert arrivals == [a] + arrivals[1..];
      DeliverCons(s, a, arrivals[1..]);
    }
  }

  /** `out` lists the updates of the numbers `b .. b + n - 1`, in number order. */
  ghost predicate InNumberOrder<U>(arrivals: seq<Arrival<U>>, b: nat, n: nat, out: seq<U>)
  {
    |out| == n &&
    forall j :: b <= j < b + n ==> j in Numbers(arrivals) && out[j - b] == UpdateOf(arrivals, j)
  }

  /**
   `DeliverPermutation` for arrivals fed from the front: the runs released
   one call at a time, joined, list every update once, in number order.
   */
  lemma ReleaseInOrder<U>(s: Sequencer<U>, arrivals: seq<Arrival<U>>, n: nat)
    requires s.pending == map[]
    requires DistinctNumbers(arrivals)
    requires forall k :: k in Numbers(arrivals) <==> s.nextToDeliver <= k < s.nextToDeliver + n
    ensures ReleaseAll(s, arrivals).0.nextToDeliver == s.nextToDeliver + n
    ensures ReleaseAll(s, arrivals).0.pending == map[]
    ensures InNumberOrder(arrivals, s.nextToDeliver, n, Flatten(ReleaseAll(s, arrivals).1))
  {
    ReleaseAllDeliver(s, arrivals);
    DeliverPermutation(s, arrivals, n);
  }
}

/** The arrival orders exercised by the sequencer's unit tests, as concrete traces. */
module ProofSequencerExamples {

  import opened ProofSequencer

  /** Proofs 2, 0, 1 release nothing, then [0], then [1, 2]. */
  lemma OutOfOrder()
    ensures AddProof(New<nat>(), 2, 2).1 == []
    ensures AddProof(AddProof(New<nat>(), 2, 2).0, 0, 0).1 == [0]
    ensures AddProof(AddProof(AddProof(New<nat>(), 2, 2).0, 0, 0).0, 1, 1).1 == [1, 2]
    ensures !HasPending(AddProof(AddProof(AddProof(New<nat>(), 2, 2).0, 0, 0).0, 1, 1).0)
  {
    OutOfOrderFirst();
    OutOfOrderSecond();
    OutOfOrderThird();
  }

  lemma OutOfOrderFirst()
    ensures AddProof(New<nat>(), 2, 2) == (Sequencer(0, 0, map[2 := 2]), [])
  {
    assert Buffered(New<nat>(), 2, 2) == map[2 := 2];
  }

  lemma OutOfOrderSecond()
    ensures AddProof(Sequencer(0, 0, map[2 := 2]), 0, 0) == (Sequencer(0, 1, map[2 := 2]), [0])
  {
    var p := Buffered(Sequencer(0, 0, map[2 := 2]), 0, 0);
    assert p == map[2 := 2, 0 := 0];
    assert 1 !in p;
    var r := AddProof(Sequencer(0, 0, map[2 := 2]), 0, 0);
    assert |r.1| == 1 && r.1[0] == 0;
    assert r.0.pending.Keys == {2} && r.0.pending[2] == 2;
    assert r.0.pending == map[2 := 2];
    assert r.0 == Sequencer(0, 1, map[2 := 2]);
    assert r.1 == [0];
  }

  lemma OutOfOrderThird()
    ensures AddProof(Sequencer(0, 1, map[2 := 2]), 1, 1) == (Sequencer(0, 3, map[]), [1, 2])
  {
    var p := Buffered(Sequencer(0, 1, map[2 := 2]), 1, 1);
    assert p == map[2 := 2, 1 := 1];
    assert 2 in p && 3 !in p;
    var r := AddProof(Sequencer(0, 1, map[2 := 2]), 1, 1);
    assert |r.1| == 2 && r.1[0] == p[1] && r.1[1] == p[2];
    assert r.0.pending.Keys == {};
    assert r.0 == Sequencer(0, 3, map[]);
    assert r.1 == [1, 2];
  }

  /** Proofs 4, 2, 1, 3 release nothing; proof 0 then releases all five, in order. */
  lemma BatchProcessing()
    ensures Deliver(New<nat>(), Batch()[..4]).1 == []
    ensures Deliver(New<nat>(), Batch()).1 == [0, 1, 2, 3, 4]
    ensures !HasPending(Deliver(New<nat>(), Batch()).0)
  {
    BatchHoldsBack();
    BatchReleasesAll();
  }

  lemma BatchHoldsBack()
    ensures Deliver(New<nat>(), Batch()[..4]).1 == []
  {
    var first := Batch()[..4];
    assert 0 !in Numbers(first) by {
      assert first[0].sequence == 4 && first[1].sequence == 2;
      assert first[2].sequence == 1 && first[3].sequence == 3;
    }
    DeliverInvariant(New<nat>(), first);
  }

  lemma BatchReleasesAll()
    ensures Deliver(New<nat>(), Batch()).1 == [0, 1, 2, 3, 4]
    ensures !HasPending(Deliver(New<nat>(), Batch()).0)
  {
    BatchDelivers();
    FirstFive(Deliver(New<nat>(), Batch()).1);
  }

  lemma FirstFive(out: seq<nat>)
    requires |out| == 5 && forall j :: 0 <= j < 5 ==> out[j] == j
    ensures out == [0, 1, 2, 3, 4]
  {
  }

  /** Element by element: the batch delivers position `j` as number `j`. */
  lemma BatchDelivers()
    ensures |Deliver(New<nat>(), Batch()).1| == 5
    ensures forall j :: 0 <= j < 5 ==> Deliver(New<nat>(), Batch()).1[j] == j
    ensures !HasPending(Deliver(New<nat>(), Batch()).0)
  {
    var arrivals := Batch();
    BatchShape();
    DeliverPermutation(New<nat>(), arrivals, 5);
    var out := Deliver(New<nat>(), arrivals).1;
    forall j | 0 <= j < 5 ensures out[j] == j {
      UpdateOfIsNumber(arrivals, j);
    }
  }

  /** The batch carries each number of 0 .. 4 once, with the number as its update. */
  lemma BatchShape()
    ensures DistinctNumbers(Batch())
    ensures forall k :: k in Numbers(Batch()) <==> 0 <= k < 5
    ensures forall i :: 0 <= i < |Batch()| ==> Batch()[i].update == Batch()[i].sequence
  {
    var arrivals := Batch();
    assert Numbers(arrivals) == {0, 1, 2, 3, 4} by {
      assert arrivals[0].sequence == 4 && arrivals[1].sequence == 2 && arrivals[2].sequence == 1;
      assert arrivals[3].sequence == 3 && arrivals[4].sequence == 0;
    }
  }

  function Batch(): seq<Arrival<nat>>
  {
    [Arrival(4, 4), Arrival(2, 2), Arrival(1, 1), Arrival(3, 3), Arrival(0, 0)]
  }

  lemma {:induction false} UpdateOfIsNumber(arrivals: seq<Arrival<nat>>, k: nat)
    requires forall i :: 0 <= i < |arrivals| ==> arrivals[i].update == arrivals[i].sequence
    requires k in Numbers(arrivals)
    ensures UpdateOf(arrivals, k) == k
  {
    if arrivals[0].sequence != k {
      assert k in Numbers(arrivals[1..]) by {
        var i :| 0 <= i < |arrivals| && arrivals[i].sequence == k;
        assert arrivals[1..][i - 1].sequence == k;
      }
      UpdateOfIsNumber(arrivals[1..], k);
    }
  }

  /** A number delivered twice is dropped the second time. */
  lemma DuplicateSequence()
    ensures AddProof(New<nat>(), 0, 0).1 == [0]
    ensures AddProof(AddProof(New<nat>(), 0, 0).0, 0, 7) == (AddProof(New<nat>(), 0, 0).0, [])
    ensures !HasPending(AddProof(New<nat>(), 0, 0).0)
  {
    var p := Buffered(New<nat>(), 0, 0);
    assert p == map[0 := 0] && 1 !in p;
  }
}
