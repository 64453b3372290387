/**
 * A reference model of `MstState`, the set of pending multi-signature
 * batches one replica knows of.  Its implementation is not part of this
 * model; what is here is the simplest state the storage can be stated
 * against: a map from batch hash to the batch's signatures, creation time
 * and transaction hashes, with completeness and expiry decided by an
 * injected completer.
 */
module MstState {

  type BatchHash = string
  type TxHash = string
  type Signer = string
  type Time = int

  /** One pending batch: who has signed it, when it was created, which transactions it holds. */
  datatype BatchState = BatchState(signatures: set<Signer>, createdAt: Time, txHashes: set<TxHash>)

  /**
   * The completer: the quorum rule, and the expiry rule, which judges a
   * batch by its creation time against the current time; both are
   * supplied from outside.
   */
  datatype Completer = Completer(isComplete: BatchState -> bool, isExpired: (Time, Time) -> bool)

  /** One replica's pending batches, keyed by batch hash. */
  type State = map<BatchHash, BatchState>

  /** `MstState::empty`. */
  function Empty(): State
  {
    map[]
  }

  /** The signatures `s` knows for batch `id`; none when it does not track it. */
  function Sigs(s: State, id: BatchHash): set<Signer>
  {
    if id in s then s[id].signatures else {}
  }

  /** Two views of one batch merged: the signatures united, the receiver's other fields kept. */
  function MergeBatch(a: BatchState, b: BatchState): BatchState
  {
    a.(signatures := a.signatures + b.signatures)
  }

  /** Every batch of either state, with the signatures both know for it united. */
  function Combined(s: State, t: State): (r: State)
    ensures r.Keys == s.Keys + t.Keys
    ensures forall id :: id in r ==> r[id].signatures == Sigs(s, id) + Sigs(t, id)
    ensures forall id :: id in r ==>
              r[id].createdAt == (if id in s then s[id] else t[id]).createdAt
              && r[id].txHashes == (if id in s then s[id] else t[id]).txHashes
  {
    map id | id in s.Keys + t.Keys ::
      if id in s && id in t then MergeBatch(s[id], t[id]) else if id in s then s[id] else t[id]
  }

  /** What `+=` leaves in the receiver and the batches it completed. */
  datatype UpdateResult = UpdateResult(state: State, completed: State)

  /**
   * `operator+=`: merge `t` into `s`; the batches the merge makes complete
   * leave the state and are reported as completed.
   */
  function Union(c: Completer, s: State, t: State): (r: UpdateResult)
    ensures r.state.Keys !! r.completed.Keys
    ensures r.state.Keys + r.completed.Keys == s.Keys + t.Keys
    ensures forall id :: id in r.state ==>
              r.state[id].signatures == Sigs(s, id) + Sigs(t, id) && !c.isComplete(r.state[id])
    ensures forall id :: id in r.completed ==>
              r.completed[id].signatures == Sigs(s, id) + Sigs(t, id) && c.isComplete(r.completed[id])
  {
    var all := Combined(s, t);
    UpdateResult(map id | id in all && !c.isComplete(all[id]) :: all[id],
                 map id | id in all && c.isComplete(all[id]) :: all[id])
  }

  /**
   * `operator-`: for each batch of `s`, the signatures `t` does not know;
   * a batch whose signatures `t` already has is left out.
   */
  function Difference(s: State, t: State): (r: State)
    ensures forall id :: id in r ==>
              id in s && r[id].signatures == s[id].signatures - Sigs(t, id) && r[id].signatures != {}
    ensures forall id :: id in r ==> r[id].createdAt == s[id].createdAt && r[id].txHashes == s[id].txHashes
    ensures forall id :: id in s && !(s[id].signatures <= Sigs(t, id)) ==> id in r
  {
    var r := map id | id in s && !(s[id].signatures <= Sigs(t, id)) ::
      s[id].(signatures := s[id].signatures - Sigs(t, id));
    assert forall id :: id in r ==> r[id].signatures != {} by {
      forall id | id in r
        ensures r[id].signatures != {}
      {
        var x :| x in s[id].signatures && x !in Sigs(t, id);
        assert x in r[id].signatures;
      }
    }
    r
  }

  /** What `extractExpired` keeps and what it takes out. */
  datatype Split = Split(remaining: State, expired: State)

  /** `extractExpired(now)`: take out the batches the completer calls expired at `now`. */
  function ExtractExpired(c: Completer, s: State, now: Time): (r: Split)
    ensures r.remaining.Keys !! r.expired.Keys
    ensures r.remaining + r.expired == s
    ensures forall id :: id in r.expired <==> id in s && c.isExpired(s[id].createdAt, now)
  {
    var r := Split(map id | id in s && !c.isExpired(s[id].createdAt, now) :: s[id],
                   map id | id in s && c.isExpired(s[id].createdAt, now) :: s[id]);
    assert (r.remaining + r.expired).Keys == s.Keys;
    r
  }

  /** `eraseExpired(now)`: the same removal, the removed batches discarded. */
  function EraseExpired(c: Completer, s: State, now: Time): (r: State)
    ensures forall id :: id in r <==> id in s && !c.isExpired(s[id].createdAt, now)
    ensures forall id :: id in r ==> r[id] == s[id]
  {
    ExtractExpired(c, s, now).remaining
  }

  /** `eraseByTransactionHash(h)`: drop every batch holding transaction `h`. */
  function EraseByTransactionHash(s: State, h: TxHash): (r: State)
    ensures forall id :: id in r <==> id in s && h !in s[id].txHashes
    ensures forall id :: id in r ==> r[id] == s[id]
  {
    map id | id in s && h !in s[id].txHashes :: s[id]
  }

  /** The expiry rule never takes back an expiry as time goes on. */
  ghost predicate ExpiryMonotone(c: Completer)
  {
    forall created, t1, t2 :: t1 <= t2 && c.isExpired(created, t1) ==> c.isExpired(created, t2)
  }

  // ---------------------------------------------------------------------
  // Properties of the reference model
  // ---------------------------------------------------------------------

  /** What merging knows of one batch: the signatures both sides know of it. */
  lemma SigsOfCombined(s: State, t: State, id: BatchHash)
    ensures Sigs(Combined(s, t), id) == Sigs(s, id) + Sigs(t, id)
  {
    if id !in s && id !in t {
      assert id !in Combined(s, t);
    }
  }

  /** Merging is commutative in the batches and signatures it yields. */
  lemma CombinedCommutes(a: State, b: State)
    ensures Combined(a, b).Keys == Combined(b, a).Keys
    ensures forall id :: Sigs(Combined(a, b), id) == Sigs(Combined(b, a), id)
  {
    forall id
      ensures Sigs(Combined(a, b), id) == Sigs(Combined(b, a), id)
    {
      SigsOfCombined(a, b, id);
      SigsOfCombined(b, a, id);
    }
  }

  /** Merging is associative in the batches and signatures it yields. */
  lemma CombinedAssociates(a: State, b: State, c: State)
    ensures Combined(Combined(a, b), c).Keys == Combined(a, Combined(b, c)).Keys
    ensures forall id :: Sigs(Combined(Combined(a, b), c), id) == Sigs(Combined(a, Combined(b, c)), id)
  {
    forall id
      ensures Sigs(Combined(Combined(a, b), c), id) == Sigs(Combined(a, Combined(b, c)), id)
    {
      SigsOfCombined(Combined(a, b), c, id);
      SigsOfCombined(a, b, id);
      SigsOfCombined(a, Combined(b, c), id);
      SigsOfCombined(b, c, id);
    }
  }

  /** Merging a state into one that already holds it changes nothing. */
  lemma {:induction false} CombinedAbsorbs(s: State, t: State)
    ensures Combined(Combined(s, t), t) == Combined(s, t)
  {
    var once := Combined(s, t);
    forall id | id in once
      ensures Combined(once, t)[id] == once[id]
    {
      if id in t {
        assert Combined(once, t)[id] == MergeBatch(once[id], t[id]);
        assert once[id].signatures + t[id].signatures == once[id].signatures;
      }
    }
  }

  /**
   * Applying the same state twice is applying it once, as long as the
   * first application completes no batch (a completed batch leaves the
   * state, and its signatures with it).
   */
  lemma ApplyTwiceIsApplyOnce(c: Completer, s: State, t: State)
    requires Union(c, s, t).completed == map[]
    ensures Union(c, Union(c, s, t).state, t).state == Union(c, s, t).state
    ensures Union(c, Union(c, s, t).state, t).completed == map[]
  {
    var once := Union(c, s, t).state;
    assert once == Combined(s, t) by {
      assert once.Keys == Combined(s, t).Keys;
    }
    CombinedAbsorbs(s, t);
    assert Combined(once, t) == once;
    assert forall id :: id in once ==> !c.isComplete(once[id]);
  }

  /**
   * The diff is all the other side is missing: merging it into the other
   * side recovers every signature of `s`.
   */
  lemma DifferenceThenMergeRecovers(s: State, t: State)
    ensures forall id :: id in s ==> s[id].signatures <= Sigs(Combined(Difference(s, t), t), id)
  {
    var d := Difference(s, t);
    forall id | id in s
      ensures s[id].signatures <= Sigs(Combined(d, t), id)
    {
      if id in d {
        assert d[id].signatures == s[id].signatures - Sigs(t, id);
      }
    }
  }

  /** With a monotone expiry rule, what expires by `t1` has expired by any later `t2`. */
  lemma ExpiryIsMonotone(c: Completer, s: State, t1: Time, t2: Time)
    requires ExpiryMonotone(c) && t1 <= t2
    ensures ExtractExpired(c, s, t1).expired.Keys <= ExtractExpired(c, s, t2).expired.Keys
    ensures EraseExpired(c, s, t2).Keys <= EraseExpired(c, s, t1).Keys
  {
  }

  /**
   * Why `ApplyTwiceIsApplyOnce` needs its precondition: a batch the first
   * application completes leaves the state, so applying `t` again brings
   * it back, holding only what `t` knows of it, whenever that alone is
   * not complete.
   */
  lemma ApplyTwiceResurrectsCompleted(c: Completer, s: State, t: State, id: BatchHash)
    requires id in Union(c, s, t).completed && id in t && !c.isComplete(t[id])
    ensures id !in Union(c, s, t).state
    ensures id in Union(c, Union(c, s, t).state, t).state
    ensures Union(c, Union(c, s, t).state, t).state[id] == t[id]
    ensures Union(c, Union(c, s, t).state, t).state != Union(c, s, t).state
  {
    var once := Union(c, s, t);
    assert id !in once.state;
    var all := Combined(once.state, t);
    assert all[id] == t[id];
  }
}
