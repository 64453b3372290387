/**
 * `MstStorageStateImpl`: the multi-signature storage of one replica.  It
 * keeps the replica's own pending batches and, per peer public key, the
 * state that peer is last known to hold, and stitches the `MstState`
 * operators of the reference model together.  The operations run one at a
 * time here; the storage's locking is not part of this model.
 */
module MstStorage {
  import opened MstState

  type PeerKey = string

  /** The state tracked for `key`, or the empty state `getState` would create for it. */
  function PeerOrEmpty(peers: map<PeerKey, State>, key: PeerKey): State
  {
    if key in peers then peers[key] else Empty()
  }

  /** Every peer state after `extractExpired(now)`: each keeps exactly its batches not expired at `now`. */
  function ExpireAll(c: Completer, peers: map<PeerKey, State>, now: Time): (r: map<PeerKey, State>)
    ensures r.Keys == peers.Keys
    ensures forall k :: k in r ==> r[k].Keys <= peers[k].Keys
    ensures forall k, id :: k in r && id in r[k] ==> id in peers[k] && r[k][id] == peers[k][id] && !c.isExpired(peers[k][id].createdAt, now)
    ensures forall k, id :: k in peers && id in peers[k] && !c.isExpired(peers[k][id].createdAt, now) ==> id in r[k]
  {
    map k | k in peers :: EraseExpired(c, peers[k], now)
  }

  /** Every peer state after `eraseByTransactionHash(h)`: each keeps exactly its batches without `h`. */
  function FinalizeAll(peers: map<PeerKey, State>, h: TxHash): (r: map<PeerKey, State>)
    ensures r.Keys == peers.Keys
    ensures forall k, id :: k in r && id in r[k] ==> id in peers[k] && r[k][id] == peers[k][id] && h !in peers[k][id].txHashes
    ensures forall k, id :: k in peers && id in peers[k] && h !in peers[k][id].txHashes ==> id in r[k]
  {
    map k | k in peers :: EraseByTransactionHash(peers[k], h)
  }

  /**
   * `getDiffStateImpl` as a value: the signatures of `own` that `peer`
   * lacks, with the batches expired at `now` left out.
   */
  function DiffState(c: Completer, own: State, peer: State, now: Time): (r: State)
    ensures forall id :: id in r ==>
              id in own && !c.isExpired(own[id].createdAt, now)
              && r[id].signatures == own[id].signatures - Sigs(peer, id) && r[id].signatures != {}
    ensures forall id :: id in own && !c.isExpired(own[id].createdAt, now) && !(own[id].signatures <= Sigs(peer, id)) ==>
              id in r
  {
    EraseExpired(c, Difference(own, peer), now)
  }

  /** Every batch of `s` still waits for signatures. */
  ghost predicate Pending(c: Completer, s: State)
  {
    forall id :: id in s ==> !c.isComplete(s[id])
  }

  /** What `+=` leaves behind still waits for signatures. */
  lemma UnionIsPending(c: Completer, s: State, t: State)
    ensures Pending(c, Union(c, s, t).state)
  {
  }

  /** A second update of the same key overwrites the first. */
  lemma UpdateOverwrites(m: map<PeerKey, State>, k: PeerKey, a: State, b: State)
    ensures m[k := a][k := b] == m[k := b]
  {
    assert m[k := a][k := b].Keys == m[k := b].Keys;
  }

  class Storage {
    const completer: Completer
    var ownState: State
    var peerStates: map<PeerKey, State>

    /** No state the storage holds keeps a batch its completer calls complete: a merge hands those out. */
    ghost predicate Valid()
      reads this
    {
      Pending(completer, ownState) && forall k :: k in peerStates ==> Pending(completer, peerStates[k])
    }

    /** A new storage knows no batch and no peer. */
    constructor(c: Completer)
      ensures Valid()
      ensures completer == c
      ensures ownState == Empty() && peerStates == map[]
    {
      completer := c;
      ownState := Empty();
      peerStates := map[];
    }

    /**
     * `getState`: the state tracked for `key`; a peer seen for the first
     * time gets an empty state, and every other entry stays as it was.
     */
    method GetState(key: PeerKey) returns (state: State)
      requires Valid()
      modifies this`peerStates
      ensures Valid()
      ensures state == PeerOrEmpty(old(peerStates), key)
      ensures peerStates.Keys == old(peerStates).Keys + {key}
      ensures peerStates == old(peerStates)[key := state]
    {
      if key !in peerStates {
        peerStates := peerStates[key := Empty()];
      }
      state := peerStates[key];
    }

    /**
     * `applyImpl`: merge `newState` into what `key` is known to hold and
     * into the own state; the batches the own merge completed are returned.
     */
    method Apply(key: PeerKey, newState: State) returns (completed: State)
      requires Valid()
      modifies this
      ensures Valid()
      ensures peerStates == old(peerStates)[key := Union(completer, PeerOrEmpty(old(peerStates), key), newState).state]
      ensures ownState == Union(completer, old(ownState), newState).state
      ensures completed == Union(completer, old(ownState), newState).completed
    {
      ghost var before := peerStates;
      var target := GetState(key);
      var merged := Union(completer, target, newState);
      UnionIsPending(completer, target, newState);
      peerStates := peerStates[key := merged.state];
      UpdateOverwrites(before, key, target, merged.state);
      var own := Union(completer, ownState, newState);
      UnionIsPending(completer, ownState, newState);
      ownState := own.state;
      completed := own.completed;
    }

    /**
     * `updateOwnStateImpl`: merge one batch into the own state only; the
     * peers are untouched.
     */
    method UpdateOwnState(id: BatchHash, batch: BatchState) returns (completed: State)
      requires Valid()
      modifies this`ownState
      ensures Valid()
      ensures ownState == Union(completer, old(ownState), map[id := batch]).state
      ensures completed == Union(completer, old(ownState), map[id := batch]).completed
      ensures id in ownState || id in completed
    {
      var own := Union(completer, ownState, map[id := batch]);
      ownState := own.state;
      completed := own.completed;
    }

    /**
     * `extractExpiredTransactionsImpl`: every peer state and the own state
     * drop what has expired at `now`; only the own state's expired batches
     * are returned, and no peer is forgotten.
     */
    method ExtractExpiredTransactions(now: Time) returns (expired: State)
      requires Valid()
      modifies this
      ensures Valid()
      ensures peerStates == ExpireAll(completer, old(peerStates), now)
      ensures ownState == ExtractExpired(completer, old(ownState), now).remaining
      ensures expired == ExtractExpired(completer, old(ownState), now).expired
    {
      ghost var before := peerStates;
      var rest := peerStates.Keys;
      while rest != {}
        invariant rest <= before.Keys
        invariant ownState == old(ownState)
        invariant peerStates.Keys == before.Keys
        invariant forall k :: k in peerStates ==>
                    peerStates[k] == if k in rest then before[k] else EraseExpired(completer, before[k], now)
        decreases rest
      {
        var k :| k in rest;
        peerStates := peerStates[k := ExtractExpired(completer, peerStates[k], now).remaining];
        rest := rest - {k};
      }
      assert peerStates == ExpireAll(completer, before, now);
      var own := ExtractExpired(completer, ownState, now);
      ownState := own.remaining;
      expired := own.expired;
    }

    /**
     * `getDiffStateImpl`: what the own state has that `key` lacks, without
     * expired batches; the own state is not changed, and the peer only
     * gains an empty state if it was not tracked.
     */
    method GetDiffState(key: PeerKey, now: Time) returns (diff: State)
      requires Valid()
      modifies this`peerStates
      ensures Valid()
      ensures peerStates == old(peerStates)[key := PeerOrEmpty(old(peerStates), key)]
      ensures diff == DiffState(completer, ownState, PeerOrEmpty(old(peerStates), key), now)
    {
      var target := GetState(key);
      var newDiff := Difference(ownState, target);
      diff := EraseExpired(completer, newDiff, now);
    }

    /** `whatsNewImpl`: what of `s` the own state does not know yet. */
    function WhatsNew(s: State): (r: State)
      reads this
      ensures forall id :: id in r ==>
                id in s && r[id].signatures == s[id].signatures - Sigs(ownState, id) && r[id].signatures != {}
      ensures forall id :: id in s && !(s[id].signatures <= Sigs(ownState, id)) ==> id in r
    {
      Difference(s, ownState)
    }

    /** `batchInStorageImpl`: whether the own state tracks batch `id`. */
    function BatchInStorage(id: BatchHash): (r: bool)
      requires Valid()
      reads this
      ensures r <==> id in ownState
      ensures r ==> !completer.isComplete(ownState[id])
    {
      id in ownState
    }

    /**
     * `processFinalizedTransactionImpl`: drop every batch holding the
     * finalized transaction `h`, from every peer state and from the own
     * state; no peer is forgotten.
     */
    method ProcessFinalizedTransaction(h: TxHash)
      requires Valid()
      modifies this
      ensures Valid()
      ensures peerStates == FinalizeAll(old(peerStates), h)
      ensures ownState == EraseByTransactionHash(old(ownState), h)
    {
      ghost var before := peerStates;
      var rest := peerStates.Keys;
      while rest != {}
        invariant rest <= before.Keys
        invariant ownState == old(ownState)
        invariant peerStates.Keys == before.Keys
        invariant forall k :: k in peerStates ==>
                    peerStates[k] == if k in rest then before[k] else EraseByTransactionHash(before[k], h)
        decreases rest
      {
        var k :| k in rest;
        peerStates := peerStates[k := EraseByTransactionHash(peerStates[k], h)];
        rest := rest - {k};
      }
      assert peerStates == FinalizeAll(before, h);
      ownState := EraseByTransactionHash(ownState, h);
    }
  }

  // ---------------------------------------------------------------------
  // Properties of the storage
  // ---------------------------------------------------------------------

  /** Nothing the own state already holds is new to it. */
  lemma NothingNewInOwnState(own: State)
    ensures Difference(own, own) == map[]
  {
    assert Difference(own, own).Keys == {};
  }

  /**
   * A batch merged into the own state is then tracked, unless the merge
   * completed it, in which case it is reported and no longer tracked.
   */
  lemma MergedBatchIsTrackedOrCompleted(c: Completer, own: State, id: BatchHash, batch: BatchState)
    ensures id in Union(c, own, map[id := batch]).state <==> !(id in Union(c, own, map[id := batch]).completed)
    ensures Sigs(Union(c, own, map[id := batch]).state, id) + Sigs(Union(c, own, map[id := batch]).completed, id)
            == Sigs(own, id) + batch.signatures
  {
    var r := Union(c, own, map[id := batch]);
    assert id in r.state.Keys + r.completed.Keys;
    assert Sigs(map[id := batch], id) == batch.signatures;
  }

  /**
   * Sending a peer the diff and having it apply the diff leaves it
   * knowing every signature the own state has on every batch not expired
   * at `now`, unless that batch completed on the peer.
   */
  lemma DiffThenApplyCatchesUp(c: Completer, own: State, peer: State, now: Time, id: BatchHash)
    requires id in own && !c.isExpired(own[id].createdAt, now)
    ensures var after := Union(c, peer, DiffState(c, own, peer, now));
            id in after.completed || own[id].signatures <= Sigs(after.state, id)
  {
    var d := DiffState(c, own, peer, now);
    var after := Union(c, peer, d);
    if own[id].signatures <= Sigs(peer, id) {
      if own[id].signatures != {} {
        assert id in peer;
        assert id in after.state.Keys + after.completed.Keys;
      }
    } else {
      assert id in d;
      assert id in after.state.Keys + after.completed.Keys;
      assert Sigs(d, id) == own[id].signatures - Sigs(peer, id);
    }
  }
}
