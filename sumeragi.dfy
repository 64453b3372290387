/**
 * Model of the sequential bookkeeping inside the Sumeragi consensus loop:
 * the transaction cache (compaction, refill, gossip batch), the proxy tail's
 * vote tally, the connect/disconnect partition of `connect_peers`, the
 * "rebuild only if changed" rule of `update_network_topology` and
 * `pipeline_time`.
 *
 * Whether a transaction is in the blockchain or expired, the transaction
 * queue and the topology builder are inputs: the model takes them as
 * predicates, a queue object and a function, and does not look inside.
 */
module Sumeragi {
  import opened Wrappers


  type PublicKey = string
  type Address = string
  type BlockHash = string

  /** A peer: where to reach it and the key it signs with. */
  datatype PeerId = PeerId(address: Address, publicKey: PublicKey)

  /** A block signature, identified by the key that made it. */
  datatype Signature = Signature(publicKey: PublicKey, bytes: seq<int>)

  function Min(a: int, b: int): int { if a <= b then a else b }

  // ---------------------------------------------------------------------
  // Transaction cache
  // ---------------------------------------------------------------------

  /**
   * The order-preserving compaction of the cache: the `Some` entries whose
   * transaction `drop` rejects, and every `None`, are gone.
   */
  function Compacted<T>(s: seq<Option<T>>, drop: T -> bool): seq<Option<T>>
  {
    if s == [] then []
    else
      var last := s[|s| - 1];
      Compacted(s[..|s| - 1], drop) + (if last.Some? && !drop(last.value) then [last] else [])
  }

  /**
   * What compaction keeps: no `None`, no dropped transaction, nothing that
   * was not there, every kept transaction that was there, and no growth.
   */
  lemma {:induction false} CompactedKeeps<T>(s: seq<Option<T>>, drop: T -> bool)
    ensures |Compacted(s, drop)| <= |s|
    ensures forall x :: x in Compacted(s, drop) <==> x in s && x.Some? && !drop(x.value)
  {
    if s != [] {
      CompactedKeeps(s[..|s| - 1], drop);
      assert s == s[..|s| - 1] + [s[|s| - 1]];
    }
  }

  /** Compacting one more element of `s` appends it when it is kept. */
  lemma CompactedStep<T>(s: seq<Option<T>>, i: nat, drop: T -> bool)
    requires i < |s|
    ensures Compacted(s[..i + 1], drop)
            == Compacted(s[..i], drop) + (if s[i].Some? && !drop(s[i].value) then [s[i]] else [])
  {
    assert s[..i + 1][..i] == s[..i];
  }

  /** Compaction works piecewise, so it keeps the relative order of what it keeps. */
  lemma {:induction false} CompactedConcat<T>(a: seq<Option<T>>, b: seq<Option<T>>, drop: T -> bool)
    ensures Compacted(a + b, drop) == Compacted(a, drop) + Compacted(b, drop)
  {
    if b != [] {
      CompactedConcat(a, b[..|b| - 1], drop);
      assert (a + b)[..|a + b| - 1] == a + b[..|b| - 1];
    } else {
      assert a + b == a;
    }
  }

  /** Compacting twice changes nothing more. */
  lemma {:induction false} CompactedIdempotent<T>(s: seq<Option<T>>, drop: T -> bool)
    ensures Compacted(Compacted(s, drop), drop) == Compacted(s, drop)
  {
    if s != [] {
      var last := s[|s| - 1];
      var tail := if last.Some? && !drop(last.value) then [last] else [];
      CompactedIdempotent(s[..|s| - 1], drop);
      CompactedConcat(Compacted(s[..|s| - 1], drop), tail, drop);
      if tail != [] {
        assert Compacted(tail, drop) == Compacted([], drop) + tail by {
          assert tail[..0] == [];
        }
      }
    }
  }

  /** Each transaction wrapped in `Some`. */
  function Wrapped<T>(txs: seq<T>): seq<Option<T>>
  {
    seq(|txs|, i requires 0 <= i < |txs| => Some(txs[i]))
  }

  /**
   * How many transactions a refill takes from a queue holding `available`
   * of them into a cache of `cached` entries: up to `txsInBlock` entries in
   * all, and never more than the queue has.
   */
  function RefillCount(cached: nat, txsInBlock: nat, available: nat): (k: nat)
    ensures k <= available
    ensures cached + k <= txsInBlock || k == 0
    ensures k < available ==> cached + k >= txsInBlock
  {
    if cached >= txsInBlock then 0 else Min(txsInBlock - cached, available)
  }

  /**
   * The transaction queue as the refill sees it: each pop hands over the
   * next transaction not yet seen, or nothing once none is left.
   */
  class Queue<T> {
    var pending: seq<T>

    constructor (txs: seq<T>)
      ensures pending == txs
    {
      pending := txs;
    }

    method PopWithoutSeen() returns (tx: Option<T>)
      modifies this
      ensures old(pending) == [] ==> tx == None && pending == []
      ensures old(pending) != [] ==> tx == Some(old(pending)[0]) && pending == old(pending)[1..]
    {
      if pending == [] {
        tx := None;
      } else {
        tx := Some(pending[0]);
        pending := pending[1..];
      }
    }
  }

  /**
   * `SumeragiStateMachineData::transaction_cache`, a `Vec<Option<_>>`: a
   * buffer whose first `len` slots are the vector's elements.
   */
  class TransactionCache<T> {
    var buffer: array<Option<T>>
    var len: nat

    ghost predicate Valid()
      reads this
    {
      len <= buffer.Length
    }

    /** The vector's elements. */
    ghost function Contents(): seq<Option<T>>
      reads this, buffer
      requires Valid()
    {
      buffer[..len]
    }

    /** Every element holds a transaction, as the gossip batch's `expect` demands. */
    ghost predicate NoVacancies()
      reads this, buffer
      requires Valid()
    {
      forall i :: 0 <= i < len ==> buffer[i].Some?
    }

    constructor ()
      ensures Valid() && Contents() == [] && fresh(buffer)
    {
      buffer := new Option<T>[0];
      len := 0;
    }

    /** `Vec::push`: append, growing the buffer when it is full. */
    method Push(tx: Option<T>)
      requires Valid()
      modifies this, buffer
      ensures Valid() && (buffer == old(buffer) || fresh(buffer))
      ensures Contents() == old(Contents()) + [tx]
    {
      if len == buffer.Length {
        var bigger := new Option<T>[if len == 0 then 4 else 2 * len];
        forall i | 0 <= i < len {
          bigger[i] := buffer[i];
        }
        buffer := bigger;
      }
      buffer[len] := tx;
      len := len + 1;
    }

    /**
     * The read-index/write-index compaction the source writes out twice:
     * `take` each element, move the kept ones down to the write index, then
     * `truncate` to the write index.
     */
    method Retain(drop: T -> bool)
      requires Valid()
      modifies this`len, buffer
      ensures Valid()
      ensures Contents() == Compacted(old(Contents()), drop)
    {
      ghost var original := buffer[..len];
      var n := len;
      var readIndex, writeIndex := 0, 0;
      while readIndex < n
        invariant 0 <= writeIndex <= readIndex <= n == |original| <= buffer.Length
        invariant buffer[..writeIndex] == Compacted(original[..readIndex], drop)
        invariant forall k :: readIndex <= k < n ==> buffer[k] == original[k]
      {
        CompactedStep(original, readIndex, drop);
        ghost var kept := buffer[..writeIndex];
        var tx := buffer[readIndex];
        buffer[readIndex] := None;
        assert buffer[..writeIndex] == kept;
        if tx.Some? {
          if drop(tx.value) {
            readIndex := readIndex + 1;
            continue;
          }
          buffer[writeIndex] := tx;
          assert buffer[..writeIndex + 1] == kept + [tx];
          readIndex := readIndex + 1;
          writeIndex := writeIndex + 1;
          continue;
        }
        readIndex := readIndex + 1;
      }
      assert original[..n] == original;
      len := writeIndex;
    }

    /** `cache_transaction`: drop what is in the blockchain or expired. */
    method CacheTransaction(isInBlockchain: T -> bool, isExpired: T -> bool)
      requires Valid()
      modifies this`len, buffer
      ensures Valid()
      ensures Contents() == Compacted(old(Contents()), tx => isInBlockchain(tx) || isExpired(tx))
    {
      Retain(tx => isInBlockchain(tx) || isExpired(tx));
    }

    /** The main loop's prune: drop what is expired, without asking the blockchain. */
    method PruneExpired(isExpired: T -> bool)
      requires Valid()
      modifies this`len, buffer
      ensures Valid()
      ensures Contents() == Compacted(old(Contents()), isExpired)
      ensures NoVacancies()
    {
      Retain(isExpired);
      CompactedKeeps(old(Contents()), isExpired);
      assert forall i :: 0 <= i < len ==> Contents()[i] in Compacted(old(Contents()), isExpired);
    }

    /**
     * Pull transactions from the queue while the cache is shorter than
     * `txsInBlock`, stopping at the first pop that yields nothing.
     */
    method Refill(queue: Queue<T>, txsInBlock: nat)
      requires Valid()
      modifies this, buffer, queue
      ensures Valid() && (buffer == old(buffer) || fresh(buffer))
      ensures var k := RefillCount(|old(Contents())|, txsInBlock, |old(queue.pending)|);
              Contents() == old(Contents()) + Wrapped(old(queue.pending)[..k])
              && queue.pending == old(queue.pending)[k..]
    ensures old(NoVacancies()) ==> NoVacancies()
    {
      ghost var cached := buffer[..len];
      ghost var available := queue.pending;
      while len < txsInBlock
        invariant Valid() && (buffer == old(buffer) || fresh(buffer))
        invariant |cached| <= len
        invariant len <= txsInBlock || len == |cached|
        invariant len - |cached| <= |available|
        invariant Contents() == cached + Wrapped(available[..len - |cached|])
        invariant queue.pending == available[len - |cached|..]
        decreases txsInBlock - len
      {
        var txMaybe := queue.PopWithoutSeen();
        if txMaybe.None? {
          break;
        }
        assert available[..len - |cached| + 1] == available[..len - |cached|] + [txMaybe.value];
        Push(txMaybe);
      }
      assert len - |cached| == RefillCount(|cached|, txsInBlock, |available|);
      if old(NoVacancies()) {
        forall i | 0 <= i < len
          ensures buffer[i].Some?
        {
          if i < |cached| {
            assert Contents()[i] == cached[i];
          } else {
            assert Contents()[i] == Wrapped(available[..len - |cached|])[i - |cached|];
          }
        }
      }
    }

    /**
     * The transactions gossiped: the cache from its start, stopping once
     * the batch holds `batchSize` of them.  The length test comes after the
     * push, so even a batch size of 0 sends one transaction.
     */
    method GossipBatch(batchSize: nat) returns (txs: seq<T>)
      requires Valid() && NoVacancies()
      ensures |txs| == Min(len, if batchSize == 0 then 1 else batchSize)
      ensures forall i :: 0 <= i < |txs| ==> Contents()[i] == Some(txs[i])
    {
      txs := [];
      var i := 0;
      while i < len
        invariant 0 <= i <= len && |txs| == i
        invariant i == 0 || i < batchSize
        invariant forall j :: 0 <= j < i ==> buffer[j] == Some(txs[j])
      {
        txs := txs + [buffer[i].value];
        i := i + 1;
        if |txs| >= batchSize {
          break;
        }
      }
    }
  }

  // ---------------------------------------------------------------------
  // Vote tally
  // ---------------------------------------------------------------------

  /** The signatures the accumulator pairs with block hash `h`, in order. */
  function SignaturesOn(acc: seq<(BlockHash, Signature)>, h: BlockHash): seq<Signature>
  {
    if acc == [] then []
    else
      SignaturesOn(acc[..|acc| - 1], h) + (if acc[|acc| - 1].0 == h then [acc[|acc| - 1].1] else [])
  }

  /** The keys behind some signatures. */
  function KeysOf(sigs: seq<Signature>): set<PublicKey>
  {
    set t | t in sigs :: t.publicKey
  }

  /** `key` belongs to one of the validating peers. */
  predicate IsValidatorKey(key: PublicKey, validating: seq<PeerId>)
  {
    exists i :: 0 <= i < |validating| && validating[i].publicKey == key
  }

  /** Peer `i` is the first validating peer with its key: the one a signature by that key is matched to. */
  predicate FirstOfKey(validating: seq<PeerId>, i: nat)
    requires i < |validating|
  {
    forall j :: 0 <= j < i ==> validating[j].publicKey != validating[i].publicKey
  }

  /**
   * The signatures the tally keeps, in order: a signature counts when its
   * key is a validating peer's and no earlier counted signature had it.
   */
  function Tally(sigs: seq<Signature>, validating: seq<PeerId>): seq<Signature>
  {
    if sigs == [] then []
    else
      var counted := Tally(sigs[..|sigs| - 1], validating);
      var s := sigs[|sigs| - 1];
      if IsValidatorKey(s.publicKey, validating) && s.publicKey !in KeysOf(counted) then counted + [s]
      else counted
  }

  /** The keys of validating peers among some signatures. */
  ghost function ValidatorKeysIn(sigs: seq<Signature>, validating: seq<PeerId>): set<PublicKey>
  {
    set s | s in sigs && IsValidatorKey(s.publicKey, validating) :: s.publicKey
  }

  /** Every counted signature is one of the inputs, made by a validating peer. */
  lemma {:induction false} TallyKeepsValidatorSignatures(sigs: seq<Signature>, validating: seq<PeerId>)
    ensures forall t :: t in Tally(sigs, validating) ==> t in sigs && IsValidatorKey(t.publicKey, validating)
  {
    if sigs != [] {
      var init := sigs[..|sigs| - 1];
      TallyKeepsValidatorSignatures(init, validating);
      assert sigs == init + [sigs[|sigs| - 1]];
    }
  }

  /** No two counted signatures share a key, so the count is the number of keys counted. */
  lemma {:induction false} TallyCountsEachKeyOnce(sigs: seq<Signature>, validating: seq<PeerId>)
    ensures forall i, j :: 0 <= i < j < |Tally(sigs, validating)| ==>
              Tally(sigs, validating)[i].publicKey != Tally(sigs, validating)[j].publicKey
    ensures |Tally(sigs, validating)| == |KeysOf(Tally(sigs, validating))|
  {
    if sigs != [] {
      var s := sigs[|sigs| - 1];
      var counted := Tally(sigs[..|sigs| - 1], validating);
      TallyCountsEachKeyOnce(sigs[..|sigs| - 1], validating);
      if IsValidatorKey(s.publicKey, validating) && s.publicKey !in KeysOf(counted) {
        assert KeysOf(counted + [s]) == KeysOf(counted) + {s.publicKey};
        forall i | 0 <= i < |counted|
          ensures counted[i].publicKey != s.publicKey
        {
          assert counted[i] in counted;
        }
      }
    }
  }

  /** The keys counted are exactly the validating keys that signed. */
  lemma {:induction false} TallyCountsEverySigner(sigs: seq<Signature>, validating: seq<PeerId>)
    ensures KeysOf(Tally(sigs, validating)) == ValidatorKeysIn(sigs, validating)
  {
    if sigs != [] {
      var init := sigs[..|sigs| - 1];
      var s := sigs[|sigs| - 1];
      var counted := Tally(init, validating);
      TallyCountsEverySigner(init, validating);
      assert sigs == init + [s];
      assert ValidatorKeysIn(sigs, validating)
             == ValidatorKeysIn(init, validating) + (if IsValidatorKey(s.publicKey, validating) then {s.publicKey} else {});
      if IsValidatorKey(s.publicKey, validating) && s.publicKey !in KeysOf(counted) {
        assert KeysOf(counted + [s]) == KeysOf(counted) + {s.publicKey};
      }
    }
  }

  /** The first loop of the tally: collect the signatures paired with the voting block's hash. */
  method CollectSignaturesOn(acc: seq<(BlockHash, Signature)>, h: BlockHash) returns (sigs: seq<Signature>)
    ensures sigs == SignaturesOn(acc, h)
  {
    sigs := [];
    for k := 0 to |acc|
      invariant sigs == SignaturesOn(acc[..k], h)
    {
      assert acc[..k + 1][..k] == acc[..k];
      if acc[k].0 == h {
        sigs := sigs + [acc[k].1];
      }
    }
    assert acc[..|acc|] == acc;
  }

  /**
   * The proxy tail's vote count: keep the accumulated signatures on the
   * voting block, match each to the first validating peer with its key,
   * count that peer if it has not voted yet, and add one for this peer.
   */
  method CountVotes(acc: seq<(BlockHash, Signature)>, votingBlockHash: BlockHash, validating: seq<PeerId>)
    returns (voteCount: nat, peerSignatures: seq<Signature>)
    ensures peerSignatures == Tally(SignaturesOn(acc, votingBlockHash), validating)
    ensures voteCount == |peerSignatures| + 1
  {
    var onThisBlock := CollectSignaturesOn(acc, votingBlockHash);

    voteCount := 0;
    var n := |validating|;
    var peerHasVoted := new bool[n](_ => false);
    peerSignatures := [];
    for k := 0 to |onThisBlock|
      invariant voteCount == |peerSignatures|
      invariant peerSignatures == Tally(onThisBlock[..k], validating)
      invariant forall i :: 0 <= i < n ==>
                  (peerHasVoted[i] <==> validating[i].publicKey in KeysOf(peerSignatures) && FirstOfKey(validating, i))
    {
      var signature := onThisBlock[k];
      assert onThisBlock[..k + 1][..k] == onThisBlock[..k];
      // The inner `for` with its `break`: find the first validating peer
      // with the signature's key, then count it unless it has voted.
      var i := 0;
      while i < n && validating[i].publicKey != signature.publicKey
        invariant 0 <= i <= n
        invariant forall j :: 0 <= j < i ==> validating[j].publicKey != signature.publicKey
      {
        i := i + 1;
      }
      if i < n {
        assert FirstOfKey(validating, i);
        if !peerHasVoted[i] {
          ghost var counted := peerSignatures;
          peerHasVoted[i] := true;
          voteCount := voteCount + 1;
          peerSignatures := peerSignatures + [signature];
          assert KeysOf(peerSignatures) == KeysOf(counted) + {signature.publicKey};
        }
      } else {
        assert !IsValidatorKey(signature.publicKey, validating);
      }
    }
    assert onThisBlock[..|onThisBlock|] == onThisBlock;
    voteCount := voteCount + 1;
  }

  // ---------------------------------------------------------------------
  // Connecting and disconnecting peers
  // ---------------------------------------------------------------------

  /** The topology's peers other than the one at this peer's own address, in order. */
  function ExpectedPeers(sortedPeers: seq<PeerId>, ownAddress: Address): (r: seq<PeerId>)
    ensures forall p :: p in r <==> p in sortedPeers && p.address != ownAddress
  {
    if sortedPeers == [] then []
    else
      (if sortedPeers[0].address != ownAddress then [sortedPeers[0]] else [])
      + ExpectedPeers(sortedPeers[1..], ownAddress)
  }

  /** The keys of some peers, in order. */
  function PeerKeys(peers: seq<PeerId>): (r: seq<PublicKey>)
    ensures |r| == |peers|
  {
    if peers == [] then [] else [peers[0].publicKey] + PeerKeys(peers[1..])
  }

  /** `position`: the first index holding `key`. */
  function IndexOf(keys: seq<PublicKey>, key: PublicKey): (i: nat)
    requires key in keys
    ensures i < |keys| && keys[i] == key
    ensures forall j :: 0 <= j < i ==> keys[j] != key
  {
    if keys[0] == key then 0 else 1 + IndexOf(keys[1..], key)
  }

  /**
   * What `connect_peers` does with the expected peers in order, starting
   * from the online keys: a peer whose key is still online uses up that
   * key; any other peer is connected.  The keys left over are disconnected.
   */
  function ConnectPlan(expected: seq<PeerId>, connected: seq<PublicKey>): (seq<PeerId>, seq<PublicKey>)
  {
    if expected == [] then ([], connected)
    else if expected[0].publicKey in connected then
      var index := IndexOf(connected, expected[0].publicKey);
      ConnectPlan(expected[1..], connected[..index] + connected[index + 1..])
    else
      var plan := ConnectPlan(expected[1..], connected);
      ([expected[0]] + plan.0, plan.1)
  }

  /**
   * `connect_peers` without its shuffle: the peers to issue `ConnectPeer`
   * for and the keys to issue `DisconnectPeer` for.
   */
  method ConnectPeers(sortedPeers: seq<PeerId>, ownAddress: Address, onlineKeys: seq<PublicKey>)
    returns (toConnect: seq<PeerId>, toDisconnect: seq<PublicKey>)
    ensures (toConnect, toDisconnect) == ConnectPlan(ExpectedPeers(sortedPeers, ownAddress), onlineKeys)
  {
    var expected := ExpectedPeers(sortedPeers, ownAddress);
    var connected := onlineKeys;
    toConnect := [];
    assert expected[0..] == expected;
    for k := 0 to |expected|
      invariant ConnectPlan(expected, onlineKeys).0 == toConnect + ConnectPlan(expected[k..], connected).0
      invariant ConnectPlan(expected, onlineKeys).1 == ConnectPlan(expected[k..], connected).1
    {
      assert expected[k..][1..] == expected[k + 1..];
      var peer := expected[k];
      if peer.publicKey in connected {
        var index := IndexOf(connected, peer.publicKey);
        connected := connected[..index] + connected[index + 1..];
      } else {
        var plan := ConnectPlan(expected[k + 1..], connected);
        assert ConnectPlan(expected[k..], connected) == ([peer] + plan.0, plan.1);
        assert toConnect + ([peer] + plan.0) == (toConnect + [peer]) + plan.0;
        toConnect := toConnect + [peer];
      }
    }
    assert expected[|expected|..] == [];
    assert toConnect + [] == toConnect;
    toDisconnect := connected;
  }

  lemma MultisetCancel(x: multiset<PublicKey>, y: multiset<PublicKey>, key: PublicKey)
    ensures (multiset{key} + x) - (y + multiset{key}) == x - y
    ensures (y + multiset{key}) - (multiset{key} + x) == y - x
  {
    assert forall z :: ((multiset{key} + x) - (y + multiset{key}))[z] == (x - y)[z];
    assert forall z :: ((y + multiset{key}) - (multiset{key} + x))[z] == (y - x)[z];
  }

  lemma MultisetAddAbsent(x: multiset<PublicKey>, c: multiset<PublicKey>, key: PublicKey)
    requires c[key] == 0
    ensures (multiset{key} + x) - c == multiset{key} + (x - c)
    ensures c - (multiset{key} + x) == c - x
  {
    assert forall z :: ((multiset{key} + x) - c)[z] == (multiset{key} + (x - c))[z];
    assert forall z :: (c - (multiset{key} + x))[z] == (c - x)[z];
  }

  /**
   * Counted with multiplicity, the keys connected are the expected keys
   * that were not online.
   */
  lemma {:induction false} ConnectPlanConnects(expected: seq<PeerId>, connected: seq<PublicKey>)
    ensures multiset(PeerKeys(ConnectPlan(expected, connected).0)) == multiset(PeerKeys(expected)) - multiset(connected)
  {
    if expected != [] {
      var key := expected[0].publicKey;
      var rest := expected[1..];
      assert PeerKeys(expected) == [key] + PeerKeys(rest);
      var x := multiset(PeerKeys(rest));
      if key in connected {
        var index := IndexOf(connected, key);
        var remaining := connected[..index] + connected[index + 1..];
        RemoveOne(connected, index);
        assert ConnectPlan(expected, connected) == ConnectPlan(rest, remaining);
        ConnectPlanConnects(rest, remaining);
        MultisetCancel(x, multiset(remaining), key);
      } else {
        var plan := ConnectPlan(rest, connected);
        assert ConnectPlan(expected, connected) == ([expected[0]] + plan.0, plan.1);
        ConnectPlanConnects(rest, connected);
        assert PeerKeys([expected[0]] + plan.0) == [key] + PeerKeys(plan.0);
        MultisetAddAbsent(x, multiset(connected), key);
      }
    }
  }

  /**
   * Counted with multiplicity, the keys disconnected are the online keys
   * that were not expected.
   */
  lemma {:induction false} ConnectPlanDisconnects(expected: seq<PeerId>, connected: seq<PublicKey>)
    ensures multiset(ConnectPlan(expected, connected).1) == multiset(connected) - multiset(PeerKeys(expected))
  {
    if expected != [] {
      var key := expected[0].publicKey;
      var rest := expected[1..];
      assert PeerKeys(expected) == [key] + PeerKeys(rest);
      var x := multiset(PeerKeys(rest));
      if key in connected {
        var index := IndexOf(connected, key);
        var remaining := connected[..index] + connected[index + 1..];
        RemoveOne(connected, index);
        assert ConnectPlan(expected, connected) == ConnectPlan(rest, remaining);
        ConnectPlanDisconnects(rest, remaining);
        MultisetCancel(x, multiset(remaining), key);
      } else {
        assert ConnectPlan(expected, connected).1 == ConnectPlan(rest, connected).1;
        ConnectPlanDisconnects(rest, connected);
        MultisetAddAbsent(x, multiset(connected), key);
      }
    }
  }

  /** Taking out the element at `index` takes one copy of it out of the multiset. */
  lemma RemoveOne(s: seq<PublicKey>, index: nat)
    requires index < |s|
    ensures multiset(s) == multiset(s[..index] + s[index + 1..]) + multiset{s[index]}
    ensures forall k :: k in s[..index] + s[index + 1..] ==> k in s
  {
    assert s == s[..index] + [s[index]] + s[index + 1..];
  }

  /** Every peer connected is one of the expected peers. */
  lemma {:induction false} ConnectPlanConnectsExpected(expected: seq<PeerId>, connected: seq<PublicKey>)
    ensures forall p :: p in ConnectPlan(expected, connected).0 ==> p in expected
  {
    if expected != [] {
      var key := expected[0].publicKey;
      if key in connected {
        var index := IndexOf(connected, key);
        var remaining := connected[..index] + connected[index + 1..];
        ConnectPlanConnectsExpected(expected[1..], remaining);
      } else {
        ConnectPlanConnectsExpected(expected[1..], connected);
      }
    }
  }

  // ---------------------------------------------------------------------
  // Topology and timing
  // ---------------------------------------------------------------------

  /** The part of a topology this model reads: its peers in role order, and the view change it was built for. */
  datatype Topology = Topology(sortedPeers: seq<PeerId>, viewChangeIndex: nat)

  /**
   * The topology builder: `topology.clone().into_builder().with_peers(peers).build(index)`.
   * It may use whatever it likes of the old topology, and it may refuse,
   * `None`; what the update relies on is stated by `FaithfulBuilder`.
   */
  type Builder = (Topology, set<PeerId>, nat) -> Option<Topology>

  /** The builder succeeds and puts exactly the given peers into the topology it builds, for the given view change. */
  ghost predicate FaithfulBuilder(build: Builder, topology: Topology, peers: set<PeerId>, index: nat)
  {
    build(topology, peers, index).Some?
    && PeerSet(build(topology, peers, index).value) == peers
    && build(topology, peers, index).value.viewChangeIndex == index
  }

  /** The set of peers a topology holds. */
  function PeerSet(topology: Topology): set<PeerId>
  {
    set p | p in topology.sortedPeers
  }

  /**
   * `update_network_topology`: rebuild the topology for view change 0
   * from the peers the world state trusts, but only when they differ, as
   * a set, from the topology's; otherwise keep it, and its order, as it
   * is.  A rebuild the builder refuses is the `expect` panic, `None`.
   */
  function UpdateNetworkTopology(topology: Topology, wsvPeers: set<PeerId>, build: Builder): (r: Option<Topology>)
    ensures PeerSet(topology) == wsvPeers ==> r == Some(topology)
    ensures r.None? <==> PeerSet(topology) != wsvPeers && build(topology, wsvPeers, 0).None?
    ensures FaithfulBuilder(build, topology, wsvPeers, 0) ==> r.Some? && PeerSet(r.value) == wsvPeers
    ensures FaithfulBuilder(build, topology, wsvPeers, 0) && r != Some(topology) ==> r.value.viewChangeIndex == 0
  {
    if PeerSet(topology) != wsvPeers then build(topology, wsvPeers, 0) else Some(topology)
  }

  /**
   * With a builder that puts exactly the given peers into the topology it
   * builds, a second update with the same world state peers changes
   * nothing, whatever the builder would do with the updated topology.
   */
  lemma UpdateNetworkTopologyConverges(topology: Topology, wsvPeers: set<PeerId>, build: Builder)
    requires FaithfulBuilder(build, topology, wsvPeers, 0)
    ensures UpdateNetworkTopology(topology, wsvPeers, build).Some?
    ensures var once := UpdateNetworkTopology(topology, wsvPeers, build).value;
            UpdateNetworkTopology(once, wsvPeers, build) == Some(once)
  {
  }

  const U64_MAX: nat := 0xffff_ffff_ffff_ffff
  const NANOS_PER_SEC: nat := 1_000_000_000

  /** A `std::time::Duration`: whole seconds in a `u64` and the nanoseconds below one second. */
  datatype Duration = Duration(secs: nat, nanos: nat)
  {
    predicate Valid()
    {
      secs <= U64_MAX && nanos < NANOS_PER_SEC
    }

    /** The length of the duration in nanoseconds. */
    function TotalNanos(): nat
    {
      secs * NANOS_PER_SEC + nanos
    }
  }

  /** The longest a `Duration` can be, in nanoseconds. */
  const MAX_DURATION_NANOS: nat := U64_MAX * NANOS_PER_SEC + (NANOS_PER_SEC - 1)

  /**
   * `Duration + Duration`: add the seconds, then the nanoseconds, carrying
   * one second when they reach a whole one; either step overflowing the
   * `u64` of seconds is the "overflow when adding durations" panic, `None`.
   */
  function AddDurations(a: Duration, b: Duration): (r: Option<Duration>)
    requires a.Valid() && b.Valid()
    ensures r.Some? <==> a.TotalNanos() + b.TotalNanos() <= MAX_DURATION_NANOS
    ensures r.Some? ==> r.value.Valid() && r.value.TotalNanos() == a.TotalNanos() + b.TotalNanos()
  {
    var secs := a.secs + b.secs;
    var nanos := a.nanos + b.nanos;
    if secs > U64_MAX then
      None
    else if nanos >= NANOS_PER_SEC then
      if secs + 1 > U64_MAX then None else Some(Duration(secs + 1, nanos - NANOS_PER_SEC))
    else
      Some(Duration(secs, nanos))
  }

  /**
   * `pipeline_time`: the longest a round takes with no faulty peer, the
   * block time plus the commit time; `None` where that sum panics.
   */
  function PipelineTime(blockTime: Duration, commitTime: Duration): (t: Option<Duration>)
    requires blockTime.Valid() && commitTime.Valid()
    ensures t.Some? <==> blockTime.TotalNanos() + commitTime.TotalNanos() <= MAX_DURATION_NANOS
    ensures t.Some? ==> t.value.Valid() && t.value.TotalNanos() == blockTime.TotalNanos() + commitTime.TotalNanos()
    ensures t.Some? ==> t.value.TotalNanos() >= blockTime.TotalNanos() && t.value.TotalNanos() >= commitTime.TotalNanos()
  {
    AddDurations(blockTime, commitTime)
  }
}
