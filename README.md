# Iroha bookkeeping cores in Dafny

This project models four sequential, self-contained pieces of the Iroha
code base and proves what their code promises.

- **Multi-signature storage** (`MstStorageStateImpl`, modules `MstState`
  and `MstStorage`). One replica keeps its own pending multi-signature
  batches. For each peer public key it also keeps the state that peer is
  last known to hold. The `MstState` operators (`+=`, `-`,
  `extractExpired`, `eraseExpired`, `eraseByTransactionHash`, `contains`)
  are implemented outside `MstStorageStateImpl`, so `MstState` is
  modelled as a small reference model: a map from batch hash to the batch's signatures,
  creation time and transaction hashes. A completer supplied from outside
  decides quorum and expiry. The storage is a class with `ownState` and
  `peerStates` fields. Its methods update those fields the way the C++
  does, including the lazy insertion of a peer in `getState` and the
  range-for loops over all peer states.
- **`ConstString`** (module `ConstStr`). This is the immutable string of
  `iroha_primitives`. It is stored inline when it has at most 15 bytes,
  with length byte 128 + n, and is reference-counted otherwise. The
  union's shared tag byte is computed for either variant, and it is
  proved to tell them apart. Length, contents, equality, ordering and
  hashing are proved to depend on the bytes only.
- **Keyed-map decoding** (module `RcDecode`). This is
  `deserialize_map_with` and `RefCountingVisitor::visit_map`. The entry
  stream is a sequence of decoded entries or entry errors. The first
  entry whose key is not its value's id aborts the decode. Every other
  entry goes through the mutator `f` and is inserted.
- **Sumeragi bookkeeping** (module `Sumeragi`):
  - the in-place compaction of `transaction_cache`, both in
    `cache_transaction` and in the main loop's prune;
  - the refill from the queue;
  - the gossip batch;
  - the proxy tail's vote tally;
  - the connect/disconnect plan of `connect_peers`;
  - `update_network_topology` and `pipeline_time`.

  The transaction cache is a class over an array and a length. This
  models the `Vec<Option<_>>` that the source compacts with a read index
  and a write index and then truncates.

The predicates `is_in_blockchain` and `is_expired`, the completer, the
topology builder, the hasher and the mutator `f` are function parameters.
The queue is a small class whose pop hands over the next transaction it
holds.

## Model

| member | source | states |
|---|---|---|
| MstStorage.Storage.constructor | irohad/multi_sig_transactions/storage/impl/mst_storage_impl.cpp:24-30 | a new storage holds an own state with no batch (`MstState::empty`) and tracks no peer, and the storage invariant holds |
| MstStorage.Storage.GetState | irohad/multi_sig_transactions/storage/impl/mst_storage_impl.cpp:11-22 | a tracked peer's state is returned and the map is unchanged; an untracked peer gets exactly one new state holding no batch, which is returned; every other entry stays as it was |
| MstStorage.Storage.Apply | irohad/multi_sig_transactions/storage/impl/mst_storage_impl.cpp:32-39 | the new state is merged into the peer's state (created if absent) and into the own state; the result is the set of batches the own merge completed |
| MstStorage.Storage.UpdateOwnState | irohad/multi_sig_transactions/storage/impl/mst_storage_impl.cpp:41-44 | only the own state changes (the frame excludes the peer map); the batch ends up tracked or reported as completed |
| MstStorage.Storage.ExtractExpiredTransactions | irohad/multi_sig_transactions/storage/impl/mst_storage_impl.cpp:46-53 | every peer state and the own state lose exactly their expired batches; no peer key is removed; only the own state's expired batches are returned |
| MstStorage.Storage.GetDiffState | irohad/multi_sig_transactions/storage/impl/mst_storage_impl.cpp:55-63 | the result is own − peer with expired batches removed; the own state is not modified; the peer entry changes only by lazy creation |
| MstStorage.Storage.WhatsNew | irohad/multi_sig_transactions/storage/impl/mst_storage_impl.cpp:65-68 | read-only; each batch in the result is in the given state and carries exactly the signatures the own state lacks, never none; every batch with such a signature is in it |
| MstStorage.Storage.BatchInStorage | irohad/multi_sig_transactions/storage/impl/mst_storage_impl.cpp:70-72 | read-only; true exactly when the own state tracks the batch (`contains` is membership of its hash), and a tracked batch is never a complete one |
| MstStorage.Storage.ProcessFinalizedTransaction | irohad/multi_sig_transactions/storage/impl/mst_storage_impl.cpp:74-80 | every peer state and the own state lose exactly the batches holding the finalized transaction; no peer key is removed |
| MstStorage.ExpireAll | irohad/multi_sig_transactions/storage/impl/mst_storage_impl.cpp:49-51 | the peer map keeps its keys; each peer state keeps exactly its unexpired batches, unchanged |
| MstStorage.FinalizeAll | irohad/multi_sig_transactions/storage/impl/mst_storage_impl.cpp:76-78 | the peer map keeps its keys; each peer state keeps exactly its batches without the transaction, unchanged |
| MstStorage.DiffState | irohad/multi_sig_transactions/storage/impl/mst_storage_impl.cpp:59-62 | every batch in the diff is an unexpired own batch with exactly the signatures the peer lacks, never none; every unexpired own batch with such a signature is in it |
| MstStorage.NothingNewInOwnState | irohad/multi_sig_transactions/storage/impl/mst_storage_impl.cpp:65-68 | the own state holds nothing new for itself |
| MstStorage.MergedBatchIsTrackedOrCompleted | irohad/multi_sig_transactions/storage/impl/mst_storage_impl.cpp:41-44 | a merged batch is either still tracked or reported as completed, never both, and no signature is lost |
| MstStorage.DiffThenApplyCatchesUp | irohad/multi_sig_transactions/storage/impl/mst_storage_impl.cpp:55-63 | a peer that merges the diff then knows every signature of every unexpired own batch, unless that batch completed |
| MstState.Combined | irohad/multi_sig_transactions/storage/impl/mst_storage_impl.cpp:37-38 | merging tracks the batches of both sides, each with the union of their signatures and with the creation time and transaction hashes of the receiver when it has the batch, of the other side otherwise |
| MstState.Union | irohad/multi_sig_transactions/storage/impl/mst_storage_impl.cpp:37-38 | `+=` splits the merged batches into pending and completed, disjoint and covering both inputs; pending batches are incomplete and completed ones complete |
| MstState.SigsOfCombined | irohad/multi_sig_transactions/storage/impl/mst_storage_impl.cpp:37-38 | the signatures merging knows for a batch are those of both sides |
| MstState.CombinedCommutes | irohad/multi_sig_transactions/storage/impl/mst_storage_impl.cpp:37-38 | merging is commutative in batches and signatures |
| MstState.CombinedAssociates | irohad/multi_sig_transactions/storage/impl/mst_storage_impl.cpp:37-38 | merging is associative in batches and signatures |
| MstState.CombinedAbsorbs | irohad/multi_sig_transactions/storage/impl/mst_storage_impl.cpp:37-38 | merging the same state again changes nothing |
| MstState.ApplyTwiceIsApplyOnce | irohad/multi_sig_transactions/storage/impl/mst_storage_impl.cpp:32-39 | applying a state twice equals applying it once, when the first application completes nothing |
| MstState.ApplyTwiceResurrectsCompleted | irohad/multi_sig_transactions/storage/impl/mst_storage_impl.cpp:32-39 | without that precondition applying twice differs: a batch the first application completes is tracked again after the second, holding only what the applied state knows of it |
| MstState.Difference | irohad/multi_sig_transactions/storage/impl/mst_storage_impl.cpp:60 | `-` keeps a batch of the left side exactly when it has a signature the right side lacks, and then with exactly those signatures, never none, and with its own creation time and transaction hashes |
| MstState.DifferenceThenMergeRecovers | irohad/multi_sig_transactions/storage/impl/mst_storage_impl.cpp:60 | merging the diff into the other side recovers every signature of the left side |
| MstState.ExtractExpired | irohad/multi_sig_transactions/storage/impl/mst_storage_impl.cpp:50-52 | extractExpired splits the state into two disjoint parts that together are the state; the expired part is exactly the batches expired at that time |
| MstState.EraseExpired | irohad/multi_sig_transactions/storage/impl/mst_storage_impl.cpp:61 | eraseExpired keeps exactly the batches not expired at that time, unchanged |
| MstState.EraseByTransactionHash | irohad/multi_sig_transactions/storage/impl/mst_storage_impl.cpp:77-79 | exactly the batches holding the hash are dropped, and the rest are unchanged |
| MstState.ExpiryIsMonotone | irohad/multi_sig_transactions/storage/impl/mst_storage_impl.cpp:46-53 | with a monotone expiry rule, a later sweep removes at least what an earlier one removes |
| ConstStr.InlinedString.IsInlined | primitives/src/conststr.rs:401-404 | the tag test is the most significant bit of the length byte |
| ConstStr.NewInlined | primitives/src/conststr.rs:406-413 | a zero payload with length byte 128: tagged, valid, empty |
| ConstStr.Inline | primitives/src/conststr.rs:426-443 | Ok exactly when the input has at most 15 bytes, with a valid 15-byte payload, length byte 128 + n, inline length n, and contents (the payload up to that length) equal to the input; otherwise Err carrying the input unchanged |
| ConstStr.TryFrom | primitives/src/conststr.rs:426-443 | the copy into a fresh payload and the tagged length add produce exactly Inline |
| ConstStr.TryFromString | primitives/src/conststr.rs:445-451 | the String overload behaves exactly as Inline, with the error carrying the input |
| ConstStr.ConstString.TagByte | primitives/src/conststr.rs:31-46 | the shared byte is the inline length byte, or is below 128 for a valid reference-counted value |
| ConstStr.ConstString.IsInlined | primitives/src/conststr.rs:95-103 | reading the tag through the inline view names the variant held, for either variant |
| ConstStr.ConstString.Len | primitives/src/conststr.rs:71-79 | the length is the length of the contents, for both variants |
| ConstStr.ConstString.AsRef | primitives/src/conststr.rs:118-143 | the contents fit a Rust string |
| ConstStr.ConstString.IsEmpty | primitives/src/conststr.rs:81-85 | empty exactly when the contents are no bytes |
| ConstStr.ConstString.Eq | primitives/src/conststr.rs:173-178 | equal exactly when `cmp` says Equal |
| ConstStr.ConstString.Cmp | primitives/src/conststr.rs:158-163 | Equal exactly on the same bytes; swapping the operands swaps Less and Greater (with ConstStr.LexCmpEqual and ConstStr.LexCmpAntisymmetric) |
| ConstStr.ConstString.Hash | primitives/src/conststr.rs:151-156 | only the live bytes are hashed: the inline payload up to its length, never the zero padding, or the shared bytes |
| ConstStr.ConstString.Clone | primitives/src/conststr.rs:223-240 | a clone is valid |
| ConstStr.New | primitives/src/conststr.rs:87-93 | `new` is valid |
| ConstStr.From | primitives/src/conststr.rs:207-221 | the result is valid and inlined exactly when the input has at most 15 bytes, the tag agrees with the variant, and length and contents are the input's; a longer input becomes a reference-counted value whose cached length is the true one |
| ConstStr.LexCmpEqual | primitives/src/conststr.rs:158-178 | the ordering says Equal exactly for equal byte strings |
| ConstStr.LexCmpAntisymmetric | primitives/src/conststr.rs:158-171 | swapping the operands flips the ordering; used by ConstStr.ConstString.Cmp |
| ConstStr.LexCmpTransitive | primitives/src/conststr.rs:158-171 | the ordering is transitive |
| ConstStr.CmpIsTransitive | primitives/src/conststr.rs:158-171 | `cmp` on ConstString is transitive, through ConstStr.LexCmpTransitive |
| ConstStr.NewIsEmptyInlined | primitives/src/conststr.rs:317-321 | `new` and `default` are inlined, empty, tagged 128 and zero-filled |
| ConstStr.ContentsDecideEverything | primitives/src/conststr.rs:151-178 | two values with the same bytes agree on length, equality, ordering and hash, whatever their variants |
| ConstStr.FromAgreesWithStrings | primitives/src/conststr.rs:552-578 | converted strings compare, test equal and hash exactly as the strings do |
| ConstStr.CloneKeepsVariant | primitives/src/conststr.rs:504-512 | a clone keeps the variant and equals the original |
| RcDecode.VisitMap | data_model/src/rc_decode.rs:49-65 | the loop with early return computes exactly the recursive decode |
| RcDecode.DeserializeMapWith | data_model/src/rc_decode.rs:22-33 | a non-map input fails; a map is decoded from an empty accumulator |
| RcDecode.DecodeSucceedsIff | data_model/src/rc_decode.rs:53-64 | the decode succeeds exactly when every entry decoded and its key is its value's id; then the map is every entry passed through f once, in order, and inserted |
| RcDecode.FirstBadEntryAborts | data_model/src/rc_decode.rs:53-59 | the first failing or inconsistent entry decides the error, and no map is returned |
| RcDecode.CheckPrecedesMutator | data_model/src/rc_decode.rs:54-61 | success does not depend on the mutator, because the check reads the entry as decoded |
| RcDecode.InsertAllLastWins | data_model/src/rc_decode.rs:61-62 | a key is present exactly when the accumulator or some mutated entry has it; the last such entry wins; untouched accumulator keys keep their values |
| Sumeragi.CompactedKeeps | core/src/sumeragi/fault.rs:293-316 | compaction never grows, and keeps exactly the Some entries not dropped |
| Sumeragi.CompactedConcat | core/src/sumeragi/fault.rs:293-316 | compaction works piecewise, so it keeps relative order |
| Sumeragi.CompactedIdempotent | core/src/sumeragi/fault.rs:433-450 | compacting again changes nothing |
| Sumeragi.TransactionCache.Retain | core/src/sumeragi/fault.rs:297-315 | the read/write index pass and the truncate leave exactly the compaction of the old contents |
| Sumeragi.TransactionCache.CacheTransaction | core/src/sumeragi/fault.rs:293-316 | the cache keeps, in order, exactly the transactions neither in the blockchain nor expired |
| Sumeragi.TransactionCache.PruneExpired | core/src/sumeragi/fault.rs:433-450 | the cache keeps, in order, exactly the unexpired transactions, and afterwards every slot holds a transaction, as the gossip batch's `expect` needs |
| Sumeragi.TransactionCache.Push | core/src/sumeragi/fault.rs:458 | push appends one element |
| Sumeragi.Queue.PopWithoutSeen | core/src/sumeragi/fault.rs:454-456 | a pop yields the next transaction, or None when the queue is empty |
| Sumeragi.RefillCount | core/src/sumeragi/fault.rs:453-459 | the refill takes at most what the queue holds, never overfills, and stops short only when the cache is full |
| Sumeragi.TransactionCache.Refill | core/src/sumeragi/fault.rs:453-459 | the cache grows by exactly the next RefillCount queue transactions, and the queue loses exactly those; a cache with no empty slot still has none |
| Sumeragi.TransactionCache.GossipBatch | core/src/sumeragi/fault.rs:463-469 | the batch is the cache's prefix of length min(cache length, batch size), with a batch size of 0 taking one |
| Sumeragi.CollectSignaturesOn | core/src/sumeragi/fault.rs:1074-1081 | the collected signatures are exactly those paired with the voting block's hash, in order |
| Sumeragi.TallyKeepsValidatorSignatures | core/src/sumeragi/fault.rs:1086-1097 | every counted signature is one of the inputs and was made by a validating peer |
| Sumeragi.TallyCountsEachKeyOnce | core/src/sumeragi/fault.rs:1086-1097 | no two counted signatures share a key, so the count equals the number of distinct keys counted |
| Sumeragi.TallyCountsEverySigner | core/src/sumeragi/fault.rs:1086-1097 | the counted keys are exactly the validating keys that signed |
| Sumeragi.CountVotes | core/src/sumeragi/fault.rs:1070-1099 | only signatures on the voting block are considered; each validating peer is counted once; vote_count is the number counted plus one |
| Sumeragi.ExpectedPeers | core/src/sumeragi/fault.rs:188-193 | the expected peers are the topology's peers away from the own address |
| Sumeragi.IndexOf | core/src/sumeragi/fault.rs:199-202 | `position` finds the first occurrence of the key |
| Sumeragi.ConnectPeers | core/src/sumeragi/fault.rs:187-219 | the loop issues exactly the plan's connects and disconnects |
| Sumeragi.ConnectPlanConnects | core/src/sumeragi/fault.rs:197-211 | the keys connected are the expected keys minus the online keys, counted with multiplicity |
| Sumeragi.ConnectPlanDisconnects | core/src/sumeragi/fault.rs:203-218 | the keys disconnected are the online keys minus the expected keys, counted with multiplicity |
| Sumeragi.ConnectPlanConnectsExpected | core/src/sumeragi/fault.rs:197-211 | every peer connected is an expected peer |
| Sumeragi.UpdateNetworkTopology | core/src/sumeragi/fault.rs:160-171 | the topology, order included, is kept when its peer set equals the world state's; the update fails exactly when a rebuild is needed and the builder refuses; with a builder that puts in exactly the given peers, the result holds the world state's peers, and a rebuilt one is for view change 0 |
| Sumeragi.UpdateNetworkTopologyConverges | core/src/sumeragi/fault.rs:160-171 | with such a builder the update succeeds, and a second update with the same peers changes nothing |
| Sumeragi.PipelineTime | core/src/sumeragi/fault.rs:223-225 | defined exactly when block time plus commit time fits a `Duration`; then it is a valid `Duration` whose length in nanoseconds is that sum, at least each of the two |

## Left out

- `MstState`'s implementation and the completer are not part of this
  model. `MstState` is a reference model. A merged batch keeps the
  receiver's creation time and transaction hashes. The difference works
  per signature. The expiry rule judges a batch by its creation time.
- The storage's locking and the loggers are left out. The operations are
  sequential.
- `MstStorage.Storage.UpdateOwnState`: a single batch is represented by
  its hash and its state rather than a batch pointer.
- The `unsafe` union layout, `ManuallyDrop`/`Drop` and `ArcStr` reference
  counting are left out. The serde, SCALE and schema glue
  (primitives/src/conststr.rs:254-315) and the `PartialEq` impls against
  `String`/`str` (:180-202) are left out too. UTF-8 validity is assumed
  by the source and not modelled. Only the 64-bit little-endian layout is
  modelled.
- `ConstStr.ConstString.Hash`: the hasher is a function of the bytes. This
  leaves out Rust's streaming `Hasher` state.
- `RcDecode.DeserializeMapWith`: the mutator `f` is a pure function of
  the entry. A stateful `FnMut` that changes between calls is not
  modelled. Key and value decoding errors are one opaque entry error.
  The `BTreeMap` is a map with no order.
- `Sumeragi.ConnectPeers`: the random `shuffle` of the expected peers
  (core/src/sumeragi/fault.rs:191) is left out, and the peers are visited
  in topology order. Only the multisets of keys connected and
  disconnected (Sumeragi.ConnectPlanConnects,
  Sumeragi.ConnectPlanDisconnects) do not depend on that order. The
  exact lists, their order, and which duplicate of an online key is
  removed follow topology order here, while in the source they follow
  the shuffle. The broker sends are the returned lists.
- `Sumeragi.TransactionCache.GossipBatch`: the loop pushes before it
  tests the length, so a batch size of 0 still takes one transaction.
  This is modelled as written. The gossip timer and the sending of the
  batch are left out.
- `Sumeragi.CountVotes`: the comparison with `min_votes_for_commit` and
  the commit that follows it are left out. They are part of the main
  loop's I/O.
- `Sumeragi.PipelineTime`: the overflow panic of `Duration` addition is
  the `None` result, not a panic.
- `Sumeragi.UpdateNetworkTopology`: a topology is its peers in role order
  and its view change index; roles, the leader and the rest of `Topology`
  are left out. The topology builder is a function parameter, so how
  `build` orders the peers for view change 0 is not modelled; only what
  `FaithfulBuilder` states is relied on. Its `expect` panic is the `None`
  result.
- `Sumeragi.TransactionCache.Push`: `Vec`'s growth policy is replaced by
  doubling.
- The rest of `run_sumeragi_main_loop` is left out. That covers threads,
  timers, channels, broker and network messages, block signing, world
  state application, Kura storage and events. The genesis functions and
  core/src/sumeragi/mod.rs are also left out. All of these are I/O or
  concurrency.
- data_model/src/permission.rs and runtime_validators/forbid_bob/src/lib.rs
  are not part of this model. The first is plain data. The second is one
  comparison in a WASM entry point.
- The on-demand ordering fake peer notifier, a test header with no
  behaviour, is not part of this model.
