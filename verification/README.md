# VaultKeeper: a verified model

VaultKeeper is a peer-to-peer storage system. This project models the parts of it that
carry state or protocol: Merkle trees and their proofs, the ledger's root and its
synchronisation, the gossip queue and its duplicate filter, peer liveness, replication
bookkeeping, chunking with erasure coding, and billing accounts with their freeze
lifecycle. Each stateful type of the program is a class whose methods are proved against
a specification on values; the theorems about whole runs are about those specifications.

| file | what it models |
|---|---|
| `Basics.dfy`, `Hex.dfy` | results, bytes, digests, hexadecimal |
| `Merkle.dfy`, `MerklePaths.dfy`, `MerkleInputs.dfy` | `core/src/merkle.rs` |
| `LedgerStore.dfy` | reading the ledger and its root, `ledger/src/store.rs`, `ledger/src/schema.rs` |
| `Conflict.dfy`, `GossipSync.dfy` | `ledger/src/conflict.rs`, `ledger/src/gossip_sync.rs` |
| `Messages.dfy`, `Schedule.dfy`, `GossipQueue.dfy`, `SeenMessages.dfy` | `p2p/src/message.rs`, `p2p/src/gossip.rs` |
| `Heartbeat.dfy`, `HeartbeatRuns.dfy` | `p2p/src/heartbeat.rs` |
| `Replication.dfy`, `ReplicationRuns.dfy` | `storage/src/replication.rs` |
| `Chunking.dfy`, `Galois.dfy`, `ErasureCode.dfy`, `Erasure.dfy`, `RoundTrip.dfy` | `core/src/chunking.rs`, `core/src/erasure.rs` |
| `Freeze.dfy`, `Account.dfy`, `AccountRuns.dfy` | `billing/src/freeze.rs`, `billing/src/account.rs` |

How the outside world enters:

- The hash is a parameter, any function from byte strings to 32-byte digests. It is never
  assumed injective: where binding or soundness would fail, an executable function
  (`PathCollision`, `LeafCollision`, `ChunkCollision`, `AnyCollision`, `LedgerCollision`,
  and `Trace` and `Membership`, which otherwise give a position) computes two different
  inputs with the same digest. The bare existence of a collision would say nothing, since
  some always exist.
- Clock readings, random identifiers and request ids are parameters of the operations.
  Instants are nanoseconds. No order of clock readings is assumed.
- The order in which a hash map or hash set is traversed is arbitrary: the methods pick
  elements nondeterministically and are proved for every choice.
- Ledger rows are numbered from one without gaps; nothing in the program deletes one. Every
  row's text holds its own number and eight field names, so the rows of a ledger are all
  different and longer than two digests, which is what `Distinguishable` asks for.
- Money is `real`; the decimal library's limit of 28 digits is not modelled.
- Counters that are 32 or 64 bits wide in the program are natural numbers.
- JSON values are compared by value. The program compares their serialised text, which is
  the same for values whose keys are sorted and whose numbers are kept as written, as here.

Where the code departs from its documentation or its evident intent, the model follows the
code, and the exact condition under which the intent is met is proved:

- A generated Merkle proof has one node too many (the loop at `core/src/merkle.rs:77` also
  visits the root layer). It is accepted exactly when the digest of the root joined with
  itself is the root again; without that node it is always accepted (`GeneratedProof`,
  `GeneratedProofRefused`). So an accepted one gives a hash collision, unless the root is
  itself hashed from the root joined with itself (`AcceptedGeneratedProof`).
  The tests in the same file expect it always to be accepted.
- The verifier checks neither the length of a path nor its directions against a position,
  and leaves are hashed like inner nodes. So an inner node passes for a leaf
  (`RootPassesForLeaf`); still, any accepted path no longer than the tree is high starts at
  a node that far below the root (`AnyPathStartsAtNode`), and at a leaf whenever neither
  the claimed chunk nor those of the tree are 64 bytes long (`AcceptedChunkIsMember`).
- Empty data is encoded into five empty shards that cannot be decoded again, so the round
  trip holds exactly for data that is not empty (`ReconstructsExactly`, `EmptyDataIsLost`);
  `tests/property/erasure_property.rs` expects it of empty data too. Files are not
  affected, because chunks are never empty. That the codec refuses empty shards is part of
  the modelled codec, see below.
- Votes decide a ledger conflict before timestamps do, contrary to the header of
  `ledger/src/conflict.rs`. If both tie, the version that arrived first is kept, where
  `docs/ARCHITECTURE.md` promises the smaller hash; the result is then independent of the
  order of arrival exactly when one version beats every other
  (`OrderIrrelevantIffClearWinner`, `TieIsDecidedByArrival`).
- A chunk registered with replication target zero is cached as incomplete until something
  is recorded about it or a peer dies, and exactly so long (`FlagIsSum`,
  `FlagDisagreesOnlyUntouched`, `FlagWrongForTargetZero`).
- A heartbeat does not clear the misses of a peer that is still alive, so such a peer is
  suspected the sooner; the ticks are exact for any number of misses on record
  (`SilentPeer`).
- The ledger's root covers the first 100,000 rows. Rows appended later change it exactly
  when that many are not there yet (`AppendedRowsUnseen`). So the protocol rests between
  different ledgers exactly when the peer is not ahead, both have at least 100,000 rows and
  the first 100,000 are the same (`DifferenceIsMissed`, `RowBeyondLimitNeverSynced`).
- A request for ledger entries asks from a number computed from both ledgers' lengths, and
  the store's range read, the only one there is to answer it, stops at 10,000 rows. The
  answer holds the peer's whole ledger exactly when that peer is ahead and has at most
  10,000 rows (`AnswerIsWhole`). A peer that is ahead always answers with its first 10,000
  rows (`AnswerIgnoresProgress`, `SyncStalls`). Whether the answer holds a row that is not
  held locally depends on where the ledgers part: the exact condition is that of
  `AnswerBringsNews`, and a failing input is `NewsIsMissed`. Where one ledger continues the
  other, the peer must be ahead and fewer than 10,000 rows be held locally
  (`ContinuationBringsNews`).
- Lifting a freeze does not look at the balance; active accounts stay out of debt exactly
  when no freeze is lifted in debt (`ActiveInDebtOnlyByLifting`, `DebtByLifting`).
- `docs/BILLING.md:186` has active accounts hold money. An active account holds none exactly
  since it was opened, withdrawn from in full, or lifted without money
  (`ActiveWithoutMoneyHistory`, `EmptiedStaysActive`).
- `docs/BILLING.md:195-201` has a deposit lift the freeze. The code does not, and deletes an
  account with money exactly when the deposits since it was frozen exceed the charges since
  and what it owed (`DeletedWithMoney`, `DeletedAfterDeposit`).

## Model

| member | source | states |
|---|---|---|
| `Hex.RoundTrip` | core/src/merkle.rs:89-99 | Digests written into a proof in hexadecimal are read back as they were. |
| `Hex.WrittenAt` | core/src/merkle.rs:89-99 | Every byte is written as its two lower-case digits, the higher one first. |
| `Hex.DecodeIff` | core/src/merkle.rs:105-118 | A text is read as given bytes exactly if it is their digits, in either case. |
| `Merkle.FromHashes` | core/src/merkle.rs:23-55 | The loop builds the layers and the root: over two neighbours stands the digest of the left one followed by the right one, over a last node without neighbour that of the node twice; with no leaves there are no layers and the root is the digest of nothing. |
| `Merkle.LayersIffBuiltUp` | core/src/merkle.rs:32-53 | The recursive layers and root are the only ones that are built up in this way, by plain concatenation of digests. |
| `Merkle.RootOfTwo` | core/src/merkle.rs:44-47 | The root over two digests is that of the first followed by the second. |
| `Merkle.FromChunks` | core/src/merkle.rs:17-20 | A tree over chunks is the tree over their digests. |
| `Merkle.WidthIsCeiling` | core/src/merkle.rs:35-37 | The layer at height k has the leaf count divided by 2^k nodes, rounded up. |
| `Merkle.LayerHoldsNodes` | core/src/merkle.rs:32-53 | Every stored digest is the one given by a definition that goes downwards from its height and position alone; only the top layer is one node, and that is the root. |
| `Merkle.LayerCount` | core/src/merkle.rs:35-51 | There are 1 + ceil(log2 n) layers. |
| `MerklePaths.VerifyProof` | core/src/merkle.rs:104-148 | The loop accepts exactly the well-formed proofs whose siblings fold from the leaf to the root, and refuses malformed hexadecimal. |
| `MerklePaths.AcceptsIffChain` | core/src/merkle.rs:104-147 | Accepted are exactly the proofs whose leaf, siblings and root are 64 hexadecimal digits, with a chain of digests from the leaf to the root, each of the one before and the sibling in the order given by the direction. |
| `MerklePaths.Proof` | core/src/merkle.rs:69-101 | Out-of-range indices give nothing; otherwise the loop generates the siblings met in every stored layer, the root's included, with index, leaf and root in hexadecimal. |
| `MerklePaths.PathLeadsToRoot` | core/src/merkle.rs:77-135 | For every leaf of every tree, folding its siblings from all layers below the root gives the root. |
| `MerklePaths.GeneratedProof` | core/src/merkle.rs:77-147 | A proof as generated is accepted exactly if hashing the root with itself gives the root; without its last node it is always accepted. |
| `MerklePaths.GeneratedProofRefused` | core/src/merkle.rs:77-147 | A concrete generated proof that is refused. |
| `MerklePaths.PathSoundness` | core/src/merkle.rs:69-148 | A path of the tree's height that spells position i and folds to the root starts at leaf i, or a collision is computed. |
| `MerklePaths.ProofSoundness` | core/src/merkle.rs:104-148 | The same for an accepted proof as received, in hexadecimal. |
| `MerklePaths.AnyPathStartsAtNode` | core/src/merkle.rs:104-148 | Any path of any directions, no longer than the tree is high, that folds to the root starts at a node as far below the root as the path is long; its position or a collision is computed. |
| `MerklePaths.RootPassesForLeaf` | core/src/merkle.rs:104-148 | The root itself is accepted as a leaf, with no siblings. |
| `MerklePaths.RootBinding` | core/src/merkle.rs:23-55 | Two leaf lists of the same length with the same root are equal, or a collision is computed. |
| `MerklePaths.ChunkBinding` | core/src/merkle.rs:17-55 | The same for the chunks under the leaves. |
| `MerklePaths.RepeatedLastLeaf` | core/src/merkle.rs:39-43 | Repeating the last leaf of an odd list of three or more keeps the root, so binding needs equal lengths or leaves that are all different. |
| `MerkleInputs.AcceptedGeneratedProof` | core/src/merkle.rs:77-147 | A proof as generated is accepted exactly if the root's own input is the root joined with itself, or the two are a computed collision. |
| `MerkleInputs.AcceptedChunkIsMember` | core/src/merkle.rs:104-148 | A path of any length and directions from the digest of a claimed chunk to the root shows the chunk in the tree, at a computed position, or a collision is computed, if no chunk is as long as two digests. |
| `MerkleInputs.AcceptedProofShowsChunk` | core/src/merkle.rs:104-148 | The same for an accepted proof as received, in hexadecimal. |
| `MerkleInputs.BindingAtAnyLength` | core/src/merkle.rs:17-55 | Chunk lists of any two lengths with one root are equal, or a collision is computed, if the chunks of each are all different and longer than two digests. |
| `LedgerStore.ComputeMerkleRoot` | ledger/src/store.rs:87-114 | The overwriting loop yields the top of layers built up over the first 100,000 rows, and for an empty ledger the digest of the word `empty`. |
| `LedgerStore.SameRootAsTree` | ledger/src/store.rs:96-113 | The ledger's loop and the layered builder give the same root, which is also alone in the builder's top layer. |
| `LedgerStore.EntriesAreConsecutive` | ledger/src/schema.rs:88-92 | A range read returns the rows from the first numbered above the given one on, in order, up to the limit or the last row. |
| `LedgerStore.EntryIsRead` | ledger/src/schema.rs:88-92 | Of rows that are all different, a range read holds exactly those whose numbers follow the given one, up to the limit. |
| `LedgerStore.SameRootSameRows` | ledger/src/store.rs:87-114 | Ledgers that advertise the same root have read the same rows, or a collision is computed: of the same size whatever the rows, of any sizes if the rows are distinguishable. |
| `LedgerStore.RowsBeyondLimitUnseen` | ledger/src/store.rs:89 | Rows appended to a full ledger do not reach the root. |
| `LedgerStore.AppendedRowsUnseen` | ledger/src/store.rs:87-114 | Appended rows leave the root as it is exactly if there are none or 100,000 rows were there, or a collision is computed. |
| `Conflict.ConflictResolver.DetectConflicts` | ledger/src/conflict.rs:83-113 | Detection through an index by id finds what a nested scan finds, in remote order. |
| `Conflict.ScanFindsClashes` | ledger/src/conflict.rs:81-109 | What is found are exactly the remote entries that differ from the last local entry with their id. |
| `Conflict.ScanInOrder` | ledger/src/conflict.rs:81-113 | They are found in the order of the remote entries, one for each that clashes, none left out and none twice. |
| `Conflict.ConflictDescribes` | ledger/src/conflict.rs:25-42 | A conflict holds the two entries with the number and timestamp of each, zero and nothing where absent; entries are identified by their text under `id`. |
| `Conflict.StrLessIffPrecedes` | ledger/src/conflict.rs:45-48 | The comparison of timestamps: the earlier is the beginning of the later, or smaller at the first character that differs. |
| `Conflict.ConflictResolver.Resolve` | ledger/src/conflict.rs:117-137 | The remote entry wins with more votes, or with as many and a later timestamp, and otherwise the local one; the counter of the winner and that of resolutions go up by one. |
| `Conflict.KeptIsEarliestGreatest` | ledger/src/conflict.rs:53-62 | Resolving any sequence of versions one after the other keeps the earliest to arrive of those with the most votes and then the latest timestamp. |
| `Conflict.DistinctTimestamps` | ledger/src/conflict.rs:45-62 | With equal votes, distinct timestamps make a clear winner. |
| `Conflict.OrderIrrelevantIffClearWinner` | ledger/src/conflict.rs:45-62 | All orders of arrival keep the same version exactly if one version beats every other by votes and then timestamp. |
| `Conflict.UnbeatenKeptFromFront` | ledger/src/conflict.rs:45-62 | A version that the kept one does not beat would itself be kept if it arrived first. |
| `Conflict.MirroredPeersAgree` | ledger/src/conflict.rs:53-62 | Two peers resolving one pair from both sides agree exactly if votes or timestamps differ. |
| `Conflict.TieIsDecidedByArrival` | ledger/src/conflict.rs:45-62 | Two concrete versions without a clear winner, whose order of arrival matters and which two peers swap. |
| `GossipSync.LedgerSyncManager.NeedsSync` | ledger/src/gossip_sync.rs:94-105 | Sync is needed with a known peer whose root differs, or whose root is the same and who is ahead, and with no other. |
| `GossipSync.LedgerSyncManager.CreateEntryRequest` | ledger/src/gossip_sync.rs:108-122 | The request is pending for that peer and asks from zero if the peer is ahead or unknown, and otherwise from one more than the difference of the lengths. |
| `GossipSync.LedgerSyncManager.ProcessEntries` | ledger/src/gossip_sync.rs:134-161 | A pending response is consumed, its conflicts resolved in order without votes, and each outcome counted for its side; any other yields and changes nothing. |
| `GossipSync.ResultsKeepTheLater` | ledger/src/gossip_sync.rs:134-161 | A pending response yields, for every remote entry that clashes and in the order of these, the entry with the later timestamp, the local one in doubt; any other response yields nothing. |
| `GossipSync.CountersAddUp` | ledger/src/conflict.rs:123-136 | Over every run, resolutions are local wins plus remote wins and as many as the results delivered, remote wins as many as those for the remote side. |
| `GossipSync.ConsumedAtMostOnce` | ledger/src/gossip_sync.rs:107-142 | Over every run, responses consumed and requests still pending are together no more than requests sent, per id. |
| `GossipSync.ReplayIsInert` | ledger/src/gossip_sync.rs:142-160 | A replayed response, whatever happened since short of a new request with its id, yields nothing and changes nothing. |
| `GossipSync.AtRestMeansSameRows` | ledger/src/gossip_sync.rs:94-105 | For ledgers of any size: where no sync is needed the first 100,000 rows are equal, and with an honest advertisement sync is needed exactly if those rows differ or the peer is ahead, or a collision is computed; for any two lengths if the rows are distinguishable. |
| `GossipSync.DifferenceIsMissed` | ledger/src/gossip_sync.rs:94-105 | With an honest advertisement no sync is needed between different ledgers exactly if the peer is not ahead and has 100,000 rows, of which the first 100,000 are the same, or a collision is computed. |
| `GossipSync.RowBeyondLimitNeverSynced` | ledger/src/gossip_sync.rs:94-105 | Two ledgers that differ in row 100,001 only, and no sync is needed. |
| `GossipSync.AnswerIsWhole` | ledger/src/gossip_sync.rs:112-116 | The answer to a request holds all the rows of the peer exactly if that peer is ahead and has at most 10,000. |
| `GossipSync.AnswerBringsNews` | ledger/src/gossip_sync.rs:112-116 | For ledgers that part after any number of common rows, none of the peer's later ones being held, the exact condition on that number and both lengths under which the answer holds a row not held locally. |
| `GossipSync.ContinuationBringsNews` | ledger/src/gossip_sync.rs:112-116 | Where one ledger continues the other, it does exactly if the peer is ahead and fewer than 10,000 rows are held. |
| `GossipSync.NewsIsMissed` | ledger/src/gossip_sync.rs:112-116 | Two peers with one different row each: sync is needed and the answer is empty. |
| `GossipSync.AnswerIgnoresProgress` | ledger/src/gossip_sync.rs:108-122 | While a peer is ahead, sync is needed and each answer is its first 10,000 rows, whatever is held already. |
| `GossipSync.SyncStalls` | ledger/src/store.rs:63-66 | From a peer with 20,000 rows the same 10,000 come again and again, while sync is still needed. |
| `GossipQueue.GossipQueue.Enqueue` | p2p/src/gossip.rs:38-59 | Accepted exactly below capacity, a message goes to the end of its lane with the next number, which on the flat list is insertion in delivery order; refused, it changes nothing. |
| `GossipQueue.GossipQueue.Dequeue` | p2p/src/gossip.rs:62-74 | Takes the first message of the first lane that is not empty, from critical to low, which is the front of the flat list; nothing exactly if all are empty. |
| `GossipQueue.GossipQueue.Len` | p2p/src/gossip.rs:77-79 | The lane lengths add up to the length of that list. |
| `GossipQueue.PriorityTable` | p2p/src/gossip.rs:125-157 | For each priority, exactly which messages at which weights have it. |
| `Schedule.RankOrder` | p2p/src/gossip.rs:8-14 | The order of the priorities: low, normal, high, critical. |
| `GossipQueue.HigherWeightNeverWaitsLonger` | p2p/src/gossip.rs:125-157 | A greater subscription weight never puts a message further back. |
| `Schedule.RunValid` | p2p/src/gossip.rs:38-74 | Every run keeps the queue within capacity, ordered by priority and then by sequence number. |
| `Schedule.RunNumbers` | p2p/src/gossip.rs:49-55 | Accepted messages are numbered consecutively. |
| `Schedule.RunConserves` | p2p/src/gossip.rs:38-79 | Over every run, what was accepted is exactly what was delivered or still waits, each once. |
| `Schedule.SortIsUnique` | p2p/src/gossip.rs:62-74 | Delivery order leaves only one arrangement of given messages. |
| `Schedule.DrainSorts` | p2p/src/gossip.rs:61-74 | Draining after any run delivers the messages not yet delivered sorted by priority and then by age. |
| `Schedule.PositionAfter` | p2p/src/gossip.rs:38-74 | After any run, a message waits at its old position plus overtakers minus takes, exactly as long as that never went below the front. |
| `Schedule.ExactWaitingTime` | p2p/src/gossip.rs:38-74 | A message is delivered by the take numbered one plus the messages ahead on entry plus the higher-priority messages accepted since, the first take of which this is true. |
| `SeenMessages.SeenMessages.CheckAndMark` | p2p/src/gossip.rs:102-117 | A number is new exactly if not in the set; marking it forgets an arbitrary half of a full set. |
| `SeenMessages.SizeIsDetermined` | p2p/src/gossip.rs:106-115 | The size after n accepted calls does not depend on the numbers or on what was forgotten. |
| `SeenMessages.EvictionSchedule` | p2p/src/gossip.rs:106-114 | The limit is kept if it is at least two; something is forgotten first at accepted call limit + 1 and then at every (limit / 2)-th; with a smaller limit never. |
| `SeenMessages.AcceptedTwice` | p2p/src/gossip.rs:102-117 | A number accepted twice was forgotten at a scheduled call in between; below a limit of two none is. |
| `Heartbeat.HeartbeatManager.ProcessHeartbeat` | p2p/src/heartbeat.rs:90-120 | A heartbeat sets the instant and the space last reported, clears failures, registers, refreshes or revives the peer and reports which; misses are cleared only by reviving; other peers are untouched. |
| `Heartbeat.HeartbeatManager.Tick` | p2p/src/heartbeat.rs:123-154 | Every peer takes its step, in whatever order they are visited; the events are those of the peers, each once. |
| `Heartbeat.HeartbeatManager.GetDeadPeers` | p2p/src/heartbeat.rs:157-162 | Exactly the dead peers, each once. |
| `Heartbeat.HeartbeatManager.AliveCount` | p2p/src/heartbeat.rs:165-167 | The number of alive peers. |
| `Heartbeat.HeartbeatManager.RegisterPeer` | p2p/src/heartbeat.rs:175-179 | Adds an unknown peer and leaves a known one alone. |
| `HeartbeatRuns.StepIsIndependent` | p2p/src/heartbeat.rs:90-154 | In one operation of the manager each peer moves, and raises events, as if it were alone. |
| `HeartbeatRuns.RunIsIndependent` | p2p/src/heartbeat.rs:90-179 | The same for the state of every peer after any run. |
| `HeartbeatRuns.RecordIsHistory` | p2p/src/heartbeat.rs:90-179 | In every run a peer is known exactly if it beat or was registered; it was last seen at its last heartbeat, or first registered if it never beat; its space, misses and failures are those the operations tell. |
| `HeartbeatRuns.OnTimeTickIsHarmless` | p2p/src/heartbeat.rs:123-154 | After any run, a tick no later than one interval after the peer was last heard of neither changes it nor raises anything about it. |
| `HeartbeatRuns.SteadyPeerStaysAlive` | p2p/src/heartbeat.rs:90-154 | In every run in which no tick is late for a peer, it stays alive without misses and all that is raised about it are signs of life. |
| `HeartbeatRuns.LogIsOwn` | p2p/src/heartbeat.rs:90-154 | The events the manager raises about a peer, step by step of any run, are those the peer would have raised alone. |
| `HeartbeatRuns.LogShape` | p2p/src/heartbeat.rs:90-154 | In every run the events the manager raises about a peer have the shape Alive* (Suspect Died? Recovered Alive*)*, determine its status, and alive peers have fewer misses than the suspect threshold, or none. |
| `HeartbeatRuns.SilentPeer` | p2p/src/heartbeat.rs:123-154 | A peer alive after any run that falls silent, with m misses, is suspect from late tick max(1, threshold - m) on and dead from late tick max(max_missed - m, that + 1) on, whatever else happens; its whole record is determined. |
| `HeartbeatRuns.ConfiguredTicks` | p2p/src/heartbeat.rs:52-60 | With no misses and the default configuration these are the first and the third late tick, late being after more than 900 seconds. |
| `Replication.ReplicationState.CheckReplication` | storage/src/replication.rs:27-30 | Compares the sum of the shard counts, in any order, with the target. |
| `Replication.TotalIsSum` | storage/src/replication.rs:27-30 | The total is the sum over any listing of the peers, each once. |
| `Replication.ReplicationState.AddReplica` | storage/src/replication.rs:33-36 | Records the count and recomputes the flag. |
| `Replication.ReplicationState.RemovePeer` | storage/src/replication.rs:39-43 | Drops the peer, reports how many shards it held, recomputes the flag. |
| `Replication.ReplicationManager.RecordPeerShards` | storage/src/replication.rs:76-80 | Changes the one chunk, if it is tracked. |
| `Replication.ReplicationManager.HandlePeerDeath` | storage/src/replication.rs:83-96 | Every chunk loses the peer; returned, each once, are exactly the chunks where it held shards and too few remain. |
| `ReplicationRuns.RunRemembers` | storage/src/replication.rs:69-112 | In every run the tracked chunks are those registered and not unregistered since, and what is on record for a peer is the last record about it, unless it died or the chunk was registered anew since. |
| `ReplicationRuns.FlagIsSum` | storage/src/replication.rs:17-43 | In every run and for every target the cached flag is set exactly if the chunk was recorded about, or a peer died, since it was last registered, and the total of shards reaches the target. |
| `ReplicationRuns.FlagDisagreesOnlyUntouched` | storage/src/replication.rs:17-43 | The flag differs from the comparison of shards and target exactly for target zero and a chunk not touched since it was registered. |
| `ReplicationRuns.FlagWrongForTargetZero` | storage/src/replication.rs:17-24 | Such a chunk. |
| `ReplicationRuns.DeathOrderIrrelevant` | storage/src/replication.rs:39-43 | The states after a sequence of deaths depend only on the set of the dead, none of whom is mentioned any more. |
| `ReplicationRuns.ReportsTogether` | storage/src/replication.rs:83-96 | The chunks reported by some death of a sequence are exactly those that lost shards to the dead and are left with too few. |
| `ReplicationRuns.LossIsReported` | storage/src/replication.rs:83-96 | In every reachable state, a chunk complete before and incomplete after a sequence of deaths was reported. |
| `Chunking.ChunkData` | core/src/chunking.rs:6-16 | The chunks make up the data, all of 4 MiB but perhaps the last, none empty, and as few as that takes. |
| `Chunking.AssembleChunks` | core/src/chunking.rs:19-26 | Concatenates the chunks. |
| `Chunking.ConcatSplits` | core/src/chunking.rs:19-26 | Putting together is in order: of two lists, and of a single chunk. |
| `Chunking.ChunkingIsUnique` | core/src/chunking.rs:6-36 | There is only one such chunking: which bytes each chunk holds, and how many chunks there are. |
| `ErasureCode.AnyThreeRecover` | core/src/erasure.rs:42-44 | At every byte position, any three of the five bytes determine the data. |
| `ErasureCode.CodeIsEvaluation` | core/src/erasure.rs:1-8 | For every word, the five bytes are the values at 0 to 4 of one polynomial of degree below three, computed from the word. |
| `Erasure.Encode` | core/src/erasure.rs:11-40 | Five shards of equal size, a third of the length rounded up, of which the first three in a row are the data followed by fewer than three zeros, and which carry the code word of these at each position. |
| `Erasure.Reconstruct` | core/src/erasure.rs:45-88 | Too few shards, an index out of range and the codec's refusals are errors; otherwise the three data shards, found again if missing, in a row. |
| `Erasure.PlaceHoldsLast` | core/src/erasure.rs:63-69 | Each place holds the last shard received for it; the first index out of range is reported. |
| `RoundTrip.ReconstructionOutcome` | core/src/erasure.rs:45-76 | For whatever was received, exactly when reconstruction succeeds, and with which error it fails. |
| `RoundTrip.ReceivedThirdsKept` | core/src/erasure.rs:78-86 | A data shard that was received, last for its index, is the corresponding third of the result. |
| `RoundTrip.ReconstructsExactly` | core/src/erasure.rs:11-88 | From genuine shards, in any order and perhaps repeated, reconstruction succeeds exactly if the data is not empty and three different ones are there, and yields the data followed by fewer than three zeros. |
| `RoundTrip.EmptyDataIsLost` | core/src/erasure.rs:15-18 | Empty data cannot be decoded even from all five shards. |
| `RoundTrip.FileSurvives` | core/src/chunking.rs:6-26 | Any file, chunked, encoded and left with three shards of every chunk, is reconstructed, trimmed and assembled as it was. |
| `Freeze.FreezeManager.TriggerFreeze` | billing/src/freeze.rs:60-66 | Only an active account is frozen, and the instant recorded. |
| `Freeze.FreezeManager.CheckExportExpiry` | billing/src/freeze.rs:69-83 | A frozen account is deleted exactly if its window is over. |
| `Freeze.FreezeManager.Unfreeze` | billing/src/freeze.rs:106-112 | Only a frozen account becomes active again. |
| `Freeze.CountdownAgreesWithExpiry` | billing/src/freeze.rs:69-98 | The countdown shows zero when deletion is due, and otherwise only within the last second before. |
| `Freeze.CountdownInSeconds` | billing/src/freeze.rs:86-98 | The countdown shows the whole seconds left, and zero once the window is over or without a freeze. |
| `Account.BillingAccount.Deposit` | billing/src/account.rs:42-54 | Refused if not positive or after deletion; otherwise added and entered in the journal. |
| `Account.BillingAccount.Charge` | billing/src/account.rs:57-73 | Refused if not positive; otherwise subtracted and entered in the journal in every state, freezing an active account left without money. |
| `Account.BillingAccount.RequestWithdrawal` | billing/src/account.rs:76-91 | Refused below 100, beyond the balance or unless active, in this order; otherwise subtracted and entered in the journal. |
| `AccountRuns.StepMoves` | billing/src/account.rs:42-91 | In any state a positive charge subtracts its amount, a positive deposit adds it unless the account is deleted, a withdrawal subtracts it exactly if at least 100, covered and the account active, each with one journal entry; nothing else moves money. |
| `AccountRuns.StepState` | billing/src/freeze.rs:60-112 | Exactly when an operation leaves an account frozen or deleted, and since when it is frozen. |
| `AccountRuns.BalanceFromOperations` | billing/src/account.rs:42-91 | In every run the balance is the sum of the operations that moved money. |
| `AccountRuns.JournalFromOperations` | billing/src/account.rs:42-105 | In every run the journal lists exactly the operations that moved money, in order, each with its type, amount, resulting balance, instant and description. |
| `AccountRuns.JournalBalances` | billing/src/account.rs:42-105 | In every run the balance is the signed sum of the journal and each entry's balance the sum up to it. |
| `AccountRuns.ActiveInDebtOnlyByLifting` | billing/src/freeze.rs:105-112 | An account is ever active in debt exactly if a freeze was ever lifted in debt. |
| `AccountRuns.DebtByLifting` | billing/src/freeze.rs:105-112 | A concrete account active in debt. |
| `AccountRuns.StepWithoutMoney` | billing/src/account.rs:57-91 | An operation leaves an account active without money exactly if it withdraws all of it, lifts a freeze without money, or finds it so and neither settles nor charges. |
| `AccountRuns.ActiveWithoutMoneyHistory` | docs/BILLING.md:184-188 | After any run an account is active without money exactly if it has been since its opening, a withdrawal in full or the lifting of a freeze without money. |
| `AccountRuns.EmptiedStaysActive` | billing/src/account.rs:76-91 | A concrete account active with balance zero. |
| `AccountRuns.WindowIsFixed` | billing/src/freeze.rs:42-66 | The window is 48 hours, and an account is active exactly if no instant of freezing is recorded. |
| `AccountRuns.DeletedAfterFullWindow` | billing/src/freeze.rs:60-83 | In every run a deleted account was frozen by a charge, stayed frozen, and was deleted no earlier than 48 hours after that charge. |
| `AccountRuns.DeletedWithMoney` | docs/BILLING.md:190-203 | In every run a deleted account had money left exactly if the deposits since the charge that froze it exceed the charges since and what it owed then. |
| `AccountRuns.DeletedAfterDeposit` | billing/src/freeze.rs:69-83 | A concrete account deleted with money. |
| `AccountRuns.DeletionIsFinal` | billing/src/account.rs:46-85 | Whatever follows a deletion, the account stays deleted, deposits and withdrawals are refused, and the balance cannot rise. |

## Left out

- BLAKE3, encryption, key derivation and recovery phrases: library calls; the hash is a parameter.
- `core/src/merkle.rs`, `generate_challenge`: random sampling.
- The Reed-Solomon crate: not part of this model. Modelled in its place is the code given by polynomials of degree below three over the field of 256 elements, with the crate's checks for empty, unequal and too few shards, all reported as one error.
- An operation running the whole way from file to shards and back: the program has none; trimming a reconstructed chunk to its length, which `RoundTrip.FileSurvives` includes, is left to its callers.
- `core/src/padding.rs`: the header overwrites data and is read back from the other end, so there is no round trip to prove.
- SQLite: the ledger is the sequence of its serialised rows; inserting, marking as synced and checkpoints are not modelled.
- Answering a request for entries: no code connects the two ends; the store's range read is taken for the answer.
- Applying winning ledger entries, and lifting a freeze upon a deposit: described in the documentation but not in the code.
- `ReplicationState::peers_needing_replication`, `can_store`, `can_download`, `create_heartbeat`, and the other accessors: one-line reads.
- Rates, tiers and the weight of a tier, revenue split, subscriptions: straight-line arithmetic and table look-up.
- `p2p/src/challenge.rs`, discovery and transport, shard files, the sandbox, the command line, the HTTP interface and the desktop application: input and output, or thin wrappers.
- Wrap-around of counters and sequence numbers, and overflow of clock arithmetic.
- Sharing of managers between threads.
