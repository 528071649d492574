# hayakv: a verified model

hayakv is a Redis-compatible server with two cluster modes, replication and
transactions. This project models its hardest in-memory behaviour in Dafny and
proves what it promises, over every input and every run. Objects that the
program updates in place are classes; each of their methods is proved against a
pure specification, and the theorems are about those specifications.

| part | modules |
|---|---|
| Redis Cluster control plane: slot table and bitmaps, gossip, failover election | SlotBitmap, SlotRanges, ClusterSpec, ClusterState, SlotTable, Gossip, Election, SplitElection |
| Bus messages, nodes.conf, key slots | BusCodec, NodesConf, Crc16, KeySlot |
| Replication backlog and replica cursors | ReplBacklog, Replication |
| Multi-key shard locks, cursor scans | ShardLocks, LockProgress, Scan |
| MULTI/EXEC with rollback | Commands, Rollback, Transactions, Database |
| Raft routing state machine, rebalance planner | SortedList, SlotList, SlotWindows, Routing, RoutingFsm, Rebalance, RebalanceRun |
| Object encodings: sets, lists, sorted sets | Decimal, Listpack, SetObject, QuickList, ListObject, ZSetList |
| BITFIELD, eviction | Bitfield, MapSum, Evict |
| Shared | Wrappers, Seqs |

`dafny verify dfyconfig.toml` checks the whole project.

Clocks, random choices, the order of map iteration and the order, loss and
repetition of messages are inputs: every theorem holds for all of them. A Go
panic is an explicit outcome (`crashed`, `Panic`, `None`).

## Main results

- One winner per epoch if the goals together exceed the voters
  (`Election.ElectionSafety`), and for all goals a run with two winners if they
  do not (`SplitElection.BoundIsExact`).
- Slot table and bitmaps agree in every reachable state
  (`SlotTable.EveryReachableStateAgrees`), and gossip converges
  (`Gossip.GossipConverges`).
- Replicas receive the stream without gap or repeat under every interleaving
  (`Replication.StreamIntegrity`).
- Shard locks exclude, never deadlock and let everybody finish
  (`LockProgress.SharedWriteKeyExcludes`, `NeverDeadlocked`, `EveryoneFinishes`).
- An aborted EXEC leaves the keyspace exactly as it was
  (`Database.Database.ExecMulti`, on top of `Rollback.UndoRestores`), and which
  queues crash instead, and with what left behind, is exact
  (`Transactions.CrashIff`).
- Eviction keeps its running total exact and stops only within the limit, stuck
  or exhausted (`Evict.Server.FreeMemoryIfNeeded`).
- Raft routing keeps every slot hosted and, over tidy runs, both indexes inverse
  (`Routing.EverySlotHosted`, `Routing.ListsAreExact`).
- A rebalance carries out the tasks it planned, and leaves every master its
  average, exactly as long as no task finishes before a later one of its source
  is started (`RebalanceRun.CarriedOutAsPlannedIff`, `PlanLeavesAverage`).
- Every encoding of a set, list or sorted set behaves as the mathematical
  object (`SetObject`, `ListObject`, `ZSetList`).
- The table-driven CRC is polynomial division (`Crc16.Checksum`), and the codecs
  round-trip exactly when their fields fit (`BusCodec`, `NodesConf`).

## Where the code does not do what it says

The model follows the code. The lemma or contract named with each point gives
the exact condition under which the expected property holds.

- A vote acknowledgement puts the election epoch where other messages carry the
  sender's config epoch, so merging it can take slots from a higher-ranked owner
  (`Gossip.AckOverridesOwnerIff`). Convergence is about all other messages.
- Equal config epochs make the order of gossip matter
  (`Gossip.OrderMattersIffEpochsTie`).
- `votesNeeded` counts the masters the candidate happens to know, so candidates
  that know too few can both win (`SplitElection.BoundIsExact`).
- Gossip does not say whom a replica follows, and a master only votes for
  replicas whose master it knows. Nodes started afresh therefore never vote for
  one another (`Election.NoVotesForOthers`); votes, and the two winners above,
  need nodes that learned their peers' masters by loading nodes.conf.
- `addSlots` on a slot of another node leaves that node's bit set
  (`SlotTable.AddSlotsAgreesIff`).
- The RDB rewrite sets `beginOffset` but not `currentOffset` of the new backlog
  (`ReplBacklog.RewriteHoldsIff`, `RewriteAcceptsSnapshotIff`).
- A header's version is always written as 1 (`BusCodec.HeaderRoundTripIff`).
- A raft failover ranges over the very list it shortens, so the old master keeps
  every other slot in `Node2Slot` (`SlotList.SweptMeaning`,
  `Routing.RerouteKeepsInverseIff`), against the comment that the list is kept
  in step with `Slot2Node`.
- A migration whose source is its target leaves its slots without a host
  (`Routing.MigrateKeepsTotalIff`).
- Joins and failovers that give a node two roles are accepted
  (`Routing.JoinKeepsRolesIff`, `Routing.FailoverKeepsRolesIff`).
- The rebalance planner starts an exhausted exporter afresh
  (`Rebalance.TasksDisjointIff`).
- A rebalance task is a window of its source's live list and is read only when
  it is started. Tasks of that source that have finished by then have shifted
  the cells, so it takes the wrong slots, the last one again and again past the
  end (`RebalanceRun.CarriedOutAsPlannedIff`, `StartBehind`,
  `EarlyFinishTakesLast`, `EarlyFinishRepeats`).
- Unsigned BITFIELD INCRBY with SAT or FAIL misses the overflow of an increment
  above the maximum (`Bitfield.OverflowTest`).
- BITFIELD accepts negative offsets: from -8 down they panic, as a write at -1 to
  an empty string does; the others lose the bits before the string
  (`Bitfield.ReadBackIff`, `Bitfield.OneBitEarly`).
- LPOP and RPOP with a negative count panic, and so does the undo log of RPOP
  with count 0 on a quicklist; the server recovers and keeps what the commands of
  the transaction before it did (`Transactions.CrashIff`, `AllOrNothingIff`). ZSet
  PopMin with a negative count panics too (`ZSetList.ZSet.PopMin`).
- Out-of-range indices, and LREM-style counts that are not positive, mean
  different things to a listpack and to a quicklist (`ListObject.List`).
- A set or hash scan with a count below 1 ends at once
  (`Scan.ScanCompleteIff`), and a negative cursor panics (`Scan.SetScan`,
  `Scan.HashScan`).
- ZADD takes NaN, which has no place in the order (`ZSetList.RankableIff`).
- The eviction loops use the empty key as "none yet", so a sample that holds the
  empty key may lose its best victim, or all (`Evict.PickIsBestIff`,
  `Evict.PickIsNoneIff`).

The comment above `lfuDecay` speaks of halving the counter; the code subtracts
one per minute, and so does `Evict.Decayed`.

## Model

| member | source | states |
|---|---|---|
| `SlotBitmap.AddSlotOwned` | internal/rediscluster/node.go:55 | setting a slot's bit in the 2048-byte bitmap adds exactly that slot to the owned set; no other bit of the byte moves |
| `SlotBitmap.DelSlotOwned` | internal/rediscluster/node.go:56 | clearing a slot's bit removes exactly that slot from the owned set |
| `SlotRanges.BelowMeaning` | internal/rediscluster/node.go:72-90 | the reference list holds exactly the owned slots below the bound |
| `SlotRanges.BelowAscends` | internal/rediscluster/node.go:72-90 | the reference list is strictly ascending, so each owned slot is counted once |
| `SlotRanges.SlotCount` | internal/rediscluster/node.go:61-69 | the counting loop returns the number of owned slots |
| `SlotRanges.Ranges` | internal/rediscluster/node.go:72-90 | the ranges printed are ascending with a gap between neighbours (so each is maximal and they are disjoint) and expand to exactly the owned slots, in order |
| `ClusterState.ClusterNode.constructor` | internal/rediscluster/node.go:36-45 | a new node owns no slot and has the given flags |
| `ClusterState.ClusterNode.AddSlot` | internal/rediscluster/node.go:55 | the node then owns its old slots and this one; only its bitmap changes |
| `ClusterState.ClusterNode.DelSlot` | internal/rediscluster/node.go:56 | the node then owns its old slots without this one; only its bitmap changes |
| `ClusterState.ClusterState.constructor` | internal/rediscluster/state.go:35-51 | the boot state: this node alone, no slot owned, the given epoch |
| `ClusterState.ClusterState.AddSlots` | internal/rediscluster/state.go:71-84 | whole new state: every listed slot points at this node and is in its bitmap, epoch and config epoch advance together, nothing else moves |
| `ClusterState.ClusterState.DelSlots` | internal/rediscluster/state.go:86-95 | whole new state: the listed slots this node owns become free, slots of others stay |
| `ClusterState.ClusterState.AssignSlotToNode` | internal/rediscluster/state.go:98-114 | an unknown node changes nothing and is reported; otherwise the slot leaves its old owner's bitmap for the new one's |
| `ClusterState.ClusterState.ForgetNode` | internal/rediscluster/state.go:139-150 | the node and every slot pointing at it go; for this node itself, which the command layer refuses, the same fields change |
| `ClusterState.ClusterState.Reset` | internal/rediscluster/state.go:152-164 | all slots are free, only this node is known, it owns nothing and the epoch is 0 |
| `ClusterState.ClusterState.Replicate` | internal/rediscluster/state.go:166-176 | an unknown master is refused without change; otherwise only this node's role changes |
| `ClusterState.ClusterState.MeetSender` | internal/rediscluster/gossip.go:267-287 | a new sender is added, a known one takes the header's config epoch, the epoch never goes down, and an anonymous sender is not added |
| `ClusterState.ClusterState.MergeSlots` | internal/rediscluster/gossip.go:288-306 | the slot loop moves to the sender exactly the claimed slots that were free or held at a lower epoch when the message arrived, although it reads the table it is changing |
| `ClusterState.ClusterState.MergeEntry` | internal/rediscluster/gossip.go:308-333 | a gossip entry adds an unknown node without slots or updates failure flags; it never moves a slot |
| `ClusterState.ClusterState.MergeFromMessage` | internal/rediscluster/gossip.go:267-333 | the in-place merge of header and entries equals the specification the convergence proof is about |
| `ClusterState.ClusterState.GrantVote` | internal/rediscluster/failover.go:27-56 | granted exactly when the request is acceptable and newer than the last vote; only the last-vote epoch changes, and only then |
| `ClusterState.ClusterState.HandleAuthRequest` | internal/rediscluster/gossip.go:506-575 | the request is answered for the requesting replica's own master, after the same checks, in the same order |
| `ClusterState.ClusterState.MasterCount` | internal/rediscluster/failover.go:59-69 | the number of known masters, whatever order the node map is walked in |
| `ClusterState.ClusterState.StartElection` | internal/rediscluster/failover.go:73-104 | undisturbed, the election takes the next epoch, starts without votes (not even its own) and needs a majority of the known masters |
| `ClusterState.ClusterState.RecordVote` | internal/rediscluster/failover.go:109-132 | a vote counts only for the running election and its epoch, once per voter; true exactly when this vote reaches the goal |
| `ClusterState.ClusterState.HandleAuthAck` | internal/rediscluster/gossip.go:581-609 | an acknowledgement counts only on a replica that its gossip section names as candidate |
| `ClusterState.ClusterState.ClaimOwnership` | internal/rediscluster/failover.go:136-169 | every slot of the failed master, and nothing else, passes to this node, in the table and in both bitmaps; an unknown master changes nothing, and naming this node itself is covered |
| `ClusterState.ClusterState.CheckFailoverTick` | internal/rediscluster/failover.go:193-264 | one tick starts an election, gives up one that timed out, or completes one; it claims slots exactly when this replica of a failed master has won |
| `SlotTable.AddSlotsAgreesIff` | internal/rediscluster/state.go:71-84 | adding slots keeps table and bitmaps in agreement if and only if none of them belongs to another node |
| `SlotTable.MergeKeepsAgreement` | internal/rediscluster/gossip.go:267-333 | merging any message, honest or not, keeps `slots[s] == n` if and only if n's bitmap has s |
| `SlotTable.ApplyKeepsAgreement` | internal/rediscluster/state.go:71-176 | each mutator (add, delete, assign, forget, reset, replicate, claim, merge) keeps that agreement, when ADDSLOTS names no slot of others and FORGET not this node |
| `SlotTable.RunKeepsAgreement` | internal/rediscluster/state.go:71-176 | so does every run of mutators |
| `SlotTable.EveryReachableStateAgrees` | internal/rediscluster/state.go:35-176 | in every state reachable from boot every owner is known, and no two bitmaps claim one slot |
| `SlotTable.TotalOwnedIsCardinality` | internal/rediscluster/state.go:122-132 | bitmap sizes summed over any set of nodes count the slots held by those nodes |
| `SlotTable.AssignedIsTotalOwned` | internal/rediscluster/state.go:122-132 | the number of assigned slots equals the sum of the nodes' slot counts |
| `Gossip.EntriesKeepOwners` | internal/rediscluster/gossip.go:308-333 | gossip entries leave owners, epochs and known nodes' config epochs alone |
| `Gossip.MergeOwner` | internal/rediscluster/gossip.go:290-307 | one message takes a claimed slot if and only if it is free or its owner's epoch is lower |
| `Gossip.HeaderSettles` | internal/rediscluster/gossip.go:267-307 | if every slot is with its highest-epoch claimant among those heard, it still is with the sender added |
| `Gossip.MergeAllSettles` | internal/rediscluster/gossip.go:267-307 | any sequence of messages, repeated and in any order, leaves every slot with its highest-epoch claimant, this node included |
| `Gossip.SettledAgree` | internal/rediscluster/gossip.go:267-307 | two nodes settled on the same claims have the same table |
| `Gossip.GossipConverges` | internal/rediscluster/gossip.go:267-307 | two nodes that heard the same senders, each in its own order and number of times, end with identical slot tables |
| `Gossip.OwnClaimSettles` | internal/rediscluster/state.go:71-84 | a booted node that adds its slots meets the starting condition of the convergence theorem |
| `Gossip.OrderMattersIffEpochsTie` | internal/rediscluster/gossip.go:290-306 | two rival claims to a free slot give the same owner in both orders if and only if their epochs differ |
| `Gossip.AckTakesSlotIff` | internal/rediscluster/gossip.go:533-562 | a vote acknowledgement gives the voter a slot of its bitmap if and only if it is free, already the voter's, or its owner's epoch is below the election epoch |
| `Gossip.AckOverridesOwnerIff` | internal/rediscluster/gossip.go:533-562 | an owner that outranks the voter loses the slot if and only if the election epoch outranks the owner |
| `Election.VoteKeepsInv` | internal/rediscluster/failover.go:27-56 | granting keeps: one vote per voter and epoch, and the last-vote epoch bounds every vote cast |
| `Election.TallyKeepsInv` | internal/rediscluster/failover.go:109-132 | a candidate only ever counts voters that granted it this epoch, however acknowledgements are repeated or reordered |
| `Election.StepKeepsInv` | internal/rediscluster/failover.go:27-264 | every step of every node keeps the election invariant: both critical sections of starting an election, with anything between them, message deliveries, ticks and all slot operations |
| `Election.RunKeepsInv` | internal/rediscluster/failover.go:27-264 | so does every run |
| `Election.QuorumsMeet` | internal/rediscluster/failover.go:80-82 | two sets of voters that together outnumber the voters share one |
| `Election.ElectionSafety` | internal/rediscluster/failover.go:27-132 | over every run, network duplication and reordering included, two elections won in one epoch have the same winner whenever their goals are majorities of the masters that voted |
| `Election.ClaimsAreVictories` | internal/rediscluster/failover.go:193-264 | a node only claims slots for an election recorded as won by itself |
| `Election.NoVotesForOthers` | internal/rediscluster/gossip.go:510-533 | over every run from nodes that know no peer's master, as after a fresh start, no node votes for another, so no election that needs two votes is won |
| `SplitElection.Elects` | internal/rediscluster/failover.go:73-132 | a replica that knows 2p-1 masters, its failed one included, needs p votes and wins with exactly those |
| `SplitElection.BoundIsExact` | internal/rediscluster/failover.go:59-132 | the majority condition is needed at every size: for all goals p and q a run exists in which two candidates win one epoch with goals p and q, and exactly p+q voters voted in it |
| `BusCodec.GetId` | internal/rediscluster/gossip.go:78-84 | the text before the first NUL, or the whole field |
| `BusCodec.PaddedRoundTripIff` | internal/rediscluster/gossip.go:67-84 | a fixed-width text field reads back unchanged if and only if it fits and holds no NUL |
| `BusCodec.EncodeHeader` | internal/rediscluster/gossip.go:86-101 | the buffer filled offset by offset is the concatenation of the twelve fields |
| `BusCodec.HeaderRoundTripIff` | internal/rediscluster/gossip.go:86-124 | before any payload, a header reads back with every field equal (its version as 1) if and only if the sender id fits 40 bytes without NUL |
| `BusCodec.EntryRoundTripIff` | internal/rediscluster/gossip.go:126-161 | a gossip entry reads back if and only if its id fits 40 and its address 46 bytes, both without NUL |
| `BusCodec.EncodeGossip` | internal/rediscluster/gossip.go:126-141 | the buffer is the entries' encodings end to end |
| `BusCodec.DecodeGossip` | internal/rediscluster/gossip.go:143-161 | the loop reads whole entries up to the count and stops at the first incomplete one |
| `BusCodec.GossipRoundTrip` | internal/rediscluster/gossip.go:126-161 | decoding undoes encoding for every list of such entries, whatever follows |
| `NodesConf.WordsOfJoin` | internal/rediscluster/state.go:261-264 | splitting at white space undoes joining any words |
| `NodesConf.NumberOfFormat` | internal/rediscluster/state.go:268-302 | number fields read back over the whole int64 and uint64 ranges |
| `NodesConf.FlagsRoundTrip` | internal/rediscluster/node.go:95-122 | every set of flags reads back from its printed form, `noflags` for none |
| `NodesConf.AddressRoundTrip` | internal/rediscluster/state.go:268-276 | ip, port and bus port read back; the ip may itself contain colons |
| `NodesConf.RangeRoundTrip` | internal/rediscluster/state.go:303-319 | a slot or slot range token reads back as exactly its slots |
| `NodesConf.RangesRoundTrip` | internal/rediscluster/state.go:303-319 | a list of tokens reads back as the expansion of its ranges |
| `NodesConf.ParseSlots` | internal/rediscluster/state.go:303-319 | the token loop, skipping migration tokens and wrapping to 16 bits, yields the slots of all tokens |
| `NodesConf.LineRoundTrip` | internal/rediscluster/state.go:261-321 | parsing a printed nodes.conf line gives back every field, the slots in order, and whether it is this node |
| `CrcWords.TimesXBranches` | internal/rediscluster/crc16.go:16-22 | the shift-and-xor branch is multiplication by x modulo x^16+x^12+x^5+1 |
| `Crc16.SerialDivides` | internal/rediscluster/crc16.go:28-34 | feeding a register bit by bit leaves the remainder of the message times x^16, for any modulus |
| `Crc16.FeedAtOnce` | internal/rediscluster/crc16.go:12-34 | feeding n bits one at a time equals adding them at the top and multiplying n times |
| `Crc16.FeedByte` | internal/rediscluster/crc16.go:12-25 | a whole byte at once equals its eight bits in turn |
| `Crc16.TableStep` | internal/rediscluster/crc16.go:28-34 | one table look-up equals eight steps on the whole register |
| `Crc16.InitTable` | internal/rediscluster/crc16.go:12-25 | entry i is eight steps from byte i |
| `Crc16.Checksum` | internal/rediscluster/crc16.go:28-34 | the table-driven loop returns the CRC-16/XMODEM remainder of every byte string |
| `KeySlot.HashTag` | internal/rediscluster/crc16.go:39-59 | the two scanning loops find the text between the first brace and the next closing one, or the whole key |
| `KeySlot.TagIdempotent` | internal/rediscluster/crc16.go:39-59 | the tag of a tag is itself |
| `KeySlot.TagOf` | internal/rediscluster/crc16.go:39-59 | every key p{t}q with brace-free p and nonempty t has tag t |
| `KeySlot.Key2Slot` | internal/rediscluster/crc16.go:62-64 | the slot is the tag's CRC modulo 16384 |
| `KeySlot.SameTagSameSlot` | internal/rediscluster/crc16.go:39-64 | such keys all share the slot of t, as the "Hash tags" section of the Redis Cluster specification requires |
| `ReplBacklog.AppendHolds` | internal/command/replication_master.go:85-98 | append and trim keep the buffer equal to the stream from beginOffset on, within the limit, and never move it back |
| `ReplBacklog.Backlog.AppendBytes` | internal/command/replication_master.go:85-98 | the in-place append and trim, all five fields |
| `ReplBacklog.Backlog.GetSnapshotAfter` | internal/command/replication_master.go:104-113 | exactly the stream from the offset when it is covered, from the window's start when it is older, nothing when it is ahead |
| `ReplBacklog.RewriteHoldsIff` | internal/command/replication_master.go:217-224 | the window an RDB rewrite installs is on the stream if and only if nothing had been streamed |
| `ReplBacklog.AppendAllOffsets` | internal/command/replication_master.go:85-98 | after any appends the offsets depend only on the total length |
| `ReplBacklog.RewriteAcceptsSnapshotIff` | internal/command/replication_master.go:200-241 | after a rewrite at offset c a full resync is accepted if and only if c more bytes came and they still fit the limit |
| `Replication.AppendKeepsInv` | internal/command/replication_master.go:85-98 | appending keeps every replica's and the running sender's stretch of the stream intact |
| `Replication.ResyncKeepsInv` | internal/command/replication_master.go:244-401 | each step of a full or partial resync keeps the invariant, whatever happens between its critical sections |
| `Replication.SendOneKeepsInv` | internal/command/replication_master.go:405-436 | a send resumes at the byte where the replica stopped |
| `Replication.RunKeepsInv` | internal/command/replication_master.go:85-436 | every interleaving of appends, saves, resyncs, sends and drops keeps the invariant |
| `Replication.StreamIntegrity` | internal/command/replication_master.go:85-436 | in every run each online replica has received the stream from its sync offset to its send offset, without gap or repeat, and the buffer is the end of the stream |
| `Replication.SendIsInRange` | internal/command/replication_master.go:405-436 | the send loop never slices out of range, and drops a replica if and only if bytes it needs were trimmed |
| `Replication.FullResyncDeliversFromHeader` | internal/command/replication_master.go:244-307 | the bytes sent after an RDB start at the offset the FULLRESYNC header promised |
| `Replication.MasterStatus.constructor` | internal/command/replication_master.go:630-645 | the initial state satisfies the invariant |
| `Replication.MasterStatus.Feed` | internal/command/replication_master.go:614-628 | feeding the listener is the append step |
| `Replication.MasterStatus.TryPartialSync` | internal/command/replication_master.go:356-401 | succeeds exactly on the current id, or the former one up to its offset, with a covered offset; the replica is then online with the stream from that offset to its end |
| `Replication.MasterStatus.FullReSync` | internal/command/replication_master.go:244-307 | succeeds, without a rewrite, exactly when the snapshot offset is covered; the replica is then online with the stream from that offset to its end |
| `Replication.MasterStatus.SendUpdates` | internal/command/replication_master.go:405-436 | afterwards every replica still online is at the end of the stream; dropped are exactly those that needed trimmed bytes or could not be written to |
| `ShardLocks.SortedIsAscending` | internal/datastruct/dict/concurrent.go:387-404 | the lock order is strictly ascending over exactly the shards named |
| `ShardLocks.ToLockIndices` | internal/datastruct/dict/concurrent.go:387-404 | any keys, duplicates included, give each shard once, ascending or descending |
| `ShardLocks.RWLocks` | internal/datastruct/dict/concurrent.go:407-424 | takes each shard of the batch once, ascending, for writing exactly where some write key lives |
| `ShardLocks.RWUnLocks` | internal/datastruct/dict/concurrent.go:427-444 | releases exactly the locks and modes taken, in reverse |
| `LockProgress.StepKeepsInv` | internal/datastruct/dict/concurrent.go:407-444 | each lock, writer announcement, unlock or new batch keeps: a writer excludes every other holder, and one writer is announced per shard |
| `LockProgress.RunKeepsInv` | internal/datastruct/dict/concurrent.go:407-444 | so does every run of any number of goroutines |
| `LockProgress.SharedWriteKeyExcludes` | internal/datastruct/dict/concurrent.go:407-424 | two goroutines never both hold batches where one writes a key the other uses |
| `LockProgress.HolderWantsHigher` | internal/datastruct/dict/concurrent.go:407-424 | a goroutine holding a shard while waiting waits for a higher one |
| `LockProgress.SomeoneMoves` | internal/datastruct/dict/concurrent.go:407-444 | while anyone is busy, some goroutine can take a step other than starting a new batch, also under Go's writer preference |
| `LockProgress.NeverDeadlocked` | internal/datastruct/dict/concurrent.go:407-444 | no reachable state is deadlocked |
| `LockProgress.StepUsesRank` | internal/datastruct/dict/concurrent.go:407-444 | every such step brings the busy goroutines closer to the end |
| `LockProgress.EveryoneFinishes` | internal/datastruct/dict/concurrent.go:407-444 | from every state of the invariant a schedule without new batches lets all goroutines finish |
| `Rollback.ExecKeepsNonEmpty` | internal/command/database.go:256-267 | no command leaves an empty list, set or hash behind |
| `Rollback.ErrorsChangeNothing` | internal/command/transaction.go:133-157 | a command that replies with an error has changed nothing |
| `Rollback.UndoPush` | internal/command/list.go:202-229 | popping once per pushed value undoes LPUSH and RPUSH, deleting a list that was not there |
| `Rollback.UndoPopRestores` | internal/command/list.go:163-199 | pushing back restores LPOP and RPOP of any count, an emptied key included |
| `Rollback.UndoLSetRestores` | internal/command/list.go:388-420 | LSET is undone for positive and negative indices |
| `Rollback.UndoRPopLPushRestores` | internal/command/list.go:544-566 | RPOPLPUSH is undone, also when source and destination are one list |
| `Rollback.UndoSetRestores` | internal/command/tx_utils.go:110-146 | SADD and SREM are undone, members repeated in the command included |
| `Rollback.UndoHSetRestores` | internal/command/hash.go:124-132 | HSET is undone, fields repeated in the command included |
| `Rollback.UndoHDelRestores` | internal/command/hash.go:233-241 | HDEL is undone, also when it removed the key |
| `Rollback.UndoHIncrByRestores` | internal/command/hash.go:446-450 | HINCRBY is undone |
| `Rollback.UndoRestores` | internal/command/transaction.go:133-177 | for each of the eleven commands and every argument list whose log could be built and that succeeds, replaying its undo log restores the contents and existence of every key |
| `Transactions.PanicIff` | internal/command/list.go:119-159 | a command crashes if and only if it is LPOP or RPOP of a nonempty list with a negative count |
| `Transactions.UndoCrashIff` | internal/command/list.go:467-503 | building the undo log crashes if and only if the command does, or it is RPOP with count 0 on a quicklist |
| `Transactions.RiskyCountIff` | internal/command/list.go:119-199 | the counts that crash on some keyspace are exactly the negative ones, and 0 for RPOP |
| `Transactions.CrashIff` | internal/command/transaction.go:133-157 | EXEC crashes if and only if such a command is reached before the first error, and the keyspace is then what the commands before it made |
| `Transactions.AllOrNothingIff` | internal/command/transaction.go:133-177 | EXEC takes effect as a whole or not at all if and only if no crashing command is reached after a change |
| `Transactions.SafeCountsNeverCrash` | internal/command/transaction.go:133-177 | a queue without those counts never crashes, on any keyspace |
| `Transactions.NegativeCountLeavesHalf` | internal/command/transaction.go:133-157 | RPUSH a x followed by LPOP a with a negative count leaves the list behind |
| `Transactions.ZeroCountLeavesHalf` | internal/command/list.go:467-503 | RPUSH a x followed by RPOP k 0 does the same when k holds a quicklist |
| `Transactions.CountsExist` | internal/command/list.go:132-136 | both kinds of crashing count can be written: the texts of -1 and 0 are parsed as such |
| `Database.Database.ExecLPush` | internal/command/list.go:202-219 | the loop pushes the values one by one, so they end up reversed at the front |
| `Database.Database.ExecRPush` | internal/command/list.go:569-586 | the values end up in order at the back |
| `Database.Database.ExecPop` | internal/command/list.go:119-159 | reply and new list for no count, count 0, too many, a missing key and a wrong type; a negative count crashes |
| `Database.Database.ExecLSet` | internal/command/list.go:355-386 | index from either end, out of range and missing key reported |
| `Database.Database.ExecRPopLPush` | internal/command/list.go:513-542 | the last value moves to the front of the destination, in one list too; an emptied source goes |
| `Database.Database.ExecSAdd` | internal/command/set.go:110-127 | the reply counts members that were not there, each once |
| `Database.Database.ExecSRem` | internal/command/set.go:151-173 | the reply counts members that were there; an emptied set goes |
| `Database.Database.ExecHSet` | internal/command/hash.go:102-122 | the last value of a repeated field wins; the reply counts new fields |
| `Database.Database.ExecHDel` | internal/command/hash.go:200-231 | the reply counts fields that were there; an emptied hash goes |
| `Database.Database.ExecHIncrBy` | internal/command/hash.go:415-444 | a missing field counts from 0; bad numbers change nothing |
| `Database.Database.UndoLogs` | internal/command/transaction.go:190-201 | the log the undo functions build before the command, and exactly when building it crashes |
| `Database.Database.ExecMulti` | internal/command/transaction.go:87-177 | all commands take effect with their replies; or one fails and the keyspace is exactly as before; or one crashes and the keyspace and list encodings are those the commands before it made |
| `Database.Database.RunUndo` | internal/command/transaction.go:164-174 | replaying the logs last to first takes back one command after another |
| `SortedList.SearchFinds` | internal/cluster/raft/fsm_utils.go:28-57 | binary search splits an ascending list at the first element not below the key |
| `SortedList.InsertMeaning` | internal/cluster/raft/fsm_utils.go:28-42 | insertion keeps the list ascending and adds exactly that slot, once |
| `SlotList.RemoveMeaning` | internal/cluster/raft/fsm_utils.go:44-57 | removal keeps it ascending and takes out exactly that slot |
| `SlotList.SweepRemovesReads` | internal/cluster/raft/fsm.go:111-118 | ranging over a list while it is shifted in place removes the slots read from the shifting cells, not the slots of the list |
| `SlotList.ReadsMeaning` | internal/cluster/raft/fsm.go:111-118 | the slots read are exactly those at even positions and the last one |
| `SlotList.SweptMeaning` | internal/cluster/raft/fsm.go:111-118 | what is left are the other odd positions; nothing if and only if there were at most two slots |
| `SlotWindows.CellsMoveUp` | internal/cluster/raft/fsm_utils.go:44-57 | removals in any order only ever raise what a cell of an ascending list holds, and leave only slots of the list in the cells |
| `SlotWindows.WindowReadsIff` | internal/cluster/core/node_manager.go:174-194 | a window before the last slot, read after removals that spared the last slot, still holds its slots if and only if nothing before its end was removed |
| `SlotWindows.FrontGone` | internal/cluster/raft/fsm_utils.go:44-57 | with the first k slots removed every cell holds the slot k further on, and the last slot past the end |
| `Routing.MigrateHost` | internal/cluster/raft/fsm_utils.go:28-57 | where every slot is after a finished migration, source equal to target included |
| `Routing.MigrateKeepsTotalIff` | internal/cluster/raft/fsm.go:84-127 | a migration keeps every slot hosted if and only if source and target differ or it names none of them |
| `Routing.RerouteHost` | internal/cluster/raft/fsm.go:111-118 | where every slot is after a failover |
| `Routing.RerouteKeepsTotalIff` | internal/cluster/raft/fsm.go:111-118 | a failover keeps every slot hosted if and only if the masters differ or the slots at even and last positions are not among them |
| `Routing.EverySlotHosted` | internal/cluster/raft/fsm.go:84-127 | after SeedStart every run of events with distinct ends keeps each slot hosted |
| `Routing.MigrateKeepsInverseIff` | internal/cluster/raft/fsm.go:98-102 | a migration keeps both slot indexes inverse if and only if each of its slots is with the source, with the target or with nobody |
| `Routing.RerouteKeepsInverseIff` | internal/cluster/raft/fsm.go:111-118 | a failover keeps them inverse if and only if both masters are the same or the old one had at most two slots |
| `Routing.SeedInverse` | internal/cluster/raft/fsm.go:103-110 | SeedStart sets up inverse indexes |
| `Routing.ListsAreExact` | internal/cluster/raft/fsm.go:84-127 | over every tidy run after SeedStart each node's list is strictly ascending and holds exactly its slots |
| `Routing.JoinKeepsRolesIff` | internal/cluster/raft/fsm_utils.go:92-115 | a join keeps the two role indexes inverse, with no node in both roles, if and only if the node has no role yet or already the one it joins in, or its master is unknown (an error) |
| `Routing.FailoverKeepsRolesIff` | internal/cluster/raft/fsm_utils.go:59-80 | a failover keeps them so if and only if the new master is another node that is a slave of the old one or has no role yet |
| `Routing.ProperRunKeepsRoles` | internal/cluster/raft/fsm.go:84-127 | every run of such joins and failovers keeps them so |
| `RoutingFsm.Fsm.AddSlots` | internal/cluster/raft/fsm_utils.go:28-42 | both maps after the insertion loop |
| `RoutingFsm.Fsm.RemoveSlots` | internal/cluster/raft/fsm_utils.go:44-57 | both maps after the removal loop on a list that is not its own argument |
| `RoutingFsm.Fsm.RemoveOwnSlots` | internal/cluster/raft/fsm.go:111-118 | both maps after the loop over the list it shifts, on an array updated in place |
| `RoutingFsm.Fsm.FinishFailover` | internal/cluster/raft/fsm.go:111-118 | role and slot indexes after a failover; an unknown old master crashes |
| `RoutingFsm.Fsm.Failover` | internal/cluster/raft/fsm_utils.go:59-80 | both role maps after the promotion |
| `RoutingFsm.Fsm.AddNode` | internal/cluster/raft/fsm_utils.go:92-115 | both role maps after a join; an unknown master is an error |
| `RoutingFsm.Fsm.Apply` | internal/cluster/raft/fsm.go:84-127 | all four indexes after any event, and the event that crashes |
| `Rebalance.PlanIsGood` | internal/cluster/core/node_manager.go:151-202 | every task goes from one master to another and moves a nonempty stretch within what its source has above the average |
| `Rebalance.TaskIsSound` | internal/cluster/core/node_manager.go:151-202 | every window of the plan, read at once, gives a task from one master to another that moves at least one slot, none twice, all hosted by its source |
| `Rebalance.PlanIsDisjointIff` | internal/cluster/core/node_manager.go:165-201 | no two stretches of the plan overlap if and only if no exporter runs out exactly as an importer other than the last is satisfied |
| `Rebalance.TasksDisjointIff` | internal/cluster/core/node_manager.go:151-202 | no slot is in two windows of the returned plan if and only if, for these masters and lists, no exporter is started over that way |
| `Rebalance.MakeRebalancePlan` | internal/cluster/core/node_manager.go:151-202 | the two-cursor loop ends and returns the specified windows of the live lists; none without masters |
| `RebalanceRun.EveryRun` | internal/cluster/core/node_manager.go:102-149 | however many tasks finish before later ones are started: no slot loses its host, a source's cells are its list, and a task only gets slots its source had when the plan was made |
| `RebalanceRun.StartReadsIff` | internal/cluster/core/node_manager.go:126-134 | while all went as planned, the next task reads its planned slots if and only if no finished task of its source began before the end of its window |
| `RebalanceRun.CarriedOutAsPlannedIff` | internal/cluster/core/node_manager.go:102-149 | over every run the tasks carried out are the planned ones if and only if each was started before such a task had finished |
| `RebalanceRun.SteadyCarriedOutIff` | internal/cluster/core/node_manager.go:102-149 | if no exporter is started over: if and only if each task was started before any task of its source had finished |
| `RebalanceRun.PlanLeavesAverage` | internal/cluster/core/node_manager.go:102-202 | over every run in time each master keeps its last average-many slots |
| `RebalanceRun.StartedTaskIsSound` | internal/cluster/core/node_manager.go:102-202 | over every run in time a started task moves at least one slot, none twice, all hosted by its source when the plan was made |
| `RebalanceRun.StartBehind` | internal/cluster/core/node_manager.go:102-202 | a task started once the first k of its source have finished reads as many slots too far as those took, and the last slot past the end |
| `RebalanceRun.EarlyFinishTakesLast` | internal/cluster/core/node_manager.go:102-202 | three masters, one with all slots: if the first task finishes before the second is started, the source loses even slot 1023 |
| `RebalanceRun.EarlyFinishRepeats` | internal/cluster/core/node_manager.go:102-202 | five masters: if two tasks finish before the fourth is started, it is given slot 1023 204 times |
| `Decimal.IsInt` | internal/object/listpack.go:74-88 | accepts exactly the canonical decimals of the int64 values above MinInt64, with their value |
| `Decimal.ParseInt64` | internal/object/listpack.go:91-122 | the digit loop, with its overflow exits, computes the specified value |
| `Decimal.FormatInt64` | internal/object/listpack.go:125-155 | the canonical decimal; for MinInt64 only the sign |
| `Decimal.FormatInjective` | internal/object/listpack.go:125-155 | different integers print differently |
| `Listpack.UvarintRoundTrip` | internal/object/listpack.go:16-71 | a varint below 2^64 reads back before any suffix, within Go's overflow rules |
| `Listpack.ElemRoundTrip` | internal/object/listpack.go:16-71 | string and integer elements read back before any suffix, with the length consumed |
| `Listpack.EncodeBytes` | internal/object/listpack.go:16-31 | what is written are bytes, if the string's are |
| `Listpack.Listpack.Append` | internal/object/listpack.go:182-191 | the buffer then denotes the old elements and this one |
| `Listpack.Listpack.Get` | internal/object/listpack.go:194-210 | skipping through the bytes finds the i-th element, or none out of range |
| `Listpack.Listpack.Elements` | internal/object/listpack.go:214-226 | walking the bytes yields the elements in order |
| `SetObject.Intset.Contains` | internal/object/intset.go:32-40 | membership by binary search |
| `SetObject.Intset.Add` | internal/object/intset.go:44-67 | stays sorted and duplicate-free, every element fits the width, reports whether it was new |
| `SetObject.Intset.Remove` | internal/object/intset.go:71-87 | removes exactly the value, reports whether it was there |
| `SetObject.Intset.UpdateWidth` | internal/object/intset.go:103-115 | the width grows only if the value does not fit, to the smallest width that fits it, and never shrinks |
| `SetObject.Set.Add` | internal/object/encoding.go:345-401 | adds one member to one mathematical set of strings, through whatever conversions; 1 exactly when new |
| `SetObject.Set.Has` | internal/object/encoding.go:404-429 | membership in every encoding |
| `SetObject.Set.Remove` | internal/object/encoding.go:432-468 | removes exactly the member in every encoding; 1 exactly when it was there |
| `SetObject.Set.Len` | internal/object/encoding.go:471-482 | the cardinality in every encoding |
| `SetObject.Set.ConvertToListpack` | internal/object/encoding.go:529-538 | the members are unchanged |
| `SetObject.Set.ConvertToHashtable` | internal/object/encoding.go:541-552 | the members are unchanged |
| `QuickList.QuickList.Add` | internal/datastruct/list/quicklist.go:30-50 | appends to the flattened pages, whether or not the last page has room and however long it is |
| `QuickList.QuickList.Find` | internal/datastruct/list/quicklist.go:53-95 | a cursor at the index, from either end |
| `QuickList.QuickList.Insert` | internal/datastruct/list/quicklist.go:179-210 | inserts before the index, splitting a full page in two halves |
| `QuickList.QuickList.RemoveAt` | internal/datastruct/list/quicklist.go:212-250 | removes the element under the cursor, dropping an emptied page; the cursor is then at the next element |
| `QuickList.QuickList.RemoveLast` | internal/datastruct/list/quicklist.go:264-279 | removes and returns the last element, if any |
| `QuickList.QuickList.Next` | internal/datastruct/list/quicklist.go:106-121 | the cursor moves on by one element across pages |
| `QuickList.QuickList.Prev` | internal/datastruct/list/quicklist.go:124-139 | the cursor moves back by one element across pages |
| `QuickList.QuickList.RemoveByVal` | internal/datastruct/list/quicklist.go:298-316 | removes the first count matches while walking the list it shortens; all of them for a count that is not positive |
| `QuickList.QuickList.ReverseRemoveByVal` | internal/datastruct/list/quicklist.go:318-335 | removes the last count matches; all of them for a count that is not positive |
| `QuickList.QuickList.Range` | internal/datastruct/list/quicklist.go:373-390 | the elements between the bounds |
| `QuickList.DropLastMirrors` | internal/datastruct/list/quicklist.go:318-335 | removing the last matches is removing the first of the reversed list |
| `ListObject.List.Add` | internal/object/encoding.go:1269-1288 | appends, whether or not it converts on the way |
| `ListObject.List.Get` | internal/object/encoding.go:1303-1316 | the element at the index, or none, in both encodings |
| `ListObject.List.ConvertToQuicklist` | internal/object/encoding.go:1354-1368 | the elements are unchanged |
| `ListObject.List.Insert` | internal/object/encoding.go:1371-1397 | sequence insertion in both encodings; out of range only the quicklist crashes |
| `ListObject.List.Remove` | internal/object/encoding.go:1400-1423 | sequence removal in both encodings; out of range only the quicklist crashes |
| `ListObject.List.RemoveLast` | internal/object/encoding.go:1426-1450 | the last element, if any, in both encodings |
| `ListObject.List.Set` | internal/object/encoding.go:1453-1473 | sequence update in both encodings; out of range only the quicklist crashes |
| `ListObject.List.Range` | internal/object/encoding.go:1476-1498 | the slice in both encodings; out of range the listpack clamps and the quicklist crashes |
| `ListObject.List.RemoveByVal` | internal/object/encoding.go:1524-1544 | both encodings remove the first count matches and report how many; a count that is not positive removes none in a listpack and all in a quicklist |
| `ListObject.List.ReverseRemoveByVal` | internal/object/encoding.go:1547-1575 | both encodings remove the last count matches and report how many, with the same difference for other counts |
| `ZSetList.RankingMeaning` | internal/object/encoding.go:892-917 | if no score is NaN the ranking is ordered by score, then member, and is a permutation of the pairs |
| `ZSetList.RankingUnique` | internal/object/encoding.go:892-917 | there is at most one such order |
| `ZSetList.RankableIff` | internal/object/encoding.go:910-915 | distinct members can be put in order if and only if no score is NaN or there is only one |
| `ZSetList.RankingWithout` | internal/object/encoding.go:1041-1186 | removing members and ranking commute, if no score is NaN |
| `ZSetList.SliceMirrors` | internal/object/encoding.go:945-973 | entry i of a descending range is entry i from the end of the mirrored ascending one |
| `ZSetList.ZSet.CollectSorted` | internal/object/encoding.go:892-917 | a permutation of the pairs, and their rank order if no score is NaN |
| `ZSetList.ZSet.GetRank` | internal/object/encoding.go:921-941 | ascending and descending rank in the sorted order sum to n-1; -1 for an absent member |
| `ZSetList.ZSet.RangeByRank` | internal/object/encoding.go:945-973 | the slice of the sorted order in either direction |
| `ZSetList.ZSet.RemoveRange` | internal/object/encoding.go:1041-1101 | removes exactly the admitted pairs, keeps the others and their order, reports how many |
| `ZSetList.ZSet.RemoveByRank` | internal/object/encoding.go:1104-1146 | removes exactly the ranks between the clamped bounds |
| `ZSetList.ZSet.PopMin` | internal/object/encoding.go:1149-1186 | returns the first count pairs of the sorted order and leaves the rest; a negative count crashes |
| `Bitfield.BitMap.Grow` | internal/datastruct/bitmap/bitmap.go:10-24 | room for the size asked, no bit changed; a negative size above -8 makes room for one byte |
| `Bitfield.BitMap.SetBit` | internal/datastruct/bitmap/bitmap.go:39-53 | sets one bit, growing if needed, and no other; none at positions -7 to -1; crashes from -8 down, and at -1 on an empty bitmap |
| `Bitfield.BitMap.GetBit` | internal/datastruct/bitmap/bitmap.go:55-62 | the bit, 0 past the end and at positions -7 to -1; crashes from -8 down |
| `Bitfield.BitMap.Get` | internal/command/bitfield.go:74-88 | the field as an unsigned or two's-complement number, for every width and offset, and when it crashes |
| `Bitfield.BitMap.Set` | internal/command/bitfield.go:91-104 | returns the old value, stores the new one modulo 2^bits as far as its bits lie in the string, changes no bit outside the field; exactly when it crashes, with nothing changed |
| `Bitfield.StoredValue` | internal/command/bitfield.go:74-104 | a value in range reads back as itself |
| `Bitfield.ReadBackIff` | internal/command/bitfield.go:74-104 | a value in range, once set, is got back if and only if the offset is not negative or the bits before the string are 0 |
| `Bitfield.OneBitEarly` | internal/command/bitfield.go:43-104 | 255 set as u8 at offset -1 is got back as 127 |
| `Bitfield.OverflowTest` | internal/command/bitfield.go:108-192 | the wrapping 64-bit comparisons detect overflow if and only if the true sum is out of range, except for an unsigned increment above the maximum |
| `Bitfield.BitMap.IncrBy` | internal/command/bitfield.go:108-192 | WRAP is the sum modulo 2^bits, SAT the clamped sum, FAIL leaves the bitmap alone; the exact exception included, and exactly when a negative offset crashes |
| `Scan.HitsMeaning` | internal/object/encoding.go:600-628 | the hits are exactly the matching keys, without repetition if the keys are |
| `Scan.SetScan` | internal/object/encoding.go:600-628 | one call returns the matches of a stretch of the sorted members and where to go on; exactly when a negative cursor crashes, and what it returns otherwise |
| `Scan.HashScan` | internal/object/hash.go:67-114 | the same over the fields, each followed by its value |
| `Scan.DictScan` | internal/datastruct/dict/concurrent.go:454-488 | one call returns the matches of whole shards, or everything at once; a negative cursor crashes unless everything is returned |
| `Scan.ScanSet` | internal/object/encoding.go:600-628 | calling a set's scan until 0 ends and returns exactly the matches in order, nothing for a count below 1 |
| `Scan.ScanHash` | internal/object/hash.go:67-114 | the same for a hash, each field followed by its value |
| `Scan.ScanCompleteIff` | internal/object/encoding.go:600-628 | a scan from 0 returns every match exactly once if and only if the count is at least 1 or nothing matches |
| `Scan.ScanDict` | internal/datastruct/dict/concurrent.go:454-488 | calling the dictionary scan until 0 ends and returns exactly the matches of all shards, for every count, the shortcut for all keys included |
| `Evict.IdleIsModular` | internal/command/evict.go:59-64 | idle time is the clock difference modulo 2^24, across one wrap |
| `Evict.Candidate` | internal/command/evict.go:272-320 | each of the four passes ends at the specified candidate, the empty key standing for none |
| `Evict.RandomDistinctKeys` | internal/datastruct/dict/concurrent.go:351-380 | a sample: all keys, or as many distinct ones as asked for, without the empty key from a sharded dictionary |
| `Evict.PickIsBestIff` | internal/command/evict.go:272-320 | the candidate is a named key and extremal in its sample (soonest to expire, least used, longest idle; first for random) if and only if some named key is |
| `Evict.PickIsNoneIff` | internal/command/evict.go:272-320 | a nonempty sample yields no candidate if and only if the empty key comes last and outdoes all others, or comes first with nothing to compare |
| `Evict.EmptyKeyHides` | internal/command/evict.go:307-318 | an empty key idle longest is passed over for a key idle for less, or leaves no candidate, depending on where it was drawn |
| `Evict.UsedAfter` | internal/command/server.go:738-752 | removing a key lowers the recomputed total by exactly that key's size |
| `Evict.Server.UsedMemory` | internal/command/server.go:738-752 | the recomputed total over all databases |
| `Evict.Server.EvictOne` | internal/command/evict.go:229-267 | either no database yields a victim and nothing changes, or the first that does loses exactly it and its size is reported; the victim is extremal if and only if a named key is; volatile policies draw only keys with a TTL |
| `Evict.StuckOnlyOnEmptyKey` | internal/command/evict.go:229-267 | eviction finds nothing only where there is nothing to draw from, or where the empty key was drawn and hides the rest; with a sharded dictionary only if all keys were drawn |
| `Evict.Server.FreeMemoryIfNeeded` | internal/command/evict.go:193-216 | true if and only if the recomputed memory is within the limit, although the loop only subtracts; each key evicted was needed; false only when eviction is stuck or 100000 keys have gone |

## Left out

- Sockets, dialing, TLS, files, RDB and AOF encoding, Lua, logging, configuration and INFO text: input and output, or foreign libraries.
- ClusterState: addresses, ports, ping times, migrations and failure reports of nodes; they decide nothing that is proved. Nodes are identified by id, as in the node map.
- ClusterState.ClusterState.StartElection: is one step, although the program releases its lock between taking the epoch and recording the election; the steps of `Election` keep the two apart.
- ClusterState.ClusterState.CheckFailoverTick: leaves out the sleep before a new election and the second look at the master after it.
- Election: restarts, after which lastVoteEpoch is lost, are not steps of a run; RESET and claims without a vote are, and break nothing because neither votes nor counts.
- clusterHandleConfigEpochCollision: gossip convergence is stated for epochs that are already distinct.
- Replication.MasterStatus.FullReSync: fails where the program first rewrites the RDB; rewriting is covered by the two lemmas about the window it installs, and a run does not contain it.
- A second PSYNC on an online connection, and a replica set online after its removal, are not steps of a replication run; WAIT and acknowledgement offsets are left out.
- ShardLocks: the hash that spreads keys over shards is an arbitrary function, so the results hold for every one; counts and single-key operations are left out.
- Commands: keys hold lists, sets and hashes without TTL or field TTL, and of encodings only which lists are quicklists; SPOP, DEL, MSETEX and sorted-set commands in a transaction, WATCH and the memory pre-check are left out.
- Database.Database.ExecMulti: starts from a keyspace without empty values, which every command keeps; after an abort the contents are as before, while the encoding of a list may have changed.
- RoutingFsm.Fsm.Apply: a failover of a master to itself is modelled for a list that is exact, where the two uses of one slice can be told apart.
- RoutingFsm: Restore and Snapshot, the table of running failovers, and the change callback.
- Rebalance.MakeRebalancePlan: task ids are not modelled, and how far importers may end above the average is not characterised.
- RebalanceRun: one plan at a time, with no other event shifting the sources' lists; a second plan made while migrations still run is left out, and so is a list read in the middle of a shift.
- NodesConf: white space beyond ASCII, and the loading of a whole file.
- Listpack.Listpack.Append: a string and its tag and length together are at most MaxInt64 bytes long, as Go slices are.
- QuickList.QuickList.Add: whether the last page has spare capacity is a parameter that may have either value.
- List RemoveAllByVal, the hash object's encodings, the skiplist, and adding to a sorted set: they would add easier members of the same kind.
- ZSetList.ZSet.CollectSorted: scores are exact numbers, infinities and NaN; their text form in the listpack and its parsing are not modelled.
- Bitfield.BitMap.IncrBy: unsigned fields have at most 63 bits, as the command's parser demands; the parser itself and offsets beyond memory are left out.
- Scan.HashScan: a count of 2^62 or more, which the program doubles past the int64 range, is taken at its value.
- Scan: wildcard matching is an arbitrary predicate; an invalid pattern (cursor -1) is left out.
- Evict.RandomDistinctKeys: the one-table dictionary returns the first keys it finds; the model allows any.
- Evict: sampling and the clocks are arbitrary choices at every look, memory totals are unbounded, and expiry running beside eviction is left out.
- TCC transactions, raft data migration, streams, HyperLogLog, geo commands and BITOP.
