# QuorumDB, verified

A Dafny model of QuorumDB with proofs about its three parts: the Raft cluster, the paged B+ tree, and
the storage around the tree (page file, buffer pool, write-ahead log, record table, recovery).
`dafny verify dfyconfig.toml` checks all of it.

## What is here

**Raft.** `RaftNode` gives the effect of every handler of a replica as a function, `RaftReplica` the
object whose methods run the handlers in place and are proved to have those effects, and `RaftCluster`
the cluster: replicas around a set of messages that only grows, so that a message may be lost, delayed,
reordered or handled many times. A run is a list of steps: an election timeout, a client command, a
heartbeat, the handling of any message ever sent, stopping or starting a replica. `Happened` records
votes, leaderships, acknowledgements and commitments for the proofs; no step reads it.
Among such replicas the code can read its log out of bounds in one place, building a heartbeat. A run has no
heartbeat step that would, which is what "in every run" means below, and `RaftBounds` says exactly in which runs
the code would not make one either. `RaftElection`, `RaftLogs` and `RaftAcks` hold in every run. `RaftCommit`, `RaftSafety` and
`RaftTheorems` add two hypotheses on runs, each a gap of the code that the steps keep as it is:

- *Up-to-date votes* (`UpToDateVotes`). The code grants votes without the log comparison of section 5.4.1
  of "In Search of an Understandable Consensus Algorithm (Extended Version)" (Ongaro and Ousterhout);
  a comment in `src/raft/raft_node.cpp:125-128` says so. The hypothesis says that each vote granted in the
  run would have passed the comparison.
- *Same-term replies* (`SameTermReplies`). A success reply is counted whatever its term
  (`src/raft/raft_node.cpp:380-384`). The hypothesis says that a leader handles a success reply only in a
  term not later than the reply's.

Neither can be dropped: `RaftCounterexamples` breaks State Machine Safety while every reply is handled in its
term, `RaftStaleReply` while every vote passes the comparison. Each constrains single steps only: which vote is
granted, which reply is handled. `RaftScripts` is how such runs are followed, step by step. `RaftHandlers` says what
each handler does, of its fields and of sets of members, and `RaftClients` what a client may rely on.

**The tree.** `TreeModel` says page by page what the stored pages must look like. A ghost shape gives each
page its level and the half-open interval of keys it is responsible for, and separators are the ends of
these intervals. A separator is therefore not the least key on its right: a split at the front, borrowing
from the right and merging all leave it lower, and the invariant is the weaker one that every key on the
left is less and every key on the right not less. `TreeEdits`, `TreeSplit`, `TreeInsert`, `TreeMerge`,
`TreeDelete` and `TreeSeparator` prove on values that each edit keeps the invariant, `TreeScan` what it
means for whole trees, and `BPlusTree` is the tree itself: a class whose methods read and write pages
through the buffer pool in the order the code does, against a ghost map.

**Storage.** `DiskManager` and `BufferPool` are the page file and the LRU pool, proved to be
indistinguishable from a plain page store for clients that say "dirty" when they owe it
(`Pool.MayUnpin`). `Records`, `LogRecords`, `WalManager`, `RaftPayload` and `RaftCommands` are the byte
formats, with buffers filled and parsed at a moving offset as in the code; `Layouts` says where each byte is.
`Tables` is the record table over
tree, pages and log, `Recovery` what replaying a log means, and `StateMachines` the application of the
cluster's commands to a table.

Invariants over the heap are passed around sealed (`Pool.Valid`, `Index.Ready`, `Tables.Kept`,
`TreeDelete.Held`): each is a quantifier with a trigger of its own and is opened by mentioning that trigger.
`Collections`, `Options` and `Bytes` hold what several modules share.
`Pool.OneAtATime` says of every operation of the tree and the table that the pins it took are given back and that
at most one page more was in use at any time; the pool keeps the high-water mark.
Operating-system calls, sockets, threads and time are not modelled: a timeout is a step that may happen at any
moment, and each operation that runs under a lock is one step. Page ids, terms and sequence numbers are
unbounded integers, except where bytes are written; the log's sequence numbers are required to be in the
64-bit range there.

## Model

| member | source | states |
|---|---|---|
| RaftElection.ElectionSafety | src/raft/raft_node.cpp:114-302 | In every run, with no hypothesis, at most one replica is or has ever been leader of a given term. |
| RaftElection.OneLeaderPerTerm | src/raft/raft_node.cpp:114-302 | The same of the replicas themselves: two that have the role of leader in one term, at whatever two moments of a run, are the same replica. |
| RaftElection.QuorumsMeet | src/raft/raft_node.cpp:21-21 | Two sets of replicas each larger than half the cluster share a replica, with the source's own majority test. |
| RaftElection.ElectionsHold | src/raft/raft_node.cpp:114-302 | In every run: one vote per replica and term, leaders and reigns are exactly the won elections, and each reign rests on a strict majority of votes of its term. |
| RaftNode.MergeEntries | src/raft/raft_node.cpp:158-169 | The merged log reaches at least to the last entry received. |
| RaftLogs.MergeResult | src/raft/raft_node.cpp:154-169 | What merging does to a log: the prefix and the received entries are there, and the rest is the old log exactly when nothing conflicted. |
| RaftLogs.LogMatching | src/raft/raft_node.cpp:86-179 | In every run, with no hypothesis: if two logs have entries of one term at a position they agree on everything up to it. |
| RaftLogs.LogsAreOrdered | src/raft/raft_node.cpp:86-179 | In every run: the entry at position k carries index k, and terms never decrease along a log. |
| RaftLogs.LogsHold | src/raft/raft_node.cpp:86-93 | In every run each entry of a positive term t at position x witnesses that the log agrees with the log of the leader of t on 0..x, and every AppendEntries message of term t is a slice of that leader's log. |
| RaftAcks.AcksHold | src/raft/raft_node.cpp:139-179 | In every run, with no hypothesis: whoever acknowledged a leader's log up to a position while in its term still holds that log up to there as long as it is in that term. |
| RaftAcks.AckedAtSomeMoment | src/raft/raft_node.cpp:139-179 | In every run, with no hypothesis: whoever acknowledged a leader's log up to a position really held that log up to there, in that term, after some prefix of the run. |
| RaftCommit.QuorumBackedCommit | src/raft/raft_node.cpp:367-407 | Under same-term replies: a leader's committed position carries an entry of its own term, and for every member of some strict majority there is a moment of the run at which it was in that term and held the leader's log up to there; those still in that term hold it now. |
| RaftCommit.CommitStepIsBacked | src/raft/raft_node.cpp:391-407 | The same of the step itself: when handling a reply moves a leader's commit index up, the new position is in its log, of its own term, and a strict majority has held the leader's own log up to there in that term. |
| RaftCommit.CommitsTheLargest | src/raft/raft_node.cpp:391-407 | From any state: no larger position is of the leader's own term and matched by a majority, and when the commit index moves, it moves up to one that is. |
| RaftBounds.HeartbeatsDefinedExactly | src/raft/raft_node.cpp:310-384 | For every run: leaders can build their heartbeats inside their logs at every moment if and only if each success reply a leader counts, of whatever term, is for a position its log has at that moment. |
| RaftBounds.SameTermRepliesFit | src/raft/raft_node.cpp:367-389 | With same-term replies each success reply a leader counts is for a position of its log. |
| RaftBounds.HeartbeatsInBounds | src/raft/raft_node.cpp:304-328 | Hence, under same-term replies, every argument a leader builds reads its log inside its bounds, at every moment of every run. |
| RaftNode.Highest | src/raft/raft_node.cpp:391-407 | The scan from the end finds the largest committable position above the commit index, or none exists. |
| RaftSafety.LeaderBeganWith | src/raft/raft_node.cpp:203-302 | In every world that keeps the invariant of both hypotheses: the leader of a later term began its reign with every entry committed in an earlier one. |
| RaftSafety.CommittedAgree | src/raft/raft_node.cpp:391-407 | Where earlier commitments spread to later leaders, what two terms committed agrees wherever both committed. |
| RaftSafety.SafetyHolds | src/raft/raft_node.cpp:114-416 | Under both hypotheses every run keeps: what a replica counts as committed is what some leader committed, and every commit index sent is covered by a commitment. |
| RaftTheorems.StateMachineSafety | src/raft/raft_node.cpp:391-416 | Under both hypotheses: two replicas that have both applied index k applied the same command there. |
| RaftTheorems.LeaderCompleteness | src/raft/raft_node.cpp:203-302 | Under both hypotheses: an entry committed in one term is in the log with which the leader of every later term begins. |
| RaftTheorems.LeadersHoldCommitted | src/raft/raft_node.cpp:203-302 | Under both hypotheses: at every moment, a replica that leads a later term has what was committed in an earlier one in its own log. |
| RaftTheorems.CommittedReachesLeaders | src/raft/raft_node.cpp:203-416 | The same of states alone: what a replica counts as committed at one moment is a prefix of the log of every replica that leads a later term, at whatever moment. |
| RaftTheorems.CommitIndexOnlyGrows | src/raft/raft_node.cpp:171-174 | Under both hypotheses: a commit index never decreases along a run and stays below the length of the log, and nothing beyond it is applied. |
| RaftTheorems.AppliedInOrder | src/raft/raft_node.cpp:409-416 | In every run, with no hypothesis and across truncation of the log: the callbacks made are those for 1, 2, 3, ... without gap or repeat, and none is ever taken back. |
| RaftTheorems.HandlersDefined | src/raft/raft_node.cpp:139-179 | In every run, with no hypothesis: handling any message in the network never reads the log at a negative position. A run has no heartbeat that would read out of bounds; the row of HeartbeatsDefinedExactly says in which runs the code would not make one. |
| RaftCounterexamples.UnsafeWithoutUpToDateVotes | src/raft/raft_node.cpp:125-135 | A concrete run of three replicas, replies handled in their own term throughout, in which two replicas apply different commands at index 1: the vote without the log comparison is what State Machine Safety needs restored. |
| RaftCounterexamples.SafeWithoutUpToDateVotes | src/raft/raft_node.cpp:125-135 | A concrete run with a vote that fails the log comparison, in which a command is committed and applied and at no moment two replicas have applied different ones: up-to-date votes are not necessary for safety. |
| RaftCounterexamples.SafeWithoutSameTermReplies | src/raft/raft_node.cpp:367-389 | A concrete run with up-to-date votes in which a leader counts a success reply of an earlier term, for a position of its log, a command is applied, and at no moment two replicas have applied different ones: same-term replies are not necessary for safety either. |
| RaftCounterexamples.OutOfBoundsWithoutSameTermReplies | src/raft/raft_node.cpp:380-384 | A concrete run in which a success reply of an earlier leadership makes a leader's next index exceed its log, so that building a heartbeat reads out of bounds. |
| RaftStaleReply.UnsafeWithoutSameTermReplies | src/raft/raft_node.cpp:380-384 | A concrete run of six terms in which every vote passes the log comparison, yet a success reply of term 3 counted in term 5 makes two replicas apply different commands at index 2. |
| RaftReplica.Replica.constructor | src/raft/raft_node.cpp:16-23 | A new replica is in the initial state of the cluster model: term 0, no vote, a log of one sentinel. |
| RaftReplica.Replica.Propose | src/raft/raft_node.cpp:86-93 | Accepts exactly as a leader, and then the log gains one entry of the current term, with its old length as index and this command; otherwise nothing changes. |
| RaftReplica.Replica.HandleRequestVote | src/raft/raft_node.cpp:114-137 | As above, for a vote request. |
| RaftReplica.Replica.HandleMessage | src/raft/raft_node.cpp:100-112 | A payload that carries arguments has the effect of handling exactly those arguments; one that carries none, or an unknown request, is answered and changes nothing. |
| RaftReplica.Replica.StartElection | src/raft/raft_node.cpp:203-232 | As above, for the start of an election. |
| RaftReplica.Replica.HandleVoteReply | src/raft/raft_node.cpp:269-302 | As above, for a vote reply, including becoming leader; `RaftHandlers.VoteCounted` says by which vote. |
| RaftReplica.Replica.TakeEntries | src/raft/raft_node.cpp:158-169 | The in-place loop over received entries computes the merge the safety proofs are about. |
| RaftReplica.Replica.HandleAppendEntries | src/raft/raft_node.cpp:139-179 | As above, for an AppendEntries request, callbacks included. |
| RaftReplica.Replica.ApplyCommittedEntries | src/raft/raft_node.cpp:409-416 | The loop makes one callback for each newly committed position, in order. |
| RaftReplica.Replica.AdvanceCommitIndex | src/raft/raft_node.cpp:391-407 | The downward loop that counts matches commits the largest committable position. |
| RaftReplica.Replica.HandleAppendReply | src/raft/raft_node.cpp:367-389 | As above, for an AppendEntries reply. |
| RaftReplica.Replica.BuildHeartbeats | src/raft/raft_node.cpp:304-328 | One argument for each peer in peer order, with the log from that peer's next index on; none unless the replica runs and leads. |
| RaftReplica.Replica.Start | src/raft/raft_node.cpp:27-44 | Starting keeps term, vote and log and makes a stopped replica a follower. |
| RaftReplica.Replica.Stop | src/raft/raft_node.cpp:46-64 | Stopping changes nothing but that the replica no longer runs. |
| RaftHandlers.MajorityIsQuorum | src/raft/raft_node.cpp:21-21 | The count that decides elections and commitments is passed by a set of members exactly when it is a majority, for every size of the cluster. |
| RaftHandlers.Stands | src/raft/raft_node.cpp:203-232 | Standing: the next term, its own vote and no other; it leads at once exactly when it is a majority by itself. |
| RaftHandlers.VoteAnswered | src/raft/raft_node.cpp:114-137 | A vote is granted if and only if its term is later, or is the current one and the vote is not given to anybody else; what else changes, and that nothing does otherwise. |
| RaftHandlers.VoteCounted | src/raft/raft_node.cpp:269-302 | A candidate that counts a vote leads afterwards if and only if its votes are a majority of the members, with the next index of every peer at the end of its log and the match index 0. |
| RaftHandlers.OtherVoteReply | src/raft/raft_node.cpp:269-287 | Any other reply is ignored, or ends the candidacy if its term is later. |
| RaftHandlers.BareMajorityWins | src/raft/raft_node.cpp:269-302 | The same at every moment of every run, where the votes of a candidate are always of members. |
| RaftHandlers.CommittedIsApplied | src/raft/raft_node.cpp:409-416 | One callback for each position from the first not applied to the commit index, in order, with the command the log has there. |
| RaftHandlers.MergesExactly | src/raft/raft_node.cpp:158-169 | For any log and entries: without a conflict of terms the log keeps all it has and gains what it lacks; from the first conflict on it is replaced by what was received. |
| RaftHandlers.EntriesRefused | src/raft/raft_node.cpp:139-154 | Entries are refused when their term is over or the log lacks the entry before them; the log stays, and in a current term the sender is followed. |
| RaftHandlers.EntriesTaken | src/raft/raft_node.cpp:139-179 | Otherwise they are accepted: the log is the merged one, the commit index becomes the leader's as far as the message reaches, and what is newly committed is applied. |
| RaftHandlers.SuccessCounted | src/raft/raft_node.cpp:380-407 | A success reply raises what is known of the peer to the larger position; the commit index becomes the last position of the leader's term beyond it that the leader and the peers known to hold it, a bare majority, back. |
| RaftHandlers.OtherAppendReply | src/raft/raft_node.cpp:367-389 | A failure steps the peer's next index back by one, down to 1; a later term ends the leadership; anything else is ignored. |
| RaftHandlers.HeartbeatCarries | src/raft/raft_node.cpp:317-326 | A heartbeat names the entry before the peer's next index and carries the whole log from there on. |
| RaftHandlers.EveryPeerIsSent | src/raft/raft_node.cpp:248-360 | A candidate asks every peer and a leader sends to every peer. |
| RaftHandlers.AnswersAreSent | src/raft/raft_node.cpp:100-179 | Every request handled is answered with what its handler says, refusals too. |
| RaftClients.AcceptedKeepsItsPlace | src/raft/raft_node.cpp:86-93 | In every run: an accepted command is at the position behind the leader's last entry; at every later moment the leader has it there while it leads in that term, and no replica ever has another entry of that term there. |
| RaftClients.AppliedIsInLog | src/raft/raft_node.cpp:409-416 | Under both hypotheses: what a replica has applied is, and stays, the command its log has at that index. |
| RaftPayload.SerializePayload | src/raft/log_entry.h:25-66 | Every write is inside the buffer; the bytes are the header and the entries, and the last four stay zero. |
| RaftPayload.DeserializePayload | src/raft/log_entry.h:68-110 | Succeeds exactly when the bytes begin with the encoding of some arguments whose sizes fit in 32 bits, returns those, and ignores what follows. |
| RaftPayload.PayloadDecodes | src/raft/log_entry.h:25-110 | The payload of any arguments whose sizes fit decodes to these arguments and no others, unused bytes and all. |
| RaftPayload.ReadEntry | src/raft/log_entry.h:94-106 | Returns the next entry unless its header or command would run past the end, and never another one. |
| RaftCommands.CommandRoundTrip | src/raft/raft_command.h:19-75 | A submitted command whose name size fits in 32 bits is what every replica decodes. |
| RaftCommands.AnyBytes | src/raft/raft_command.h:45-75 | Whatever bytes come: fewer than 21 are an insertion of nothing, otherwise the numbers are read where they are written, and the name unless it would run past the end. |
| RaftCommands.Serialize | src/raft/raft_command.h:19-43 | Every write is inside the buffer, which is exactly filled. |
| RaftCommands.Deserialize | src/raft/raft_command.h:45-75 | The moving-offset parse computes the decoding the round trip is about: a short input is the default command, an overlong name is dropped. |
| Layouts.CommandLayout | src/raft/raft_command.h:19-43 | Where each field of a command is, digit by digit, highest first. |
| Layouts.HeaderLayout | src/raft/log_entry.h:48-51 | The same of the header of a payload. |
| Layouts.EntryLayout | src/raft/log_entry.h:53-59 | The same of an entry. |
| Layouts.PayloadLayout | src/raft/log_entry.h:25-66 | A payload is its header and then its entries, in order. |
| StateMachines.StateMachine.Apply | src/raft/state_machine.cpp:9-31 | An index already passed changes nothing. Any other becomes the last applied, and a submitted command is carried out: an insertion adds the row with the name as stored unless there is one, an update changes the value of a row that is there and nothing else of it, a deletion leaves no row, anything else does nothing, and no other row changes. |
| StateMachines.EffectIsCarriedOut | src/raft/state_machine.cpp:14-28 | What replicas compute for a command is that, so the results on equal tables are about it. |
| StateMachines.StateMachine.ApplyAll | src/raft/state_machine.cpp:9-31 | Fed the callbacks of a replica, it drops none: the rows are those all the commands make, one after the other. |
| StateMachines.ReplicasHoldEqualTables | src/raft/state_machine.cpp:9-31 | Under both hypotheses: the callbacks of two replicas, as far as both have come, have the same effect on the rows, names normalised and all. |
| StateMachines.ApplyOnReplicas | src/raft/state_machine.cpp:9-31 | Under both hypotheses: two state machines on separate, equal tables, fed equally many callbacks of two replicas, end with equal rows: the tables themselves, through the logged operations. |
| DiskManager.Disk.constructor | src/storage/disk_manager.cpp:9-15 | Every page of an existing file counts as allocated. |
| DiskManager.Disk.ReadPage | src/storage/disk_manager.cpp:24-48 | The page as last written, zeros beyond the end of the file. |
| DiskManager.Disk.WritePage | src/storage/disk_manager.cpp:50-65 | Changes what this page reads as and no other page, also when the file has to grow. |
| DiskManager.Disk.AllocatePage | src/storage/disk_manager.cpp:67-78 | Never returns an allocated id. |
| DiskManager.Disk.DeallocatePage | src/storage/disk_manager.cpp:80-85 | The id becomes the next to be handed out, without a look at it. The invariant of the free list survives if and only if the id was allocated (or negative, and ignored). |
| BufferPool.Pool.constructor | src/storage/buffer_pool_manager.cpp:7-15 | An empty pool shows what the disk holds. |
| BufferPool.Pool.FetchPage | src/storage/buffer_pool_manager.cpp:17-45 | Fails exactly when the id is invalid or the page is not resident and no frame is free or unpinned; never changes the contents of any page; a page that leaves the pool is the one whose pin count fell to zero longest ago, and only when no frame was free. The pool's invariant survives if and only if the fetch fails or the id was allocated. Pages in use stay where they are and keep their dirty marks, and a page fetched again is the same frame. |
| BufferPool.Pool.NewPage | src/storage/buffer_pool_manager.cpp:47-67 | A page that was not allocated, reading as zeros whatever the disk holds under its id; all other pages as before. |
| BufferPool.Pool.Store | src/storage/buffer_pool_manager.cpp:30-44 | A store through the page pointer changes what clients see in that page alone. No dirty mark changes. |
| BufferPool.Pool.UnpinPage | src/storage/buffer_pool_manager.cpp:69-86 | Fails exactly when the page is not in use; otherwise one pin less, and a page whose count falls to zero becomes the youngest candidate for eviction. No page changes; the pool's invariant, that what is evicted clean is on the disk, survives if and only if the last unpin says dirty whenever an undirtied frame and the disk differ. Any unpin, last or not, leaves a page dirty if and only if it was or this one said so. |
| BufferPool.Pool.FlushPage | src/storage/buffer_pool_manager.cpp:88-101 | Changes no page's contents, leaves the frame clean and the disk with its contents, and touches no other mark or stored page. |
| BufferPool.Pool.FlushAllPages | src/storage/buffer_pool_manager.cpp:103-112 | Afterwards no frame is dirty, the disk holds every page that was, in use or not, and it alone holds the contents of every page nobody is using. |
| BufferPool.Pool.DeletePage | src/storage/buffer_pool_manager.cpp:114-129 | Refuses exactly the pages in use; otherwise the page is gone, and its id free, and no other page changes. The pool's invariant survives if and only if the id was allocated (or negative, and ignored). |
| BufferPool.Pool.AcquireFrame | src/storage/buffer_pool_manager.cpp:131-151 | Hands out a frame unless all are in use, evicting the oldest unpinned page only when no frame is free, written back when dirty. |
| BufferPool.Pool.BackIsOldest | src/storage/buffer_pool_manager.cpp:141-141 | The back of the LRU list is the page whose pin count fell to zero longest ago. |
| BufferPool.Pool.RemoveFromLru | src/storage/buffer_pool_manager.cpp:161-167 | Only that frame leaves the list, whose order stays. |
| BufferPool.Pool.FramesPartition | src/storage/buffer_pool_manager.cpp:131-167 | Every frame is free, on the LRU list or in use, and just one of these; page table and frames that are not free name each other. |
| BufferPool.Pool.FullMeansAllInUse | src/storage/buffer_pool_manager.cpp:131-139 | No frame can be had exactly when every frame has a pin. |
| BufferPool.Pool.HasFrame | src/storage/buffer_pool_manager.cpp:131-139 | A pool with fewer pages in use than frames can always serve. |
| PageAccess.ReadPage | src/storage/bplus_tree.cpp:260-268 | Fetch, read, unpin: with one frame not in use it cannot fail, restores all pins, has at most one page more in use than before at any time, and changes no page. |
| PageAccess.WritePage | src/storage/bplus_tree.cpp:270-277 | Fetch, write, unpin dirty: the same, but this page alone changes, and the pool's dirty contract is met. |
| PageAccess.CreatePage | src/storage/bplus_tree.cpp:279-290 | A fresh page with the given contents, no pin left behind, and at most one page more in use at any time. |
| PageAccess.StoreShared | src/storage/buffer_pool_manager.cpp:69-86 | Two pins of a page in a row, a store, and two unpins of which one, whichever, says dirty: the store is not lost and the pool's invariant holds. |
| BPlusTree.Index.constructor | src/storage/bplus_tree.cpp:94-99 | The empty tree owns no page. |
| BPlusTree.Index.Search | src/storage/bplus_tree.cpp:143-157 | The answer is the map's, and nothing changes. |
| BPlusTree.Index.Insert | src/storage/bplus_tree.cpp:101-141 | False and no change exactly when the key is there; otherwise exactly one new pair. The full tree invariant is kept, pages that are not the tree's and all pins are untouched, one page at a time is in use, and no page with five keys is ever written. |
| BPlusTree.Index.Delete | src/storage/bplus_tree.cpp:159-236 | False and no change exactly when the key is not there; otherwise exactly that pair goes. The full tree invariant is kept, and one page at a time is in use, through any cascade. |
| BPlusTree.Index.FindLeaf | src/storage/bplus_tree.cpp:292-304 | The leaf responsible for the key, reading one page for each level. |
| BPlusTree.Index.InsertIntoParent | src/storage/bplus_tree.cpp:306-347 | From two halves of a page the parent does not know about, at any level, the full invariant holds again and the map is unchanged, whether the cascade ends in a page with room or in a new root. |
| BPlusTree.Index.HandleInternalUnderflow | src/storage/bplus_tree.cpp:349-423 | From a tree whose only fault is one inner page one key short, at any level, the full invariant holds again through borrows, merges and root collapse, and the map is unchanged; the page moves strictly up. |
| BPlusTree.Index.RepairLeaf | src/storage/bplus_tree.cpp:182-235 | The same for a leaf one key short. |
| BPlusTree.Index.PropagateMinimumChange | src/storage/bplus_tree.cpp:425-439 | The separator left of a leaf, where its interval begins, becomes the leaf's least key; the leftmost leaf changes nothing. The full invariant and the map are kept. |
| BPlusTree.Index.FirstKey | src/storage/bplus_tree.cpp:441-447 | Going down the first children ends in the leaf where the page's interval begins. |
| BPlusTree.Index.SetChildrenParent | src/storage/bplus_tree.cpp:449-455 | Exactly the listed pages get the new parent, one at a time. |
| BPlusTree.Index.RangeScan | src/storage/bplus_tree.cpp:238-258 | Appends exactly the pairs of the map with keys in [start, end], ascending, each once, and terminates. |
| BPlusTree.Index.ReadNode | src/storage/bplus_tree.cpp:260-268 | The node as last written. |
| BPlusTree.Index.WriteNode | src/storage/bplus_tree.cpp:270-277 | Requires what the codec accepts, four keys at most; only this page changes. |
| BPlusTree.Index.CreateNode | src/storage/bplus_tree.cpp:279-290 | A page neither the tree nor anyone else had. |
| TreeModel.OnePerLevel | src/storage/bplus_tree.cpp:292-304 | At each level exactly one page is responsible for a key. |
| TreeModel.SeparatorOutside | src/storage/bplus_tree.cpp:292-304 | No separator falls strictly inside the interval of a page below. |
| TreeEdits.PutKeyOk | src/storage/bplus_tree.cpp:111-118 | Putting a key into its leaf breaks nothing but perhaps that leaf's size, and adds that pair to the map. |
| TreeEdits.DropKeyOk | src/storage/bplus_tree.cpp:170-172 | Dropping a key from its leaf breaks nothing but perhaps that leaf's size, and drops that pair from the map. |
| TreeEdits.SpansSplit | src/storage/bplus_tree.cpp:318-325 | Adding a separator and a child cuts that child's interval in two and leaves the others. |
| TreeSplit.SplitLeafOk | src/storage/bplus_tree.cpp:127-139 | A split leaf and its new right neighbour are good pages under a parent with one more child. |
| TreeSplit.SplitInnerOk | src/storage/bplus_tree.cpp:332-346 | The same for an inner page, whose moved children name the new page as their parent. |
| TreeSplit.SplitShares | src/storage/bplus_tree.cpp:127-137 | Of five keys a split leaf keeps three and passes on two, an inner page keeps two, passes on two and one up; nothing is lost. |
| TreeSplit.GrowRootOk | src/storage/bplus_tree.cpp:306-317 | A new root over the old one keeps all levels equal. |
| TreeInsert.TornLeaf | src/storage/bplus_tree.cpp:127-140 | The two written halves of a leaf are what the parent step can start from, parent or no parent. |
| TreeInsert.TornInner | src/storage/bplus_tree.cpp:332-346 | The same for an inner page. |
| TreeInsert.PutAndTear | src/storage/bplus_tree.cpp:115-140 | The map gains exactly the new pair when an over-full leaf is written as two halves. |
| TreeMerge.MoveLeafOk | src/storage/bplus_tree.cpp:184-212 | Redistributing two neighbouring leaves at any cut gives a whole tree, with the first key of the right part as separator. |
| TreeMerge.MoveInnerOk | src/storage/bplus_tree.cpp:365-401 | The same for inner pages, the separator turning through the parent and the moved child changing parents. |
| TreeMerge.MergeLeafOk | src/storage/bplus_tree.cpp:213-233 | Merging two leaves keeps everything but perhaps the parent's size, and the chain of leaves closes. |
| TreeMerge.MergeInnerOk | src/storage/bplus_tree.cpp:403-421 | The same for inner pages. |
| TreeMerge.CollapseRootOk | src/storage/bplus_tree.cpp:351-359 | A root without keys gives way to its only child and the tree is whole. |
| TreeMerge.LinkedNeighbours | src/storage/bplus_tree.cpp:213-233 | Neighbouring leaves are linked. |
| TreeDelete.LendFromLeftLeaf | src/storage/bplus_tree.cpp:184-197 | The three pages as written after borrowing from the left make a whole tree. |
| TreeDelete.LendFromRightLeaf | src/storage/bplus_tree.cpp:198-212 | The same after borrowing from the right. |
| TreeDelete.LendFromLeftInner | src/storage/bplus_tree.cpp:365-381 | The pages as written after an inner page borrows from the left make a whole tree; only the moved child is given a new parent. |
| TreeDelete.LendFromRightInner | src/storage/bplus_tree.cpp:382-401 | The same from the right. |
| TreeDelete.MergeLeaves | src/storage/bplus_tree.cpp:213-233 | The pages as written after two leaves merge leave at most the parent one key short, at an unchanged height. |
| TreeDelete.MergeInners | src/storage/bplus_tree.cpp:403-421 | The same for inner pages. |
| TreeSeparator.RaiseSeparatorOk | src/storage/bplus_tree.cpp:425-439 | A separator may be raised to the least key on its right together with every interval that ends or begins there. |
| TreeSeparator.SeparatorOnce | src/storage/bplus_tree.cpp:425-439 | A key is the separator at one place of the tree only. |
| TreeScan.SeparatorsSeparate | src/storage/bplus_tree.cpp:292-304 | Every key below a child is less than the separator on its right and not less than the one on its left. |
| TreeScan.LeavesAtOneDepth | src/storage/bplus_tree.cpp:292-304 | All leaves are equally far from the root. |
| TreeScan.NoSharedPages | src/storage/bplus_tree.cpp:306-347 | No page is the child of two pages, or of one page twice. |
| TreeScan.ChainIsTheLeaves | src/storage/bplus_tree.cpp:238-258 | From the leaf of the least keys, the links visit exactly the leaves of the tree, each once, in key order. |
| TreeScan.ListingIsTheRange | src/storage/bplus_tree.cpp:238-258 | What a scan appends is ascending, each pair once, and exactly the pairs of the map in range. |
| TreeScan.HeightBound | src/storage/bplus_tree.cpp:27-32 | A tree of h >= 2 levels holds at least 4 * 3^(h - 2) keys. |
| Records.SerializeRecord | src/query/record.h:21-27 | The first 80 bytes of the buffer are the image, the others are left alone. |
| Records.DeserializeRecord | src/query/record.h:29-36 | Reads the record of the first 80 bytes, the name up to its first NUL. |
| Records.ImageRoundTrip | src/query/record.h:21-36 | Reading an image back gives the record with its name cut at 64 bytes and at the first NUL. |
| Records.NormalIsKept | src/query/record.h:21-36 | What is stored of a record, and nothing else is: id and value, and of the name the longest prefix of at most 64 bytes without a NUL. |
| Records.ImageIsFaithful | src/query/record.h:21-36 | Nothing is lost if and only if the name has at most 64 bytes and no NUL. |
| Records.NormalIsStable | src/query/record.h:21-36 | A record read back survives every further round unchanged. |
| Layouts.RecordLayout | src/query/record.h:21-27 | Where each field of a record's image is, the numbers digit by digit, lowest first, and every byte of the name and its padding. |
| Layouts.AnyImage | src/query/record.h:29-36 | Any 80 bytes read as a record: the numbers where they are written, the name up to its first NUL. |
| LogRecords.SerializeLogRecord | src/storage/log_record.h:20-42 | The moving-offset writer fills the buffer exactly, truncating an image whose size does not fit in 32 bits. |
| LogRecords.DeserializeLogRecord | src/storage/log_record.h:44-71 | Succeeds exactly on what the serializer writes for images whose sizes fit in 32 bits, and then gives that record back. |
| Layouts.LogRecordLayout | src/storage/log_record.h:20-42 | Where each field of a log record is, its kind by number. |
| WalManager.Wal.constructor | src/storage/wal_manager.cpp:12-31 | Opening a file, torn or not, continues the sequence numbers of the records that can be read. |
| WalManager.Wal.Append | src/storage/wal_manager.cpp:84-95 | The record's frame goes to the end of the file with the next sequence number; a file without a torn tail stays one, and numbers 0, 1, 2, ... continue. |
| Layouts.FrameLayout | src/storage/wal_manager.cpp:84-95 | In the file each record comes behind its size in four bytes, lowest first. |
| WalManager.Wal.Flush | src/storage/wal_manager.cpp:60-76 | Everything appended so far is durable. |
| WalManager.ReadAll | src/storage/wal_manager.cpp:97-124 | The file begins with the frames of exactly the returned records, and no frame follows. |
| WalManager.Wal.ReadAllRecords | src/storage/wal_manager.cpp:78-82 | Without a torn tail, all records ever appended. |
| WalManager.ReadsOnce | src/storage/wal_manager.cpp:97-124 | A file reads as one list of records only. |
| WalManager.TornTail | src/storage/wal_manager.cpp:97-124 | A log cut after any number of bytes reads as exactly the records whose frames lie wholly within them, in order, and as nothing else. |
| WalManager.LastWhole | src/storage/wal_manager.cpp:97-124 | There always is a last such record, so the torn-tail result covers every cut. |
| WalManager.AppendsAreReadExactly | src/storage/wal_manager.cpp:84-124 | Whatever records are appended to a file are read back behind those already there if and only if the file has no torn tail, which an opener can check: the frames it reads fill the file. |
| WalManager.HiddenBehindTornTail | src/storage/wal_manager.cpp:97-124 | One torn byte is enough: every log appended behind it reads as nothing until it is 256 times as long as its first record. |
| Recovery.ReplayFromAnyPoint | src/query/table.cpp:88-107 | Replaying the whole log onto the table as it stood after any prefix of its history gives exactly the final table. |
| Recovery.ReplayTwice | src/query/table.cpp:88-107 | Recovering twice is recovering once. |
| Recovery.CatchesUp | src/query/table.cpp:109-158 | Key by key: at each point of the replay a key is where it was at that point of history, or still has its later value with only insertions gone by. |
| Recovery.ReplayIsKeyed | src/query/table.cpp:88-107 | Every row a log brings forth is filed under its own id. |
| Recovery.CrashLosesNothing | src/storage/wal_manager.cpp:64-124 | Whatever a crash leaves of the file beyond what was forced to disk, replaying it gives the same rows. |
| Tables.Table.constructor | src/query/table.cpp:8-13 | An empty table; the pages already in the store are not its own. |
| Tables.Table.Insert | src/query/table.cpp:15-29 | False and no change, also of the log, exactly when the id is there; otherwise one new row with the id and value given and the longest prefix of the name that fits, with the change logged and forced to disk before it is made, and the log still gives the rows. |
| Tables.Table.Select | src/query/table.cpp:31-37 | The row with that id, if there is one. |
| Tables.Table.SelectWhere | src/query/table.cpp:39-51 | The matching rows, in ascending order of id: when every row is filed under its own id, the list is strictly ascending and holds exactly the rows that match. |
| Tables.MatchingIsTheSelection | src/query/table.cpp:39-51 | That list is strictly ascending by id and holds a record if and only if it is a row that matches. |
| Tables.Table.LogGivesKeyed | src/query/table.cpp:15-107 | The rows a log gives are filed under their own ids; insertion, update and deletion keep that. |
| Tables.Table.Update | src/query/table.cpp:53-70 | Changes the row to the mutated record under the same id, its name kept as far as it fits, false when there is none; logged first, and the log still gives the rows. |
| Tables.Table.Delete | src/query/table.cpp:72-86 | Drops the row, false when there is none; logged first, and the log still gives the rows. |
| Tables.Table.InsertWithoutWAL | src/query/table.cpp:109-129 | Skips an id that is there; otherwise the row is on a new page of its own. |
| Tables.Table.UpdateWithoutWAL | src/query/table.cpp:131-147 | Overwrites the row's page, or adds the row when its id is not there. |
| Tables.Table.DeleteWithoutWAL | src/query/table.cpp:149-158 | Drops the row and frees its page; an id that is not there is no failure. |
| Tables.Table.ReadRecord | src/query/table.cpp:173-185 | The record of the row's page; none for the invalid page id. |
| Tables.Table.RowIsStored | src/query/table.cpp:173-185 | Every row is a record as it is stored: its name fits and has no NUL. |
| Tables.Table.LogFirst | src/query/table.cpp:20-23 | The change is in the log, and the log on disk, before the table changes. |
| Tables.Table.Recover | src/query/table.cpp:88-107 | Replays the log as read, and fails exactly when it holds an insertion or update whose image is not of the size of a record. |
| Tables.Table.PagesAccountedFor | src/query/table.cpp:109-158 | The allocated pages are exactly the tree's, one for each row, and those that were there before, all different. |
| Tables.Table.CrashLosesNoRow | src/query/table.cpp:15-86 | After any completed operation, whatever a crash leaves of the log beyond what was forced to disk replays to exactly the rows. |
| Tables.Restart | test/test_wal_manager.cpp:63-69 | A new table on an existing log has, after recovery, exactly the rows that log gives; from a log without a torn tail, an empty one included, later operations keep the log giving the rows. |
| Tables.LosesRow | src/storage/wal_manager.cpp:12-31 | The consequence for a table: it starts again on a log of one torn byte, inserts a row, forces the change to disk, and the log still reads as empty. |

## Left out

- The election loop, deadlines and liveness: a timeout is a step that may happen at any moment.
- Sockets, the RPC client and server, peer addresses and thread reaping: the network is a set of messages.
- The loss of a replica's memory: term, vote and log are not written anywhere, so only stopping and starting the same object is in scope.
- Reads through the leader: they do not go through the log at all.
- A cluster of one replica: it elects itself and never commits, because the commit index only moves on replies; the model keeps this.
- The exact condition on runs for State Machine Safety: the two hypotheses are sufficient, and neither can be dropped, but neither is necessary (`RaftCounterexamples.SafeWithoutUpToDateVotes`, `RaftCounterexamples.SafeWithoutSameTermReplies`): whether a vote without the comparison or a late reply does harm depends on the rest of the run.
- Cutting off a torn tail: the code does not, so the model does not; `WalManager.AppendsAreReadExactly` says when that matters and `Tables.LosesRow` what it costs.
- A table without a log: it does the same without the log lines of `src/query/table.cpp:20-27`.
- The byte layout of tree pages and the fixed RPC message header: a page holds a node or a record image.
- Failing file operations and the exceptions they raise; `std::bad_alloc` for an absurd size read from a file or message.
- Mutexes and concurrent callers of one object: each operation under a lock is one step, and a table has one caller.
- `QueryEngine`, `RaftServer` and `main.cpp`: thin wrappers; the state machine calls the table directly.
- BPlusTree.Index.Insert: promises the map and the invariant, and so does Delete, not which of the trees that meet them results; the separate steps (`TreeSplit.SplitShares`, `PropagateMinimumChange`, the borrows and merges) say what each of them does.
- RaftReplica.Replica.BuildHeartbeats: requires that the next indices are inside the log, where the code would read out of bounds otherwise, and stops where the code hands its arguments to sending threads; the cluster model sends them all in one step.
- RaftPayload.SerializePayload: the numbers are required to be in the range of their C++ types; sizes are not, and are truncated as the code does.
- Tables.Table.Insert: requires sequence numbers to stay in the 64-bit range, where the code would overflow; so does everything built on logged operations.
- RaftReplica.Replica.HandleAppendEntries: requires a previous index that is not negative when the message is of a current term, as `HandleMessage` does.
- RaftReplica.Replica.HandleMessage: requires that arguments in a message of a current term do not carry a negative previous index, with which the code would read its log out of bounds; by `RaftTheorems.HandlersDefined` no message of a run carries one.
- BufferPool.Pool.FetchPage: requires an id that is not below the invalid one; for those the disk manager raises an exception.
