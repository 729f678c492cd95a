# Driftstore, verified model

Driftstore is a leaderless, Dynamo-style key-value store: vector clocks order the versions of a key, a consistent-hash
ring places its replicas, writes and reads go through sloppy quorums with hinted handoff and read repair, and membership
spreads by gossip. This project models those four layers and the client around them, and proves what each promises.

## How it is organised

| module | models |
|---|---|
| `Basics` | names, optional values, the last-writer-wins stamp order |
| `VectorClocks`, `Resolution` | comparison, merge and construction of clocks; the frontier and the tiebreak of a read |
| `Ring`, `RingWalk`, `Placement`, `Hashing` | the clockwise walk, declaratively and as the loop does it; what a preference list promises; hashing |
| `Replica`, `KvNodes`, `PutPath`, `ReadPath`, `GetPath` | one node's store, hints and marks; the write handler and its fan-out; the read handler, its resolution and repairs |
| `Protocol`, `Refinement`, `Progress` | the data path as a transition system with a message soup; the nodes as objects refine it; what can always happen next |
| `Origins`, `Counters`, `Durability`, `QuorumReads`, `FirstWrites`, `Identity` | its whole-run theorems |
| `Membership`, `Gossip`, `Movement` | the table and the ring kept beside it; convergence over whole runs; how little a key's owners move |
| `Client`, `Sessions` | the client's context cache and failover; its calls placed in runs of the data path |
| `ClockText` | the printed form of a clock |

Code that updates state is a class or a method with the loop of the original, proved against a function of its inputs or
of the old state; the theorems are lemmas about those functions and about runs of the transition systems. The same
functions (`AcceptUnlessCovered`, `AcceptIfDominating`, `CommitVersion`, `Resolve`, `StalePeers`, `MergeEntry`,
`RemoveEntry`) specify the methods and drive the transition systems, and `Refinement` proves that each critical section
of a node does to it exactly what its step does to the state.

## What holds, and what does not

The repository's own README describes an earlier state of the program; the code in `src/` is what is modelled. Where a
claim one would expect is false of the code, the exact condition or a concrete run is proved instead:

- A replica's clock can go strictly down over two concurrent writes (`Replica.StoreCanRegress`). One replicated write
  keeps what was stored exactly when the two are not concurrent (`Replica.ReplicaRule`), and a greatest write is always
  absorbed (`Replica.GreatestWriteAbsorbed`). The whole-run theorems therefore assume that the writes of the key are
  pairwise comparable (`Durability.Tame`), which is proved for keys committed at one owner (`QuorumReads.RunKeepsChain`).
- A coordinator standing in for an owner drops a concurrent hint that a replica would have stored
  (`Replica.CoordinatorRule`); the two rules agree exactly on comparable clocks.
- A counter is a 64-bit word. A new clock dominates its inputs exactly when the increment does not wrap
  (`VectorClocks.NewClockDominates`); `Counters` shows it cannot wrap before 2^64 - 1 writes at one node.
- A write with W acknowledgements is not always seen by a later quorum read, because the coordinator counts an
  acknowledgement from a stand-in as one from the owner it stands for. `QuorumReads.QuorumReadExact` gives the exact
  condition, in any reachable state with comparable writes: every read begun from now on that counts R owners returns a
  version at or above a clock if and only if the owners whose stores are at or above it now, plus R, exceed the number of
  owners. Direct acknowledgements are inside that cover (`QuorumReads.QuorumReadIsFresh`), and when no hint is ever made
  for the key the coordinator's own count is enough (`QuorumReads.StrictQuorumReadIsFresh`).
  `QuorumReads.SloppyAcksAllowStaleRead` is a run on owners c, t, u with W = R = 2 in which t's copy went to a stand-in
  outside the owners, as the search really picks it (`PutPath.OutsiderHoldsHint`).
- With exactly N nodes on the ring one would expect no hint to be created. A search can still find a substitute if and
  only if a node marked unreachable when the preference list was drawn up recovers before the search
  (`PutPath.SmallRingSubstitute`); without a recovery every acknowledgement is direct (`PutPath.SmallRingAcksAreDirect`).
- A refresh that keeps a node's status leaves the ring alone, so ring and table stay together exactly when the refreshed
  entry carries the same tokens (`Membership.RefreshCoherent`). The coherence theorem assumes that tokens are a function
  of the node's name and that no two nodes share one.
- An exact tie of timestamp and writer keeps the local entry, so merging commutes exactly when equal stamps mean equal
  entries (`Membership.MergeLaws`); the convergence theorem assumes that no stamp is reused. A removal reaches a node
  exactly when its stamp is newer than the entry it replaces (`Membership.RemovalPrevails`).
- A clock's text parses back exactly when no node name is empty or contains `:` or `,` (`ClockText.RoundTrip`); real node
  names are `host:port` addresses and are always rejected (`ClockText.ColonIsRejected`).
- The context a client caches never falls across Puts (`Client.PutsKeepOrAdvance`), but a Get can take it back:
  `Sessions.StaleGetForgets` is a session of two Puts and a Get served by a run on three owners. `Sessions.ContextKeptExact`
  gives the exact condition on the servers when the Get begins: the cover of the context and any R owners must overlap, or
  nothing older has ever been written. That an owner holds nothing is no protection by itself, since an older write may
  reach it before it answers; for a Get that nothing disturbs it is, and then `Sessions.UndisturbedGetExact` is the
  condition. `Sessions.ContextNeverFalls` is the theorem for whole sessions.
- Equal clocks can carry different values: a stand-in builds its clock without a local copy
  (`Identity.StandInReusesClock`). In a comparable run no two writes of a key carry equal clocks exactly when every
  coordinator's own count rises from write to write (`Identity.ClockIdentifiesWrite`), which it always does when owners
  coordinate (`Identity.OwnersCountUp`).

## Model

| member | source | states |
|---|---|---|
| `Basics.StringLessTotal` | src/ring.hpp:53-55 | the name order behind every tiebreak is total and strict |
| `Basics.StringLessExact` | src/ring.hpp:53-55 | dictionary order: a proper prefix first, otherwise the smaller character at the first difference |
| `Basics.NewerTotal` | src/vector_clock.hpp:217-222 | of two different stamps exactly one is newer; equal stamps are never newer |
| `Basics.NewerTransitive` | src/vector_clock.hpp:217-222 | newer is transitive, so a newest stamp is well defined |
| `VectorClocks.CompareFirstPass` | src/vector_clock.hpp:77-91 | what each flag means when the first pass stops early or runs out, and that the shared-key count is the size of the common key set unless both flags are up |
| `VectorClocks.CompareSecondPass` | src/vector_clock.hpp:93-103 | the second flag goes up if and only if some counter only `b` has is positive |
| `VectorClocks.CompareVectorClocks` | src/vector_clock.hpp:61-114 | the two early-exit passes compute the pointwise order in which a missing counter is zero |
| `VectorClocks.ComparisonMeaning` | src/vector_clock.hpp:61-114 | EQUAL means equal on every axis, CONCURRENT that each side is ahead somewhere, and swapping the arguments mirrors the outcome |
| `VectorClocks.LeqTransitive` | src/vector_clock.hpp:61-114 | the causal order is transitive, strictly so when either step is strict |
| `VectorClocks.MergeFirstPass` | src/vector_clock.hpp:132-143 | holds the maximum on exactly `a`'s names and counts the shared ones |
| `VectorClocks.MergeSecondPass` | src/vector_clock.hpp:145-152 | adds exactly the names only `b` has |
| `VectorClocks.MergeClocks` | src/vector_clock.hpp:121-154 | the pointwise maximum on the union of names, with no timestamp or writer, also when the second pass is skipped |
| `VectorClocks.MergeIsLeastUpperBound` | src/vector_clock.hpp:121-154 | merge is the least upper bound of the causal order |
| `VectorClocks.BuildNewClock` | src/vector_clock.hpp:176-194 | merges context and local copy (absent means empty), bumps the coordinator's axis on a 64-bit word, stamps time and writer |
| `VectorClocks.NewClockCounts` | src/vector_clock.hpp:189-190 | every axis of a new clock, the coordinator's included, wrap included |
| `VectorClocks.NewClockStamp` | src/vector_clock.hpp:189-192 | a new clock carries the time and name of its coordinator, whatever stamps went in, and names exactly the nodes that went in and the coordinator |
| `VectorClocks.NewClockDominates` | src/vector_clock.hpp:176-194 | a new clock strictly dominates both inputs if and only if the increment does not wrap |
| `Resolution.Survives` | src/vector_clock.hpp:242-257 | a response is kept if and only if none is strictly newer and no earlier one has the same clock |
| `Resolution.ComputeFrontier` | src/vector_clock.hpp:237-260 | the survivors are the kept responses in input order |
| `Resolution.FrontierIsAntichain` | src/vector_clock.hpp:237-260 | survivors come from distinct positions in input order and are pairwise concurrent |
| `Resolution.FrontierCovers` | src/vector_clock.hpp:237-260 | every response is at or below some survivor |
| `Resolution.FrontierSingleton` | src/vector_clock.hpp:237-260 | nonempty on nonempty input, and of size one if and only if one response is at or above all, so the tiebreak is only asked about genuine conflicts |
| `Resolution.FrontierMembers` | src/vector_clock.hpp:237-260 | when a clock determines its version, the survivors are exactly the responses nobody dominates |
| `Resolution.FirstCopyKept` | src/vector_clock.hpp:247-249 | of responses with equal clocks the first is the one kept |
| `Resolution.NewestBelow` | src/vector_clock.hpp:214-223 | no version has a newer stamp than the chosen one, and every earlier one is strictly older |
| `Resolution.ResolveLww` | src/vector_clock.hpp:205-225 | the loop ends on the newest stamp, the earliest on a full tie |
| `Resolution.ResolveGetResult` | src/vector_clock.hpp:271-282 | frontier, then the tiebreak only when more than one survives |
| `Resolution.WinnerMeaning` | src/vector_clock.hpp:271-282 | the winner is a response no response dominates, and no survivor has a newer stamp |
| `Resolution.GreatestWins` | src/vector_clock.hpp:271-282 | a response at or above all others wins whatever the stamps say, with no conflict reported |
| `Resolution.NewestSurvivorWins` | src/vector_clock.hpp:205-225 | an undominated response with a newer stamp than every other undominated one wins |
| `Resolution.ConflictCount` | src/vector_clock.hpp:279 | the conflict reported counts the different versions nobody dominates, when a clock determines its version |
| `Resolution.ResolutionIgnoresOrder` | src/vector_clock.hpp:205-282 | permuting or repeating responses changes neither the winner nor the conflict count, if a clock determines its version and concurrent stamps differ |
| `Ring.SortedUnique` | src/ring.hpp:86 | the iteration order of an ordered map is determined by its keys |
| `Ring.Distinct` | src/ring.hpp:94 | no node is lost and none listed twice |
| `Placement.DistinctByFirst` | src/ring.hpp:94 | distinct nodes keep the order of their first occurrences |
| `RingWalk.UpperBound` | src/ring.hpp:86 | the first position past the hash |
| `RingWalk.WrapIsClockwise` | src/ring.hpp:86-90 | starting at the upper bound and wrapping once is the clockwise order |
| `RingWalk.PreferredStable` | src/ring.hpp:106-108 | once N entries are listed, walking on changes nothing |
| `RingWalk.AfterIsMet` | src/ring.hpp:92-105 | after any number of turns the loop's variables (seen set, natural count, queue, list) are those of the distinct nodes met so far |
| `RingWalk.StopIsFinal` | src/ring.hpp:106-108 | stopping at N entries or after one round gives the declared list |
| `RingWalk.Walk` | src/ring.hpp:82-113 | the iterator loop with dedupe, queue and wraparound yields the declared list |
| `RingWalk.PreferenceList` | src/ring.hpp:74-115 | the whole function equals: reachable nodes among the first N distinct ones, then reachable later nodes paired first-in-first-out with the skipped ones |
| `Placement.WalkByDistance` | src/ring.hpp:86-113 | nodes are met in the order of their nearest token clockwise past the key, a token at the key itself being a full turn away |
| `Placement.WalkBegins` | src/ring.hpp:86-90 | the walk begins with the owner of the least token past the key, or of the least token of all when there is none |
| `Placement.FilterPositions` | src/ring.hpp:96-97 | reachable and skipped nodes are taken at exactly the matching positions, in order |
| `Placement.FirstKeptIsNearest` | src/ring.hpp:92-104 | the first node that passes the reachability test owns a token with no passing node at any nearer token |
| `Placement.ListedNodes` | src/ring.hpp:74-115 | the listed nodes are the first min(N, reachable) reachable distinct nodes clockwise |
| `Placement.ListedLabels` | src/ring.hpp:95-104 | unlabelled entries are exactly those among the first N; the labels are the unreachable ones of the first N in order, each used once |
| `Placement.TrueOwnersDistinct` | src/ring.hpp:95-104 | the entries stand for different nodes, all among the first N |
| `Placement.JoinKeepsOrder` | src/ring.hpp:44-47 | a node joining at fresh tokens leaves the clockwise order of the others alone, from every key |
| `Placement.JoinMovesLittle` | src/ring.hpp:44-47 | a key's natural owners are unchanged, or gain the new node and lose at most the last old one, the rest in the same order |
| `Placement.LeaveRestores` | src/ring.hpp:64-67 | erasing the node's tokens restores the ring |
| `Movement.DiscoveryMovesLittle` | src/ring.hpp:43-62 | merging in a new node, or one that returns, changes a key's natural owners by at most inserting it and dropping the last |
| `Movement.RemovalMovesLittle` | src/node_membership.cpp:60-71 | so, seen backwards, does an administrator's removal |
| `Movement.LearnedRemovalMovesLittle` | src/ring.hpp:64-67 | and a removal learned second-hand |
| `Movement.ReturnRestores` | src/ring.hpp:58-61 | a node that is removed and comes back finds the ring, hence every key's owners, as they were |
| `Hashing.ComputeMix64` | src/ring.hpp:18-25 | the five assignments compute the mixing function on 64-bit words |
| `Hashing.MixIsBijective` | src/ring.hpp:18-25 | mixing has a two-sided inverse |
| `Hashing.ComputeFnv1a64` | src/ring.hpp:27-34 | the byte loop computes FNV-1a |
| `Hashing.LastByteGoesInFirst` | src/ring.hpp:29-32 | each byte is combined before the multiplication: undoing the last one, two hashes differ exactly where the last bytes do |
| `Hashing.PublishedHashes` | src/ring.hpp:28-31 | the standard's values for the empty text and for "a" |
| `Hashing.MixedOne` | src/ring.hpp:18-25 | a value of the mixing step, fixing its constants |
| `Hashing.FnvSeparates` | src/ring.hpp:27-34 | two strings of equal length differing in one byte never hash alike, at any length |
| `Hashing.PositionSeparates` | src/ring.hpp:18-34 | nor do they share a ring position |
| `Hashing.ComputeTokens` | src/node_membership.cpp:199-207 | token i is the position of name, colon, i in decimal, for each i below V |
| `Hashing.TokenTextShape` | src/node_membership.cpp:203 | what is hashed for a token is the name, a colon and a text whose decimal value is the index |
| `Hashing.IndexIsDecimal` | src/node_membership.cpp:203 | the index is written in digits without a leading zero |
| `Hashing.NeighboursDoNotClash` | src/node_membership.cpp:199-207 | nodes whose names have equal length and differ in one byte never clash at the same token index |
| `Hashing.SiblingTokensDiffer` | src/node_membership.cpp:199-207 | a node's tokens whose indices differ only in the last digit are distinct |
| `Replica.ReplicaRule` | src/node_kv.cpp:547-573 | the replica rule always covers the incoming version, covers the previous one if and only if the two are not concurrent, and reports STORED exactly when it replaced |
| `Replica.CoordinatorRule` | src/node_kv.cpp:418-428 | the stand-in rule takes the new hint exactly when it dominates, so it always covers the previous one and the new one if and only if not concurrent; it agrees with the replica rule exactly on comparable clocks |
| `Replica.GreatestWriteAbsorbed` | src/node_kv.cpp:547-573 | for any sequence of replicated writes the store never rises above an upper bound of them all, and stands at it once a write at that clock has arrived |
| `Replica.StoreCanRegress` | src/node_kv.cpp:569-572 | two concurrent siblings can take a stored clock strictly down |
| `Replica.CausalChain` | src/node_kv.cpp:523-543 | with no concurrent store in between, a node's clock for a key never goes down and goes strictly up across every commit, under any interleaving |
| `KvNodes.KvNode.constructor` | src/node_main.cpp:31 | a node starts with no data, no hints and no marks |
| `KvNodes.KvNode.MarkUnreachable` | src/node_reachability.cpp:18-21 | adds exactly the peer |
| `KvNodes.KvNode.MarkReachable` | src/node_reachability.cpp:23-26 | removes exactly the peer |
| `KvNodes.KvNode.StoreReplicatedWrite` | src/node_kv.cpp:547-573 | the whole new store and the outcome reported |
| `KvNodes.KvNode.CommitCoordinatedWrite` | src/node_kv.cpp:523-543 | read, merge, increment and store in one step; returns the clock stored |
| `KvNodes.KvNode.HoldAsReplica` | src/node_kv.cpp:57-76 | which hint is held afterwards, a concurrent one overwritten, every other slot untouched |
| `KvNodes.KvNode.HoldAsCoordinator` | src/node_kv.cpp:413-432 | which hint is held afterwards, a concurrent one kept, every other slot untouched |
| `KvNodes.KvNode.ReplicateWrite` | src/node_kv.cpp:38-88 | refused by a removed node with nothing changed; held as a hint and the owner marked when labelled; stored otherwise; the outcome reported in each case |
| `KvNodes.KvNode.FinishDelivery` | src/node_reachability.cpp:103-119 | an accepted hint is erased only if the held one still has the delivered clock; a transport failure marks the target; a refusal changes nothing |
| `KvNodes.KvNode.DeliverHints` | src/node_reachability.cpp:80-123 | a round without interference erases exactly the accepted hints for the target and marks it exactly when some call failed |
| `ReadPath.FinishGet` | src/node_kv.cpp:229-284 | found exactly when R replicas answered and one holds the key; the reply is the resolved winner, and the repair list is the responders not at its clock |
| `ReadPath.StalePeersExact` | src/node_kv.cpp:257-263 | a peer is repaired if and only if one of its responses lacks the key or is not at the winner's clock |
| `ReadPath.StalePositions` | src/node_kv.cpp:257-263 | the peers to repair are those of exactly the stale responses, in order |
| `ReadPath.FoundPositions` | src/node_kv.cpp:236-241 | the versions resolved are those of exactly the responses that hold the key, in order |
| `ReadPath.CollectStale` | src/node_kv.cpp:255-263 | the repair loop computes the list so described |
| `ReadPath.LaterWriterWins` | src/vector_clock.hpp:191-222 | of two concurrent coordinated writes a read returns the one with the later time, or at equal times the greater coordinator, whichever answer came first |
| `ReadPath.RepairIsStored` | src/node_kv.cpp:270-277 | no stale responder can refuse the winner: every repair is STORED and installs it |
| `ReadPath.ReadRepairFixpoint` | src/node_kv.cpp:236-277 | every listed repair is STORED; once exactly the listed peers have received the winner all responders stand at its clock, and reading again finds it, no conflict and nothing to repair |
| `GetPath.Gather` | src/node_kv.cpp:171-227 | one response per listed node that answers, this node's from its own store, none repeated; the others are noted |
| `GetPath.UnheardExactly` | src/node_kv.cpp:219-221 | a node is marked if and only if it is another listed one that did not answer |
| `GetPath.HandleGet` | src/node_kv.cpp:138-284 | the whole handler: not found without effect by a removed node or when the list is shorter than R; otherwise the resolved winner, the unanswered peers marked, this node's own repair stored and exactly the other stale responders listed |
| `PutPath.FindSubstitute` | src/node_kv.cpp:333-349 | an eligible node owning a token with no eligible node at any nearer token clockwise, and none if and only if no node on the ring is eligible |
| `PutPath.ReplicateToOwner` | src/node_kv.cpp:448-490 | the worker loop ends; each contact after the first is the substitute found on the ring and marks of that moment; it never contacts a node twice, nor the true owner again, nor another listed node; stops at the first acceptance; gives up only when every ring node is listed, tried, the owner or marked; notes exactly the nodes that did not answer; sends each the write, labelled unless it goes to the owner |
| `PutPath.DirectAck` | src/node_kv.cpp:471-477 | an acknowledgement is unhinted exactly when it came from the true owner at the first attempt |
| `PutPath.FanOut` | src/node_kv.cpp:442-495 | one finished worker per entry but the coordinator's; the count is the number of acknowledged entries |
| `PutPath.WriteLocally` | src/node_kv.cpp:405-440 | the coordinator's own share: commit as an owner, or a hint built without the local copy |
| `PutPath.CoordinatePut` | src/node_kv.cpp:392-509 | refused without effect when the list is shorter than W; otherwise succeeds exactly when W entries were acknowledged, with the new clock as context in both cases, and every unanswered target marked |
| `PutPath.LabelledUnlessOwner` | src/node_kv.cpp:458-465 | every request carries the write as it is, labelled with the true owner unless it goes to the true owner itself |
| `PutPath.MarkedExactly` | src/node_kv.cpp:477-479 | a node is marked if and only if some worker's call to it was not answered |
| `PutPath.CoordinatedClockMeaning` | src/node_kv.cpp:407-412 | an owner's clock is built on the context and its copy, a stand-in's on the context alone, each plus one count of its own |
| `PutPath.SuccessIsReplicated` | src/node_kv.cpp:499-509 | a success stands for at least W different replicas among the first N |
| `PutPath.HandlePut` | src/node_kv.cpp:106-136 | the whole handler: refused without effect by a removed node; coordinated by a listed one, with all that this does to store, hints, marks and reply; forwarded once otherwise; a reply's clock is built on the context sent, or has no counters |
| `PutPath.OutsiderHoldsHint` | src/node_kv.cpp:442-490 | a concrete ring on which the worker for a silent owner ends acknowledged by a stand-in outside the listed owners |
| `PutPath.AcksAreOwners` | src/node_kv.cpp:442-495 | as many acknowledgements as distinct true owners |
| `PutPath.AcksAreDistinctReplicas` | src/node_kv.cpp:442-495 | on a list drawn up by the ring walk they stand for distinct nodes among the first N |
| `PutPath.SmallRingSubstitute` | src/node_kv.cpp:333-349 | with at most N nodes a substitute exists if and only if an unlisted, untried node recovered since the list was drawn up |
| `PutPath.SmallRingAcksAreDirect` | src/node_kv.cpp:442-495 | with at most N nodes and no recovery, every worker's acknowledgement is direct |
| `Protocol.StepKeepsProvenance` | src/node_kv.cpp:38-88 | every step keeps: each version anywhere is the version of some coordinated write of that key |
| `Protocol.RunProvenance` | src/node_kv.cpp:392-573 | hence so in every reachable state: stores, hints, messages, replies, results and client contexts |
| `Origins.VersionsWereWritten` | src/node_kv.cpp:392-543 | in every reachable state what is stored, held or returned by a read is the value one coordinated write of that key wrote, stamped with that write's time and coordinator |
| `Refinement.RunCommit` | src/node_kv.cpp:523-543 | coordinating as an owner changes the node as the step changes the state, and nobody else |
| `Refinement.RunCommitAsStandIn` | src/node_kv.cpp:411-432 | so does coordinating as a stand-in |
| `Refinement.RunReceiveWrite` | src/node_kv.cpp:82-88 | so does receiving a replicated write |
| `Refinement.RunReceiveHint` | src/node_kv.cpp:47-80 | so does receiving a hint |
| `Refinement.RunFinishDelivery` | src/node_reachability.cpp:103-114 | so does the answer to a delivered hint |
| `Refinement.ReplyShows` | src/node_kv.cpp:90-104 | a replica's reply to a read is what it holds |
| `Refinement.RunFinishRead` | src/node_kv.cpp:229-284 | the read handler's winner is the step's, and the step sends the winner to exactly the peers the handler repairs |
| `Refinement.RepairsReachStale` | src/node_kv.cpp:255-277 | a finished read sends the winner to a node if and only if it responded and lacks the key or is not at the winner's clock |
| `Progress.WriteCompletes` | src/node_kv.cpp:448-475 | from any state a write can reach any node and be acknowledged, changing that one cell, which then covers it |
| `Progress.HintCompletes` | src/node_kv.cpp:47-80 | a hint can be held and acknowledged, changing that one slot |
| `Progress.DeliveryCompletes` | src/node_reachability.cpp:80-123 | a held hint can be delivered: the target then covers it and the hint, and only it, is gone |
| `Progress.RepairCompletes` | src/node_kv.cpp:274-322 | a repair can reach its replica, which then covers the winner |
| `Progress.OwnersCanAcknowledge` | src/node_kv.cpp:442-495 | every write can have the acknowledgement of every owner, whatever happened before |
| `Counters.StepKeepsBounded` | src/vector_clock.hpp:189-190 | building a clock from clocks within the bound stays within it, wrap or no wrap |
| `Counters.CounterBound` | src/vector_clock.hpp:189-190 | in every reachable state no clock coordinated, stored, held, in flight, reported delivered, read, returned or handed out has an axis above the number of writes that node has coordinated |
| `Counters.NoWrap` | src/vector_clock.hpp:189-190 | so before 2^64 - 1 writes at a node, what it commits strictly dominates context and local copy |
| `Durability.FinishDeliveryGrew` | src/node_reachability.cpp:103-114 | a hint is erased only once the target covers it; a strictly newer hint that arrived during delivery stays |
| `Durability.StepGrew` | src/node_kv.cpp:48-80 | no step of a comparable run lowers a stored version or uncovers a held one |
| `Durability.StepKeepsAll` | src/node_reachability.cpp:80-123 | every step keeps every acknowledgement, past or in flight, covered |
| `Durability.NoAckedHintLost` | src/node_reachability.cpp:80-123 | in every reachable state of a comparable run an acknowledged hint is covered by the hint still held or by the target's store |
| `Durability.NoAckedWriteLost` | src/node_kv.cpp:547-573 | a directly acknowledged write stays covered by that replica's store |
| `QuorumReads.WinnerCovers` | src/node_kv.cpp:236-247 | among comparable responses the winner is at or above each |
| `QuorumReads.QuorumsMeet` | src/node_main.cpp:102-109 | a write quorum and a read quorum share an owner when W + R > N |
| `QuorumReads.QuorumCheckIsExact` | src/node_main.cpp:102-109 | the start-up check admits exactly the sizes for which no write quorum can miss a read quorum |
| `QuorumReads.QuorumReadExact` | src/node_kv.cpp:229-247 | in any reachable comparable state, every later read that counts R owners returns a version at or above a clock, under delay, loss, duplication, reordering, hints and repairs, if and only if the owners at or above it plus R exceed the number of owners |
| `QuorumReads.QuorumReadIsFresh` | src/node_kv.cpp:229-247 | a read begun after W owners directly acknowledged a write, and counting R owners, returns a version at or above it |
| `QuorumReads.StrictQuorumReadIsFresh` | src/node_kv.cpp:442-509 | when no hint is made for the key, W acknowledgements counted by the owners they stand for are enough |
| `QuorumReads.RunKeepsChain` | src/node_kv.cpp:523-543 | writes of a key all committed at one owner form a strictly increasing chain that owner's store leads |
| `QuorumReads.QuorumReadReturnsRecentWrite` | src/node_kv.cpp:229-247 | then a quorum read returns exactly some write's version, no older in commit order than any write that had its quorum of direct acknowledgements |
| `FirstWrites.StepKeepsRooted` | src/node_kv.cpp:523-543 | every write is a first one with a single count, or strictly follows another write of its key |
| `FirstWrites.NothingOlderLater` | src/vector_clock.hpp:176-194 | when nothing below a handed-out clock has been written, nothing below it can be written later |
| `Identity.RunExtends` | src/vector_clock.hpp:176-194 | in a comparable run every clock of a key is an earlier one, or nothing, plus one count by its coordinator |
| `Identity.ClockIdentifiesWrite` | src/node_kv.cpp:523-573 | in a comparable run, with stand-ins or without, no two writes of a key carry equal clocks if and only if every coordinator's own count for it rises from write to write |
| `Identity.OwnersCountUp` | src/node_kv.cpp:523-543 | it does rise when no stand-in coordinates the key, because an owner's store still covers its earlier writes |
| `Identity.StandInReusesClock` | src/node_kv.cpp:411-432 | a run in which a stand-in gives two different values the same clock |
| `Identity.ReadIgnoresArrivalOrder` | src/node_kv.cpp:236-247 | where own counts rise, what a read returns depends only on which replicas it counts |
| `QuorumReads.SloppyAcksAllowStaleRead` | src/node_kv.cpp:442-495 | a run on owners c, t, u with W = R = 2 in which acknowledgements stand for two owners, one through a stand-in that is no owner, and quorum reads may still miss the write |
| `Membership.MembershipNode.constructor` | src/node_main.cpp:31-43 | starts with its own UP entry and its own tokens on the ring |
| `Membership.MembershipNode.MergeOne` | src/ring.hpp:41-71 | the effect of one incoming entry on table and ring, all five cases |
| `Membership.MembershipNode.MergeInto` | src/ring.hpp:36-72 | visits each incoming entry once in any order; the resulting table does not depend on the order |
| `Membership.MembershipNode.GossipExchange` | src/node_membership.cpp:81-92 | merges, then answers with the merged table |
| `Membership.MembershipNode.RemoveNode` | src/node_membership.cpp:51-79 | refused for an unknown node, a no-op for a removed one, otherwise removed with its tokens erased from the ring |
| `Membership.MergeIgnoresOrder` | src/ring.hpp:36-72 | any visiting order gives the pointwise merge |
| `Membership.MergeLaws` | src/ring.hpp:36-72 | merging is idempotent and associative, and commutative if and only if equal stamps mean equal entries |
| `Membership.PrevailingIsNewest` | src/ring.hpp:53-55 | the later entry prevails, at equal times the greater writer, on an exact tie the local one |
| `Membership.PushPullEqualizes` | src/node_membership.cpp:163-181 | one isolated push-pull exchange leaves both tables equal |
| `Membership.RefreshCoherent` | src/ring.hpp:57-70 | a same-status refresh keeps ring and table together if and only if an UP entry keeps its set of tokens |
| `Membership.MergeEntryCoherent` | src/ring.hpp:41-71 | discovery, return, second-hand removal and refresh all keep the ring exactly the UP entries' tokens |
| `Membership.RemoveCoherent` | src/node_membership.cpp:51-79 | so does an administrator's removal |
| `Membership.InitialCoherent` | src/node_main.cpp:31-43 | so does the constructor |
| `Membership.RemovalPrevails` | src/node_membership.cpp:60-71 | a removal rewrites exactly the target's entry, keeping its address, and replaces the old entry at another node if and only if its stamp is newer |
| `Membership.BootPrevails` | src/node_main.cpp:31-43 | a booting node announces exactly its own UP entry, which brings it back at a node that has it as removed if and only if its stamp is newer |
| `Gossip.RingFollowsTable` | src/ring.hpp:41-71 | ring and table agree at every node in every reachable state, through boots, restarts, gossip in any order and removals |
| `Gossip.MergeJoins` | src/ring.hpp:36-72 | merging two joins of sets of tables gives the join of their union |
| `Gossip.JoinUnique` | src/ring.hpp:36-72 | a set of agreeing tables has one join |
| `Gossip.AbsorbsLetters` | src/node_membership.cpp:122-126 | receiving a table takes in everything that had flowed into it, and nothing absorbed is ever lost |
| `Gossip.ExchangeEqualizes` | src/node_membership.cpp:163-181 | one undisturbed exchange, step by step, leaves both nodes with the merge of their tables, having absorbed the same |
| `Gossip.GossipConverges` | src/node_membership.cpp:163-181 | nodes into which the same tables have flowed, by whatever route and with whatever loss and duplication, hold the same table and ring and walk every key alike |
| `Gossip.HistoryAgrees` | src/node_membership.cpp:51-92 | after any history that never reuses a stamp, all tables, held or in flight, agree |
| `Gossip.HistoryThenGossipConverges` | src/node_membership.cpp:51-181 | any such history followed by gossip alone converges |
| `Client.DriftClient.Connect` | src/driftclient.hpp:69-79 | a client exists if and only if some seed answers a ping |
| `Client.DriftClient.Put` | src/driftclient.hpp:81-134 | sends the cached context, stops at the first seed that answers starting from the rotation slot, caches the answer's clock exactly when it has counters |
| `Client.DriftClient.Get` | src/driftclient.hpp:136-167 | same walk; caches exactly what was found |
| `Client.CallVisitsEverySeedOnce` | src/driftclient.hpp:98-100 | within one call each seed position has its turn on exactly one attempt |
| `Client.AttemptsFollowTheList` | src/driftclient.hpp:98-100 | the first attempt is at the rotation slot and each later one at the next position, wrapping |
| `Client.CallsRotate` | src/driftclient.hpp:188-192 | the next call starts one seed further on, until the 64-bit count of calls wraps |
| `Client.PutsKeepOrAdvance` | src/driftclient.hpp:81-134 | over any stretch of Puts of a key with honest answers, failovers and refusals the cached context is unchanged or replaced by one that strictly dominates it, whatever surrounds the stretch |
| `Client.CachedClocksWereGiven` | src/driftclient.hpp:92-128 | what is sent back for a key is a clock some earlier answer for that key gave |
| `Client.CacheIsLatest` | src/driftclient.hpp:124-162 | what is cached for a key is exactly the clock of the last remembered answer for it, from the very first one on |
| `Client.PutFollowsGet` | src/driftclient.hpp:92-162 | a Put after a Get of the same key is built on what the Get found |
| `Sessions.ContextKeptExact` | src/driftclient.hpp:136-167 | in any reachable comparable state, no later quorum Get can take a handed-out context back if and only if a quorum must overlap the owners at or above it, or nothing older has ever been written |
| `Sessions.UndisturbedGetExact` | src/node_kv.cpp:138-284 | a Get that hears exactly what the owners hold now keeps the context if and only if every R owners that miss it hold nothing |
| `Sessions.CommitRaises` | src/node_kv.cpp:392-440 | in a run, a coordinated write strictly raises the context it carried |
| `Sessions.ContextNeverFalls` | src/driftclient.hpp:81-167 | over a session served by a run, the cached context never goes down and goes strictly up across every answered Put, between any two calls such that each Get in between begins when the servers are safe for it |
| `Sessions.StaleGetForgets` | src/driftclient.hpp:160-162 | a session of two Puts and a Get, served by a run on three owners with W = R = 2, that ends with an older context than it had |
| `ClockText.DecimalRoundTrip` | src/client.cpp:41 | printing a counter in decimal and reading it back is the identity |
| `ClockText.SortedItems` | src/client.cpp:35-37 | lists every counter once, in name order |
| `ClockText.ListingUnique` | src/client.cpp:35-37 | a clock has one listing, so the text does not depend on the map's iteration order |
| `ClockText.ClockToString` | src/client.cpp:34-44 | the text is the sorted listing, each entry as name, colon, decimal, joined with commas |
| `ClockText.PrintedExample` | src/client.cpp:39-42 | the separators as printed |
| `ClockText.ParseClockArg` | src/client.cpp:52-80 | the consuming loop computes the recursive parse, including each rejection and a counter too large for 64 bits |
| `ClockText.ParsePairExact` | src/client.cpp:61-73 | a pair is accepted if and only if it is a nonempty name without a colon, a colon, and digits whose value fits |
| `ClockText.ParsePairTooLarge` | src/client.cpp:73 | and out of range if and only if it has that shape and the value does not fit 64 bits |
| `ClockText.ParsePieces` | src/client.cpp:58-78 | the text is taken apart at its commas from the left, a later pair replacing an earlier one of the same name, a comma at the end harmless |
| `ClockText.ParseRendered` | src/client.cpp:58-73 | a printed pair parses back when its name is plain and is rejected when the name is empty or has a colon |
| `ClockText.ParseJoined` | src/client.cpp:52-80 | printed entries without commas in their names parse back one by one if all names are plain, and are rejected otherwise |
| `ClockText.ParsedIdsPlain` | src/client.cpp:52-80 | whatever text is parsed, only plain names come out |
| `ClockText.RoundTrip` | src/client.cpp:34-80 | parsing what was printed gives exactly the same counters if and only if every name is plain |
| `ClockText.ColonIsRejected` | src/client.cpp:58-63 | with no comma in any name, an unplain name makes the text rejected, never read as another clock |

## Left out

- gRPC channels, deadlines, threads and futures: every remote call is an arbitrary outcome (accepted, refused, not answered), and interleavings are the steps of `Protocol` and `Gossip`.
- PutPath.FanOut: the workers of one write run one after the other, each against an arbitrary script of rings, marks and outcomes that stands for the other threads and for the other workers.
- PutPath.HandlePut: the unanswered targets are marked when the workers are done, with nobody else changing the marks meanwhile; what a search sees of marks set earlier is part of the script.
- KvNodes.KvNode.DeliverHints: one round without interference; the interleaved form is the steps `SendHeld`, `ReceiveWrite` and `FinishDelivery` of `Protocol`.
- GetPath.HandleGet: one read with nobody else changing the node meanwhile, its responses in list order; `Gathered` and the theorems hold for any order.
- QuorumReads.QuorumReadIsFresh: counts direct acknowledgements, not hinted ones, and a read's R among the owners, not among stand-ins that answered; `QuorumReadExact` shows what hinted ones are worth.
- Protocol.RunProvenance: a replicated write comes from a coordinated one; the command-line client's `--replicate-write --clock=`, which sends a replica any clock, is excluded.
- Protocol: a coordinator may send a write to any node at any later time, which covers duplicates and delays and more.
- Restarts and removals during runs of the data path: stores and hints live in memory only, and a removed replica answers "not found" and refuses repairs.
- Linking `Hashing` to `Ring`: tokens and key hashes are positions there, a node's tokens an arbitrary list; that different nodes never share a token is assumed where needed, not proved.
- The order in which a Put is forwarded to listed nodes (its relayed answer is an input of `HandlePut`), the reachability probe loop, bootstrap retries and the choice of a gossip partner: they only choose which modelled step happens next.
- Wall-clock readings and random choices are inputs.
- Names and keys are sequences of characters compared character by character, not bytes; `Hashing` works on bytes.
- Client.DriftClient.Put: the network is any function of attempt, seed and request; `Sessions` ties a client's answers to a run by what they carry, not by executing the client's loop inside it.
- ClockText.ParseClockArg: the clock partly filled by a rejected parse, which callers discard.
- Liveness: that a held hint is eventually delivered, or that gossip eventually reaches everyone.
- At-most-once execution of a Put: a retry after a transport failure can commit twice, as in the original.
- Logging, status and ping handlers, command-line flags, vnode load statistics.
