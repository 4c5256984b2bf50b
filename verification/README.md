# A verified model of unimatrix

This project models the logic of unimatrix, a knowledge engine written in Rust, and proves what that
logic guarantees. It covers four parts of the system.

- **The knowledge graph.** Entries and stored edge rows become a typed graph. Construction rejects
  supersession cycles. Four readers use the graph: the supersession penalty and terminal search, candidate
  expansion, personalized PageRank, and contradiction suppression. Each reader is proved against a
  declarative account of what it is for: shortest chains, balls of a given radius, a contracting linear
  iteration, "a higher-ranked contradictor exists".
- **Stateful components.** The disk event queue, the three-slot model registry with the compare-and-swap
  training protocol that feeds it, and reservoir sampling. Their main results hold over every run and every
  interleaving, and (for sampling) over all draws of the random number generator.
- **Exact algebra.** MicroLoRA's hand-written backward pass, its flat parameter layout, and EWC++
  regularisation, as identities over the reals.
- **Framing.** Length-prefixed frames on a byte stream, cut anywhere.

## How it is organised

| file | content |
|---|---|
| `Prelude`, `Reals`, `Sums` | options and results, sorting, products, finite sums |
| `Hops`, `SearchOrder` | walks of exactly d edges, forests, the breadth-first search invariant and the order it yields |
| `RelationGraph`, `Supersession`, `Expansion`, `PageRank`, `Suppression`, `NonInterference` | the knowledge graph and its readers |
| `Reservoir`, `QueueNames`, `EventQueue`, `QueueRuns`, `Registry`, `TrainingProtocol`, `Generations` | stateful components |
| `Lora`, `AdapterTraining`, `Ewc` | the adapter and its regulariser |
| `Framing` | frames |

`dafny verify dfyconfig.toml` checks the whole project. Large invariants are kept out of proofs that do not
need them with `hide` statements; nothing is assumed.

## How the system is represented

- Entry ids come from a keyed table, so construction asks for unique ids. A petgraph `NodeIndex` is then
  interchangeable with the entry id it was created for, and is represented by it.
- The order of the edge list of a graph stands for petgraph's adjacency order. The readers are proved for
  every graph, hence for every order.
- `is_cyclic_directed` belongs to petgraph. It is represented by a small cycle check that is proved exact.
- `f32` and `f64` are reals.
- The random number generator is represented by the indices it draws, the clock by parameters, the result of
  writing the registry file by a parameter, and the far end of the transport by a verdict per request.
- A queue directory maps stamps to file contents. A queue line is blank, malformed, or one encoded request;
  encoding and decoding are taken to be inverse.
- A run of the queue starts with an empty directory and has one writer. Its clock never goes back, advances
  before each new file, and shows stamps whose names sort by time. What happens without the last two is stated
  by `QueueRuns.FileLimitIff`, `QueueRuns.StalledRun` and `QueueNames.ListingChronologicalIff`.
- A run of the training protocol is any interleaving of steps, one step per atomic action or mutex section.
  Thread creation may fail, every write of the registry file may fail, and the process may restart from the last
  file written, or from nothing if the file cannot be read.

## Where the code and its documentation differ

The model follows the code.

- `dfs_active_reachable` and `bfs_chain_depth` test the depth of the node they expand, so they examine
  entries up to `max_traversal_depth + 1` hops away; the comments say `max_traversal_depth`. For every cap there is a table
  where that shows (`Supersession.DepthPastCap`).
- `graph_expand` is documented to process its frontier in sorted id order per hop. The code sorts the neighbours
  of each node and takes the seeds in the order given. When the cap binds, that order decides which nodes are
  kept (`Expansion.SeedOrderMatters`); when it does not, the order has no effect (`Expansion.SeedOrderIrrelevant`).
- The queue is documented as bounded by 10 × 1000 events. Under an advancing clock it holds at most 9001.
  If the clock still shows the stamp of a full newest file, that file grows past 1000
  (`QueueRuns.StalledClockOverflows`, `QueueRuns.FileLimitIff`).
- File names sort as strings, so "oldest first" holds exactly as long as each stamp does not exceed the leading
  digits of every later one (`QueueNames.ListingChronologicalIff`): stamps of equal width qualify
  (`QueueNames.EqualWidthOrder`), and so do 1 and 10, but not 999 and 1000 (`QueueNames.WidthMatters`).
- `write_frame` accepts an empty payload that `read_frame` rejects (`Framing.RoundTripIff`).
- `rollback` takes the previous version out before it looks for a production version
  (`Registry.FailureLeavesSlotsIff`); no reachable registry has one without the other.
- `promote` and `rollback` report a failed write of the registry file after they have moved the slots
  (`TrainingProtocol.FailuresChangeNothingIff`, `Generations.FailedWriteMoves`).
- The lock guard is documented as panic-safe, but it is created inside the new thread. If the thread cannot be
  created, the flag stays set until the process restarts (`TrainingProtocol.StuckIffLost`,
  `TrainingProtocol.FlagGetsStuck`).
- A generation number does not always name one version. A rollback that discards a waiting shadow, or a restart
  from a registry file that missed a registration, makes a number come back
  (`Generations.NumbersDistinctIff`, `Generations.NumberComesBack`).
- A restored EWC state counts as uninitialised if its Fisher diagonal is all zero
  (`Ewc.RestartUnnoticedIff` says exactly when its vectors, or `is_initialized`, can tell).

## Model

| member | source | states |
|---|---|---|
| `Hops.HopIsWalk` | crates/unimatrix-engine/src/graph.rs:737-743 | The hop sets used in every distance claim are reachability by explicit walks of that length. |
| `Hops.ForestDepthUnique` | crates/unimatrix-engine/src/graph.rs:690-697 | When no node has two predecessors and there is no cycle, all walks between two nodes have one length; this is what makes a depth-capped depth-first search complete. |
| `Hops.BfsCovered` | crates/unimatrix-engine/src/graph.rs:756-781 | Everything nearer than the front of a breadth-first search has been found, at no more than its distance. |
| `RelationGraph.EntryById` | crates/unimatrix-engine/src/graph.rs:789-791 | Finds an entry with the id, and fails exactly when the table has none. |
| `RelationGraph.EdgesOfTypeMember` | crates/unimatrix-engine/src/graph.rs:345-355 | The filter boundary yields exactly the edges of one type at one end of a node. |
| `RelationGraph.GraphEdgeCount` | crates/unimatrix-engine/src/graph.rs:385-485 | The graph has one node per entry, and holds each edge exactly once per entry whose resolvable pointer it is plus once per row that is not bootstrap-only, has one of the fifteen stored type names and joins two entries. |
| `RelationGraph.AddRows` | crates/unimatrix-engine/src/graph.rs:424-485 | The row pass adds, in order, each edge as often as there are rows for it that are not bootstrap-only, have one of the fifteen stored type names, and join two nodes. |
| `RelationGraph.IsCyclicDirected` | crates/unimatrix-engine/src/graph.rs:509-511 | Reports a cycle exactly when some walk of at least one edge returns to its start. |
| `RelationGraph.BuildTypedRelationGraph` | crates/unimatrix-engine/src/graph.rs:381-514 | Fails exactly when some closed path of `supersedes` pointers exists among the entries; otherwise the nodes are the entry ids and every edge occurs exactly as often as the entries and the rows, by name, say. |
| `RelationGraph.AcceptedIff` | crates/unimatrix-engine/src/graph.rs:427-474 | The tests of the row pass keep exactly the rows that are not bootstrap-only, carry one of the fifteen names, and join two entries. |
| `RelationGraph.CycleIsClosedPath` | crates/unimatrix-engine/src/graph.rs:487-511 | A pointer cycle is a closed path of at least one pointer from entry to entry. |
| `RelationGraph.SupersedesIsParent` | crates/unimatrix-engine/src/graph.rs:396-422 | The Supersedes edges are exactly the resolvable `supersedes` pointers, whatever the rows say. |
| `RelationGraph.SuccessorsAreReplacements` | crates/unimatrix-engine/src/graph.rs:396-422 | A node has one outgoing Supersedes edge per entry that supersedes it, so the successor count is the number of replacements. |
| `RelationGraph.HopIsFollow` | crates/unimatrix-engine/src/graph.rs:396-422 | Walking d Supersedes edges forward is following d pointers back. |
| `RelationGraph.AcyclicIsPointerFree` | crates/unimatrix-engine/src/graph.rs:487-511 | The Supersedes edges are acyclic exactly when the pointers are. |
| `RelationGraph.BuiltForest` | crates/unimatrix-engine/src/graph.rs:396-513 | The Supersedes edges of every graph that construction accepts form a forest. |
| `Supersession.NearestTerminalIsLeast` | crates/unimatrix-engine/src/graph.rs:737-743 | The chain depth is the least depth in range at which another active, unsuperseded entry lies, and absent exactly when there is none. |
| `Supersession.VisitSuccessors` | crates/unimatrix-engine/src/graph.rs:761-780 | The inner loop visits and enqueues each unvisited successor once, or stops at a terminal one. |
| `Supersession.BfsChainDepth` | crates/unimatrix-engine/src/graph.rs:744-784 | On every graph, the shortest hop count (at least 1, at most the cap plus 1) to another terminal entry, or nothing; on a built graph, the length of the shortest chain of replacements in the table that ends in an active entry without successor. |
| `Supersession.DfsActiveReachable` | crates/unimatrix-engine/src/graph.rs:698-735 | Always sound; on a forest true exactly when the chain depth exists; on a built graph, exactly when such a chain of at most cap plus 1 replacements exists in the table. |
| `Supersession.PushNeighbours` | crates/unimatrix-engine/src/graph.rs:673-682 | Pushes each unvisited successor once, in order, and marks it visited. |
| `Supersession.TerminalSearchExact` | crates/unimatrix-engine/src/graph.rs:655-686 | What the search returns is a terminal within 10 hops; on a forest it returns nothing only if there is none. |
| `Supersession.FindTerminalActive` | crates/unimatrix-engine/src/graph.rs:643-686 | Returns only the id of an entry whose status is Active and whose `superseded_by` is empty; on a built graph it is reached by at most 10 replacements, and nothing is returned only if no such chain exists. |
| `Supersession.SearchMatchesDepth` | crates/unimatrix-engine/src/graph.rs:643-686 | On a built graph, from an entry that is not terminal, the search succeeds exactly when the chain depth is at most 10. |
| `Supersession.ChainDepthOnTable` | crates/unimatrix-engine/src/graph.rs:744-784 | On a built graph the chain depth is the least number of pointer steps from a terminal entry back to the start. |
| `Supersession.DepthPastCap` | crates/unimatrix-engine/src/graph.rs:744-784 | For every cap there is a cycle-free table whose one terminal entry is found one hop beyond the cap. |
| `Supersession.GraphPenaltyWith` | crates/unimatrix-engine/src/graph.rs:559-632 | On a built graph, by the table alone: 1 for an unknown entry, the orphan penalty for a deprecated one that nothing supersedes, the dead-end penalty without an active replacement in range, the partial penalty for two or more direct replacements, and otherwise the clean-replacement penalty decayed per hop between 0.10 and itself; the fallback case is never reached. |
| `Supersession.ReplacedByIff` | crates/unimatrix-engine/src/graph.rs:396-422 | A chain of d replacements in the table is d pointers followed back. |
| `Supersession.DepthOnTable` | crates/unimatrix-engine/src/graph.rs:744-784 | On a built graph the chain depth is the length of the shortest replacement chain, and absent exactly when there is none in range. |
| `Supersession.HopPenaltyDecays` | crates/unimatrix-engine/src/graph.rs:608-628 | For non-negative ceilings and decay in [0,1] the hop penalty is non-increasing in depth, at most the ceiling, at least the floor or the ceiling below it. |
| `Supersession.HopPenaltyPerHop` | crates/unimatrix-engine/src/graph.rs:608-628 | One hop costs the clean-replacement penalty; each further hop multiplies it by the decay factor, down to the floor. |
| `Supersession.PenaltyMonotone` | crates/unimatrix-engine/src/graph.rs:600-628 | Among entries with one successor and an active replacement in range, a longer chain never gets a larger multiplier, within floor and ceiling. |
| `Prelude.SortDedup` | crates/unimatrix-engine/src/graph_expand.rs:156-157 | Sorting and deduplicating gives the strictly ascending sequence of the same elements. |
| `Expansion.SortedNeighbours` | crates/unimatrix-engine/src/graph_expand.rs:130-157 | The five queries of a node give, strictly ascending, exactly the ids it has an edge to under one of the five positive names. |
| `Expansion.EnqueueSeeds` | crates/unimatrix-engine/src/graph_expand.rs:103-109 | Queues the seeds that are graph nodes, in order, at depth 0. |
| `Expansion.AddNeighbours` | crates/unimatrix-engine/src/graph_expand.rs:167-185 | Admits unvisited neighbours in order until the cap is met, keeping result, visited set and queue in step. |
| `Expansion.GraphExpand` | crates/unimatrix-engine/src/graph_expand.rs:78-189 | Returns the first `max_candidates` nodes of the breadth-first order: every non-seed node within range once, by the position of its first predecessor among seeds and earlier nodes, and by id among the successors of one predecessor. |
| `SearchOrder.OrderUnique` | crates/unimatrix-engine/src/graph_expand.rs:111-186 | There is only one order of given nodes by first predecessor and id. |
| `Expansion.DiscoveryIsBreadthFirst` | crates/unimatrix-engine/src/graph_expand.rs:111-186 | The search finds nodes in that order. |
| `Expansion.FirstFoundUnique` | crates/unimatrix-engine/src/graph_expand.rs:47-75 | So the result is determined by graph, seeds, depth and cap. |
| `Expansion.SmallerIdFirst` | crates/unimatrix-engine/src/graph_expand.rs:153-178 | Of two nodes with one first predecessor, the larger id is never kept without the smaller. |
| `Expansion.OneHopKeepsSmallest` | crates/unimatrix-engine/src/graph_expand.rs:153-178 | One hop from one seed, every kept neighbour has a smaller id than every dropped one. |
| `Expansion.DiscoveryCorrect` | crates/unimatrix-engine/src/graph_expand.rs:111-186 | The search finds each node at its distance, near nodes first, and everything in range. |
| `Expansion.DiscoveryIsBall` | crates/unimatrix-engine/src/graph_expand.rs:47-55 | The discovery order lists exactly the non-seed nodes within `depth` positive hops of a seed, once each. |
| `Expansion.DiscoveryByDistance` | crates/unimatrix-engine/src/graph_expand.rs:111-186 | Nodes found earlier are no farther from the seeds. |
| `Expansion.ExpandedIsNearestBall` | crates/unimatrix-engine/src/graph_expand.rs:47-75 | The result is part of the ball, of size min(ball, cap), all of it when the cap does not bind, and no kept node is farther than a dropped one. |
| `Expansion.ExpandedNested` | crates/unimatrix-engine/src/graph_expand.rs:111-186 | A deeper run's discovery order extends a shallower run's; raising depth or cap never removes a returned node. |
| `Expansion.SeedOrderIrrelevant` | crates/unimatrix-engine/src/graph_expand.rs:103-109 | If the cap does not bind, the order and repetition of the seeds do not matter. |
| `Expansion.SeedOrderMatters` | crates/unimatrix-engine/src/graph_expand.rs:103-109 | If it binds they do: on one graph, seeds [2, 1] give {5} and seeds [1, 2] give {3}. |
| `PageRank.PositiveOutDegreeWeight` | crates/unimatrix-engine/src/graph_ppr.rs:191-215 | The five loops sum the weights of the positive outgoing edges. |
| `PageRank.ContributionIsShare` | crates/unimatrix-engine/src/graph_ppr.rs:159-179 | An edge contributes the target's score times the edge's share of the out-degree, early exit included. |
| `PageRank.SharesAreOne` | crates/unimatrix-engine/src/graph_ppr.rs:104-141 | The shares of a node with positive out-degree add up to 1. |
| `PageRank.NeighbourContribution` | crates/unimatrix-engine/src/graph_ppr.rs:104-141 | The five loops compute the average score of the targets: out-weight times result is the sum of weight times score over the edges with a positive name, and 0 without positive out-weight. |
| `PageRank.Round` | crates/unimatrix-engine/src/graph_ppr.rs:79-147 | One round gives every node its teleport share plus alpha times that average over the previous round. |
| `PageRank.PersonalizedPagerank` | crates/unimatrix-engine/src/graph_ppr.rs:48-150 | Returns the last of a run of score maps that starts with the seeds and takes exactly the given number of such rounds, or nothing for empty seeds or an empty graph. |
| `PageRank.PositiveEdgesAreOutLinks` | crates/unimatrix-engine/src/graph_ppr.rs:104-141 | The five queries together find each outgoing edge with a positive name exactly once. |
| `PageRank.AverageUnique` | crates/unimatrix-engine/src/graph_ppr.rs:104-141 | The weighted average is determined. |
| `PageRank.EqualSeedsStay` | crates/unimatrix-engine/src/graph_ppr.rs:72-149 | If every node has positive out-weight and every seed equals M, every score of every round equals M. |
| `PageRank.OneLink` | crates/unimatrix-engine/src/graph_ppr.rs:104-143 | A node with one positive edge has score (1 - alpha)·seed + alpha·(previous score of its target). |
| `PageRank.ScoresBounded` | crates/unimatrix-engine/src/graph_ppr.rs:72-149 | With non-negative weights on the edges it reads, alpha in [0,1] and seeds in [0,M], every score of every round lies in [0,M]. |
| `PageRank.RoundsContract` | crates/unimatrix-engine/src/graph_ppr.rs:78-147 | Rounds k and k+1 differ at every node by at most alpha^(k+1)·M. |
| `PageRank.FixedRoundError` | crates/unimatrix-engine/src/graph_ppr.rs:78-149 | (1 - alpha) times the distance between round k and any later round is at most alpha^(k+1)·M, so a fixed round count has an error bound. |
| `PageRank.FixedPointError` | crates/unimatrix-engine/src/graph_ppr.rs:78-149 | After k rounds the scores are within alpha^k times the initial distance of any score map that a round leaves unchanged. |
| `PageRank.FixedPointUnique` | crates/unimatrix-engine/src/graph_ppr.rs:78-149 | For alpha below 1 there is at most one such map. |
| `PageRank.PositiveScoreIsReach` | crates/unimatrix-engine/src/graph_ppr.rs:72-149 | For 0 < alpha < 1 and positive weights, a score after k rounds is positive exactly when a walk of at most k positive edges leads from the node to a positive seed. |
| `PageRank.ScoresLinear` | crates/unimatrix-engine/src/graph_ppr.rs:72-149 | The scores of a·s + b·t are a times those of s plus b times those of t, after any number of rounds. |
| `PageRank.RanksLinear` | crates/unimatrix-engine/src/graph_ppr.rs:54-149 | The same for the returned map, absent entries read as 0, early returns included. |
| `Suppression.FirstConflictIsLeast` | crates/unimatrix-engine/src/graph_suppression.rs:31-33 | The named contradictor is the highest-ranked one, and there is one exactly when some higher-ranked entry conflicts. |
| `Suppression.ContradictsNeighbours` | crates/unimatrix-engine/src/graph_suppression.rs:61-78 | Collects exactly the entries joined by a Contradicts edge in either direction. |
| `Suppression.SuppressBelow` | crates/unimatrix-engine/src/graph_suppression.rs:84-93 | The inner loop advances the mask by one rank in place, naming for each dropped entry the highest-ranked entry in conflict with it. |
| `Suppression.SuppressContradicts` | crates/unimatrix-engine/src/graph_suppression.rs:44-97 | Keeps an entry exactly when no higher-ranked one is joined to it by a Contradicts edge in either direction, and names exactly the highest-ranked such entry otherwise. |
| `Suppression.SuppressedByIff` | crates/unimatrix-engine/src/graph_suppression.rs:80-94 | A suppressed entry is blamed on the highest-ranked entry in conflict with it, and no entry without conflict is suppressed. |
| `Suppression.KeptAreConflictFree` | crates/unimatrix-engine/src/graph_suppression.rs:1-5 | Kept entries are pairwise free of conflicts. |
| `Suppression.PrefixVerdict` | crates/unimatrix-engine/src/graph_suppression.rs:52-94 | The verdict on a prefix of the ranking is the prefix of the verdict. |
| `Suppression.SameConflicts` | crates/unimatrix-engine/src/graph_suppression.rs:52-94 | The verdict depends only on which pairs conflict. |
| `Suppression.DirectionIrrelevant` | crates/unimatrix-engine/src/graph_suppression.rs:39-40 | Reversing any Contradicts edges one by one, duplicates included, changes nothing. |
| `NonInterference.IgnoredRows` | crates/unimatrix-engine/src/graph.rs:427-474 | Bootstrap-only, Supersedes, unknown-type and dangling rows leave no trace in the graph. |
| `NonInterference.PenaltyIgnoresRows` | crates/unimatrix-engine/src/graph.rs:577-606 | The penalty of an entry is the same for any two row lists. |
| `NonInterference.SearchIgnoresRows` | crates/unimatrix-engine/src/graph.rs:655-686 | The terminal search returns the same entry for any two row lists. |
| `NonInterference.ExpansionSeesPairs` | crates/unimatrix-engine/src/graph_expand.rs:123-157 | Expansion depends on the rows only through the set of positive pairs. |
| `NonInterference.ExpansionIgnoresOrder` | crates/unimatrix-engine/src/graph_expand.rs:153-157 | Expansion does not depend on adjacency order or on repeated edges. |
| `NonInterference.SuppressionSeesContradictions` | crates/unimatrix-engine/src/graph_suppression.rs:61-78 | Suppression depends on the rows only through the set of contradicting pairs. |
| `PageRank.ScoresSame` | crates/unimatrix-engine/src/graph_ppr.rs:72-149 | Scores depend on the graph only through its nodes and, at each node, the bag of (target, weight) links of its positive edges. |
| `NonInterference.PageRankSeesLinks` | crates/unimatrix-engine/src/graph_ppr.rs:104-141 | Over the rows: PageRank depends only on the bag of links they give each node, not on row order or on which of the five positive types a row has. |
| `NonInterference.PageRankIgnoresOtherRows` | crates/unimatrix-engine/src/graph_ppr.rs:104-141 | PageRank is unchanged by removing every rejected row and every row outside the five positive types. |
| `NonInterference.PageRankIgnoresOrder` | crates/unimatrix-engine/src/graph_ppr.rs:104-141 | PageRank does not depend on the adjacency order of the graph. |
| `Reservoir.TrainingReservoir.constructor` | crates/unimatrix-learn/src/reservoir.rs:22-29 | A new reservoir is empty and has seen nothing. |
| `Reservoir.TrainingReservoir.Add` | crates/unimatrix-learn/src/reservoir.rs:32-46 | Offers the items in turn, keeping the size at min(capacity, seen). |
| `Reservoir.TrainingReservoir.SampleBatch` | crates/unimatrix-learn/src/reservoir.rs:49-60 | A batch of min(batch size, held) items, each the held item at its draw. |
| `Reservoir.AddAppend` | crates/unimatrix-learn/src/reservoir.rs:32-46 | Adding two batches in turn is adding their concatenation. |
| `Reservoir.SampledSnoc` | crates/unimatrix-learn/src/reservoir.rs:38-44 | One more item at a full reservoir replaces the item at the drawn index if that index lies inside, and is dropped otherwise. |
| `Reservoir.AllDrawsAreLegal` | crates/unimatrix-learn/src/reservoir.rs:39-40 | The draw sequences that are counted are exactly those the generator can make. |
| `Reservoir.HeldDistinct` | crates/unimatrix-learn/src/reservoir.rs:32-46 | In every run min(capacity, n) positions are held, all distinct and all from the stream. |
| `Reservoir.SampledIsHeld` | crates/unimatrix-learn/src/reservoir.rs:32-46 | The reservoir holds the stream read at the held positions. |
| `Reservoir.Uniform` | crates/unimatrix-learn/src/reservoir.rs:32-46 | Over all draw sequences every stream position is held equally often: count · n = k · total. |
| `Reservoir.UniformSample` | crates/unimatrix-learn/src/reservoir.rs:1-4 | Over all draw sequences every set of k positions is the held set equally often, in exactly (n - k)! of them. |
| `Reservoir.DrawTotal` | crates/unimatrix-learn/src/reservoir.rs:36-45 | There are n! / k! draw sequences in all. |
| `QueueNames.BeforeIff` | crates/unimatrix-engine/src/event_queue.rs:225-242 | The exact order of two file names: a name no longer than the other comes first exactly when its stamp does not exceed the other stamp cut to the same number of digits. |
| `QueueNames.DecimalReadsBack` | crates/unimatrix-engine/src/event_queue.rs:198-205 | A file is named `pending-`, the stamp in decimal without leading zeros, `.jsonl`. |
| `QueueNames.OldestFirstIff` | crates/unimatrix-engine/src/event_queue.rs:225-242 | An older file is listed before a newer one exactly when its stamp does not exceed the leading digits of the newer stamp. |
| `QueueNames.EqualWidthOrder` | crates/unimatrix-engine/src/event_queue.rs:198-205 | Between stamps of equal width the name order is the time order. |
| `QueueNames.ListingChronologicalIff` | crates/unimatrix-engine/src/event_queue.rs:225-242 | A directory lists oldest first exactly when that holds of every two of its stamps. |
| `QueueNames.WidthMatters` | crates/unimatrix-engine/src/event_queue.rs:198-205 | It can fail: stamp 1000 lists before stamp 999. |
| `QueueNames.ListQueueFiles` | crates/unimatrix-engine/src/event_queue.rs:226-242 | Returns the one listing of the files in the order of their names. |
| `EventQueue.Queue.Prune` | crates/unimatrix-engine/src/event_queue.rs:139-173 | Removes exactly the files last modified more than 604800000 milliseconds ago, and leaves the others as they are. |
| `EventQueue.Queue.EnforceFileLimit` | crates/unimatrix-engine/src/event_queue.rs:209-223 | Removes the oldest files until one more fits under the limit. |
| `EventQueue.Queue.FindOrCreateTarget` | crates/unimatrix-engine/src/event_queue.rs:186-206 | Chooses the newest file if it has room, otherwise the current stamp. |
| `EventQueue.Queue.Enqueue` | crates/unimatrix-engine/src/event_queue.rs:52-78 | Prunes, enforces the limit, and appends one line to the chosen file. |
| `EventQueue.Queue.ReplayFile` | crates/unimatrix-engine/src/event_queue.rs:97-127 | Sends the well-formed lines of a file in order, skipping blank and malformed ones, and counts the accepted ones. |
| `EventQueue.Queue.Replay` | crates/unimatrix-engine/src/event_queue.rs:86-134 | Sends every well-formed line, oldest file first, returns the number of requests that were accepted, and empties the queue. |
| `EventQueue.LineAccount` | crates/unimatrix-engine/src/event_queue.rs:97-127 | Every non-blank line is accounted for once, as a request or as malformed. |
| `QueueRuns.PrunedFiles` | crates/unimatrix-engine/src/event_queue.rs:139-173 | In a run, age pruning removes the oldest files of the listing, each of them past the pruning age. |
| `QueueRuns.NextKeepsInv` | crates/unimatrix-engine/src/event_queue.rs:52-78 | Every enqueue keeps at most 10 files, all full but the newest, a tenth file holding one event, and leaves a suffix of what was there plus the new event. |
| `QueueRuns.EnqueueStep` | crates/unimatrix-engine/src/event_queue.rs:52-78 | On disk an enqueue acts as that step on the list of files. |
| `QueueRuns.NextDated` | crates/unimatrix-engine/src/event_queue.rs:52-78 | Every enqueue keeps each file dated by its last event. |
| `QueueRuns.NextJustified` | crates/unimatrix-engine/src/event_queue.rs:52-78 | An enqueue loses nothing, or leaves 8002 events, or loses only events past the pruning age. |
| `QueueRuns.QueueHoldsRecentEvents` | crates/unimatrix-engine/src/event_queue.rs:29-36 | After every such run the queue is a suffix of the history, in at most 10 files of at most 1000 events and at most 9001 events in all; every event among the latest 8002 and within the pruning age is there; and if no file was ever pruned by age, so are all of the latest min(n, 8002). |
| `QueueRuns.ReplayReadsRecentRequests` | crates/unimatrix-engine/src/event_queue.rs:80-134 | A replay after a run reads exactly those requests, oldest first. |
| `QueueRuns.EnqueueDropsStale` | crates/unimatrix-engine/src/event_queue.rs:52-62 | After any enqueue, whatever the clock did, no file is older than 604800000 milliseconds and there are at most 10 files. |
| `QueueRuns.StalledClockOverflows` | crates/unimatrix-engine/src/event_queue.rs:198-205 | If the newest file is full and the clock shows its stamp, the file exceeds its limit. |
| `QueueRuns.StalledRun` | crates/unimatrix-engine/src/event_queue.rs:186-206 | While the clock stands still, n enqueues from an empty directory leave one file of n lines, for every n. |
| `QueueRuns.FileLimitIff` | crates/unimatrix-engine/src/event_queue.rs:185-206 | An enqueue exceeds the per-file limit exactly when it rotates onto an existing full file. |
| `Registry.ModelRegistry.RegisterShadow` | crates/unimatrix-learn/src/registry.rs:109-128 | The shadow is the new version with the given numbers and no accuracy; the other two slots and all other models stay. |
| `Registry.ModelRegistry.Promote` | crates/unimatrix-learn/src/registry.rs:131-151 | Shadow becomes production and production previous, changing their tags only; fails exactly without a shadow or on a failed write; an error leaves the registry unchanged exactly when it is not a failed write. |
| `Registry.ModelRegistry.Rollback` | crates/unimatrix-learn/src/registry.rs:154-178 | Production becomes shadow and previous production, changing their tags only; the errors are told apart; an error leaves the registry unchanged exactly when it is neither a failed write nor the case of a previous version without production. |
| `Registry.ModelRegistry.UpdateAccuracy` | crates/unimatrix-learn/src/registry.rs:181-201 | The version in the named slot, if any, gets the accuracy; its other fields, the other slots and the other models stay. |
| `Registry.SlotsStayOk` | crates/unimatrix-learn/src/registry.rs:109-201 | Every operation keeps tags matching slots, previous implying production, and generations growing from previous through production to shadow. |
| `Registry.NextGenerationIsNewest` | crates/unimatrix-learn/src/service.rs:284-291 | The generation a trainer picks is newer than every stored version. |
| `Registry.FailureLeavesSlotsIff` | crates/unimatrix-learn/src/registry.rs:131-178 | A promotion that reports an error leaves the slots unchanged exactly when no shadow was found; a rollback, exactly when no previous version was found. |
| `Registry.RollbackUndoesPromote` | crates/unimatrix-learn/src/registry.rs:130-178 | Rolling a promotion back restores production and shadow exactly when there was a production version. |
| `Registry.RollbackStepsBackIff` | crates/unimatrix-learn/src/registry.rs:153-178 | A rollback steps the trainer's next number back exactly when it discards a waiting shadow; the next number is then one past the version rolled back, at most the discarded one. |
| `TrainingProtocol.StepKeepsLocks` | crates/unimatrix-learn/src/service.rs:122-182 | Every step keeps owned flags set and owners unique; only a failed thread creation strands a flag, and only a restart frees a stranded one. |
| `TrainingProtocol.RunsAreSafe` | crates/unimatrix-learn/src/service.rs:122-293 | In every interleaving of trainers, failed thread creations, promotions, rollbacks, ratings, failed writes and restarts, a flag is set exactly while one task owns it or after it was lost to a failed thread creation, never both; and all slots, in memory and on disk, stay in order. |
| `TrainingProtocol.MutualExclusion` | crates/unimatrix-learn/src/service.rs:120-134 | No two tasks ever train one model at once. |
| `TrainingProtocol.OwnStep` | crates/unimatrix-learn/src/service.rs:142-293 | Whatever step an owner takes, short of a failed thread creation, brings it closer to its end, where the flag is given back. |
| `TrainingProtocol.OthersStep` | crates/unimatrix-learn/src/service.rs:122-134 | No other task's step moves an owner or clears its flag. |
| `TrainingProtocol.OwnerCanMove` | crates/unimatrix-learn/src/service.rs:142-293 | An owner always has a step it can take other than losing its flag. |
| `TrainingProtocol.OwnerClearsFlag` | crates/unimatrix-learn/src/service.rs:17-24 | In every continuation, at most three steps of the owner, whichever they are and whatever is interleaved, clear the flag. |
| `TrainingProtocol.StuckIffLost` | crates/unimatrix-learn/src/service.rs:158-182 | A flag stays set in every restart-free continuation of a run exactly when thread creation failed for the task that held it. |
| `TrainingProtocol.FlagGetsStuck` | crates/unimatrix-learn/src/service.rs:126-182 | A two-step run after which a flag is stuck for ever, short of a restart. |
| `TrainingProtocol.RestartFrees` | crates/unimatrix-learn/src/service.rs:69-77 | A restart frees every flag. |
| `TrainingProtocol.FailuresChangeNothingIff` | crates/unimatrix-learn/src/registry.rs:131-178 | In every reachable state a promotion or rollback that reports an error leaves the state unchanged exactly when the error is a missing slot, not a failed write. |
| `TrainingProtocol.RollbackRestores` | crates/unimatrix-learn/src/registry.rs:130-178 | In every reachable state promote then rollback restores all slots in memory but the previous one, given a production version. |
| `Generations.NumbersDistinctIff` | crates/unimatrix-learn/src/service.rs:284-293 | Over every run, restarts and failed writes included, the generation numbers of a model are pairwise distinct exactly when no version is registered from slots that have forgotten a number; they are then 1, 2, 3, ... |
| `Generations.DistinctUnlessDiscarded` | crates/unimatrix-learn/src/registry.rs:153-178 | Without restarts: distinct exactly when no successful rollback taken with a shadow waiting is followed by a registration of that model. |
| `Generations.StepAgrees` | crates/unimatrix-learn/src/service.rs:284-293 | Every step keeps what is forgotten, in memory and in the registry file, visible in the next number. |
| `Generations.NumberComesBack` | crates/unimatrix-learn/src/service.rs:284-293 | A run in which the numbers handed out are 1, 2, 3, 3. |
| `Generations.FailedWriteMoves` | crates/unimatrix-learn/src/registry.rs:131-151 | A run after which a promotion reports a failed write and has moved the slots all the same. |
| `Lora.MicroLoRA.ForwardPass` | crates/unimatrix-adapt/src/lora.rs:69-90 | Adds to each input component, scaled, the sum over all inputs j and ranks k of input[j] · A[j,k] · B[k,i]. |
| `Lora.ZeroAdapterIsIdentity` | crates/unimatrix-adapt/src/lora.rs:69-90 | With B all zero the adapter returns its input. |
| `Lora.MicroLoRA.Backward` | crates/unimatrix-adapt/src/lora.rs:95-114 | Returns outer(x, scale · B · g) and scale · outer(Aᵀ x, g), entry by entry; the next two rows say what they mean. |
| `Lora.GradAIsDerivative` | crates/unimatrix-adapt/src/lora.rs:92-114 | For every perturbation of A, the loss gradient paired with the change of the output equals the returned gradient paired with the perturbation. |
| `Lora.GradBIsDerivative` | crates/unimatrix-adapt/src/lora.rs:92-114 | The same for every perturbation of B. |
| `Lora.MicroLoRA.UpdateWeights` | crates/unimatrix-adapt/src/lora.rs:120-140 | Moves each weight against its gradient at its own learning rate. |
| `Lora.MicroLoRA.ParametersFlat` | crates/unimatrix-adapt/src/lora.rs:145-153 | Returns A then B, each read row by row. |
| `Lora.FlatLayout` | crates/unimatrix-adapt/src/lora.rs:142-153 | A[j,k] sits at j·r + k and B[k,j] at d·r + k·d + j, in a vector of 2·d·r entries. |
| `AdapterTraining.AddInto` | crates/unimatrix-adapt/src/training.rs:233-246 | One loop adds component i to row i / columns, column i % columns, in place, if that row exists. |
| `AdapterTraining.AddEwcGradient` | crates/unimatrix-adapt/src/training.rs:225-247 | Read back in the flat layout, every component has been added to the parameter it belongs to, and surplus components are ignored. |
| `Ewc.EwcState.constructor` | crates/unimatrix-learn/src/ewc.rs:25-33 | A new state has zero Fisher, zero reference, and is not initialised. |
| `Ewc.EwcState.Update` | crates/unimatrix-learn/src/ewc.rs:62-80 | Takes over the squared, flattened gradients as the first Fisher diagonal, afterwards blends them entry by entry with weight alpha, and the parameters likewise. |
| `Ewc.EwcState.UpdateFromFlat` | crates/unimatrix-learn/src/ewc.rs:85-98 | Takes over the first batch, afterwards blends Fisher diagonal and reference entry by entry with weight alpha. |
| `Ewc.PenaltyExpansion` | crates/unimatrix-learn/src/ewc.rs:36-55 | penalty(θ+h) = penalty(θ) + gradient·h + (λ/2)·ΣF·h², exactly. |
| `Ewc.PenaltyAroundReference` | crates/unimatrix-learn/src/ewc.rs:36-55 | A displacement h from the reference costs (λ/2)·ΣF·h² and has gradient λ·F·h. |
| `Ewc.NoPenaltyAtReference` | crates/unimatrix-learn/src/ewc.rs:36-55 | At the reference the penalty and its gradient vanish. |
| `Ewc.NoPenaltyBeforeUpdate` | crates/unimatrix-learn/src/ewc.rs:37-50 | Before the first update the penalty is 0 and the gradient has one zero per parameter. |
| `Ewc.FisherStaysNonNegative` | crates/unimatrix-learn/src/ewc.rs:57-98 | Along every run with alpha in [0,1] the Fisher diagonal stays non-negative and the sizes stay put. |
| `Ewc.ExponentialAverage` | crates/unimatrix-learn/src/ewc.rs:57-98 | After n updates both the Fisher diagonal and the reference are alpha^n times their start plus (1 - alpha) times what came in, each vector faded by alpha once per later update. |
| `Ewc.PenaltyNonNegative` | crates/unimatrix-learn/src/ewc.rs:36-44 | With non-negative Fisher and lambda the penalty is never negative. |
| `Ewc.RestoredSamePenalty` | crates/unimatrix-learn/src/ewc.rs:106-120 | Saving and restoring preserves penalty and gradient everywhere. |
| `Ewc.RestoredIff` | crates/unimatrix-learn/src/ewc.rs:106-120 | Saving and restoring gives back the same state exactly unless it was updated and its Fisher diagonal is all zero. |
| `Ewc.RestartUnnoticedIff` | crates/unimatrix-learn/src/ewc.rs:85-120 | A restart changes no later vector, exactly unless the state was updated, has an all-zero Fisher diagonal over some parameter, and alpha is not 0; it changes no later state, `is_initialized` included, exactly unless the state was updated and that diagonal is all zero. |
| `Framing.HeaderRoundTrip` | crates/unimatrix-engine/src/wire.rs:436-457 | Reading the 4-byte big-endian header gives back the length. |
| `Framing.WriteFrame` | crates/unimatrix-engine/src/wire.rs:424-441 | Appends the length as four bytes, most significant first, and the payload; or rejects a payload over 1048576 bytes and writes nothing. |
| `Framing.ReadFrame` | crates/unimatrix-engine/src/wire.rs:447-479 | Reads the length from the first four bytes, most significant first, and consumes that many; tells apart a stream ending in the header, an empty payload, an oversized one, and a stream ending in the payload. |
| `Framing.ParseFrame` | crates/unimatrix-engine/src/wire.rs:447-479 | Reading a written frame gives back its payload and leaves whatever follows. |
| `Framing.ParseCut` | crates/unimatrix-engine/src/wire.rs:449-476 | A frame cut at any byte reads as the end of the stream, in the header or in the payload. |
| `Framing.RoundTripIff` | crates/unimatrix-engine/src/wire.rs:424-467 | A payload survives writing and reading exactly when its length is between 1 byte and 1 MiB. |
| `Framing.WholeFramesIsLargest` | crates/unimatrix-engine/src/wire.rs:420-441 | The count of whole frames is the largest number of leading frames that fit in the bytes kept. |
| `Framing.CutStream` | crates/unimatrix-engine/src/wire.rs:443-479 | A stream cut at any byte reads as exactly the frames it wholly contains, then the end of the stream. |
| `Framing.StreamRoundTrip` | crates/unimatrix-engine/src/wire.rs:420-479 | A complete stream reads back as the payloads that were written. |

## Left out

- DfsActiveReachable: complete on forests only; where an entry had two predecessors, a node first met beyond the cap would not be looked at again. Construction never yields such a graph.
- FindTerminalActive: complete on forests only, for the same reason.
- GraphPenaltyWith: the result is stated on forests, which is every graph that construction returns.
- UpdateWeights: the guard that skips an update whose new weights are NaN or infinite is not represented, because the model works over the reals.
- Update: once a state is initialised its vectors keep their lengths; ndarray's broadcasting of one-element vectors is not represented.
- UpdateFromFlat: the same.
- FixedPointError: a fixed point of the PageRank rounds is taken as given; that one exists is a matter of limits and is not stated.
- IEEE rounding, NaN and infinity: the trainer's NaN check is represented only by its outcome, a discarded model.
- Integer widths: ids, stamps, generations and counters are unbounded; only the 32-bit frame length is modelled with its width.
- Duplicate entry ids: construction is modelled for a keyed table.
- Edge metadata (creator, creation time, source): carried by the code, read by no traversal.
- Logging, I/O failures other than a failed write or an unreadable registry file, and files in the queue directory that are not queue files.
- Several clock readings within one enqueue: modelled as one reading.
- Model bytes on disk: `promote` and `rollback` move metadata only, and nothing is claimed about the slot files.
- Neural models, the InfoNCE loss, softmax, scoring formulas with logarithms or exponentials, and cosine similarity.
- The default parameters of `graph_penalty`, enum string round trips, configuration defaults, prototypes and pair generation: they would only add easy members.
- JSON encoding of requests and responses, sockets, timeouts, SQL storage, vector indexes, async wrappers, ONNX inference, authentication, scripts and bindings.
