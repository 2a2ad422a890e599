# Verified model of Ragamuffin's graph, retrieval and maintenance core

Dafny models of the parts of Ragamuffin whose correctness is not visible from reading one function, with proofs of what
they keep over every input, run or interleaving. `dafny verify dfyconfig.toml` checks all of it.

The project follows the program: what the source changes in place is a class or a method over arrays, proved to compute a
function of its inputs, and the theorems are lemmas about that function.

- **Community detection** (`internal/graph/community.go`). `WeightedGraph` has graphs as values and modularity scaled to an
  integer: with weights that are integers, `Modularity` is `m2 * m2 * Q`, and the gain that the code compares is `Score`
  divided by `m2`. `LocalMoving` has one pass, `Aggregation` the dense labels and block sums, `Hierarchy` the collapsed
  graph and all levels. `LouvainGraphs`, `LouvainPass`, `LouvainLevels` and `Communities` are the mutable code, down to the
  order of comparisons, and refine those functions: whatever order the maps are ranged over, `Louvain` computes
  `LouvainLabels`. `Sums` is the arithmetic underneath.
- **The bi-temporal edge store** (`internal/graph/store.go`, `extractor.go`). `GraphStore` has the table of edges, `as_of`
  queries and whole runs of writes; `EntityNames` and `Entities` have names, relation types and the entity table, `Ingestion`
  and `IngestedTables` what the extraction of a text writes, and `GraphWriter` the store as a class; `Lex` and `Timestamps`
  say why comparing stored timestamps as text is comparing instants (section 5.1 of RFC 3339).
- **The SSE broker** (`internal/events/broker.go`). `Broker` is a step machine in which every lock, map and channel
  operation is one step, in every interleaving of publishers, subscribers and receivers.
- **The link graph** (`internal/logstore/links.go`) in `LinkGraphs`; **the embedded point store and the pruner's page loop**
  (`internal/embeddedstore/store.go`, `internal/pruner/pruner.go`) in `EmbeddedStore` and `Pruner`; **versioned keys**
  (`internal/pruner/supersede.go`) in `Supersede`; **the cooldown table** (`internal/extraction/cooldown.go`) in `Cooldown`;
  **the chunker** (`internal/chunker/chunker.go`) in `Chunker`, with `Words` for words and `Utf8` for the byte-wise cut.

## Where a claim fails or needs a condition

The model follows the code. Below are claims of the documentation that fail as stated, expectations that hold only under a
condition, and a branch that is never taken. The lemmas named give an input, or say exactly when the claim holds.

- "Local moving until no node move improves modularity" (`community.go:97`) holds at every node without a self-loop
  (`PassIsLocallyOptimal`, and `NoLoopNothingMissed` for any labelling), and not in general: staying is credited with the
  self-loop, and `SelfLoopCreditHidesMove` is a graph in which the pass moves nothing although a move raises modularity.
  `MissedMoveIff` says exactly when a node's improving move is passed over. That a move must score above 0 hides nothing
  unless `deg(u)^2 < 2 * m2 * selfLoop(u)` (`ThresholdHidesNothing`). With `m2` below `10^12`
  no accepted move lowers modularity (`MoveImproves`).
- "At level 1 selfLoop is always 0" (`community.go:125`) fails exactly for entities that some edge joins to themselves
  (`GraphLoops`). All other entities end the first pass with no move that would raise modularity (`FirstPassIsOptimal`).
- The tolerance `1e-12` (`community.go:144`) is a strict comparison of gains if and only if `m2` is below `10^12`
  (`ToleranceIsStrict`). At `m2 = 10^12` it already costs modularity: `ToleranceCostsModularity` is a graph whose first sweep
  moves a node to a community that is worse for it. Detection stays far below: `Edges` answers the requested limit of 100000
  with 100 rows (`SeenEdges`).
- "Repeats until Q stops improving" (`community.go:18-20`): when the levels stop, joining two communities can still raise
  modularity, but by no more than `m2` times the weight inside either of them, so not at all when one has none
  (`LouvainStops`; `SelfLoopCreditHidesMove` is such a graph at its first level).
- The exit `k == cur.n` (`community.go:88`) is never taken: a pass that reports an improvement leaves fewer communities
  than nodes (`PassShrinks`).
- Normalised valid-time bounds "sort lexicographically" (`store.go:161-164`) unless conversion to UTC takes one into the year
  10000: that one sorts between the years 1000 and 1001 (`TextOrderIsTimeOrder`, an exact statement for all instants that
  conversion can give). A bound that does not parse is stored as it is.
- "An `as_of` query in the transition window returns exactly one edge" (`store.go:254-258`). From the new edge's valid_from
  on, exactly one edge of the key covers an instant if and only if the new edge is valid then and no row that was
  invalidated earlier still covers it, or the new edge is over and exactly one such row does (`ExactlyOneCoversIff`; the
  first case alone in `OnlyNewEdgeCovers`). `InvalidateEdge` leaves such rows (`HandInvalidationOverlaps`), and an explicit
  valid_until leaves no edge after it (`ExpiredEdgeLeavesNone`). Over every run in which the assertions of a key supersede
  and go forward in valid time there is at most one (`ForwardRunNeverOverlaps`), and exactly one if they are open
  (`ForwardRunIsSingleValued`), which ingestion is.
- "Newer relations of the same (source, target, type) invalidate prior ones" (`extractor.go:51-52`): the target plays no
  part. A relation to another target supersedes just the same (`NewTargetSupersedes`), also within one text.
- Following `next` in the embedded scroll visits everything unless the page size is the largest 32-bit number and the
  32-bit count of rows wraps (`ScrollVisitsEveryPoint`, an if and only if; `WidestPageWraps`; `WidestPageMissesOne` is a
  store of `2^32 + 1` points).
- "Returns all facts" (`pruner.go:348`): the page loop returns all matching facts if and only if no full page but the last
  ends in a numeric id (`PageLoopCompleteIff`). With numeric ids only it stops after the first page (`NumericStoreStops`); a
  store of 201 such points gives 200 (`NumericIdsStopEarly`).
- Parsing a versioned key undoes printing if and only if the version is below `2^63` (`ParseUndoesPrintIff`); version
  `2^64 + 1` reads as 1 (`VersionWraps`).
- A text that comes to the hard split of `enforceMaxTokens` is split in finitely many steps if and only if the limit is not
  one token (`HardSplitEndsIff`); with that limit the stride is 0, and two words are enough to go round for ever
  (`TwoWordsNeverEnd`). `EnforceMaxTokens` and `ChunkFile` require, chunk by chunk, that this is not the case, and nothing else.
- "Marks lower versions as superseded if a higher version exists" (`supersede.go:120-121`) fails for a fact with a numeric id,
  whose update goes to the empty UUID (`NumericIdStaysActive`), and for a refused update. `ExactlyHighestStayActive` says
  exactly which facts stay active.
- "Publish never attempts a send on a closed channel" (`broker.go:34-37`) holds for callers that follow the documented order
  (`NeverSendsToClosed`), and in any run in which no subscribed channel is closed (`CleanRunNeverPanics`). Otherwise, in every
  reachable state, a Publish that takes the lock while a subscribed channel is closed can never return, and its own next
  steps panic (`ClosedSubscriberStopsPublish`; `EarlyClosePanics` is such a run).

## Model

| member | source | states |
|---|---|---|
| WeightedGraph.MoveChangesModularity | internal/graph/community.go:138-154 | moving a node from its community to any other changes modularity by exactly twice the difference of the two scores, in every graph and for every labelling |
| WeightedGraph.ModularityBounded | internal/graph/community.go:18-20 | Q never exceeds 1, which bounds how often it can rise |
| WeightedGraph.SameKernelSameModularity | internal/graph/community.go:163-178 | renaming communities leaves modularity alone |
| WeightedGraph.InseparableIsConnected | internal/graph/community.go:214-217 | nodes that no colouring of connected components separates are joined by a walk along edges |
| WeightedGraph.WalkKeepsColour | internal/graph/community.go:214-217 | the converse: a walk never leaves a connected component |
| LocalMoving.ChoiceIsBest | internal/graph/community.go:128-148 | a community is the choice for a node exactly when it is the smallest of highest positive score, staying credited with the self-loop, or the current one when no score is positive |
| LocalMoving.ChoiceAmongLinked | internal/graph/community.go:117-148 | the smallest label with the best positive score among the neighbouring communities and the current one is the choice among all communities, so looking only at neighbours, in any map order, loses nothing |
| LocalMoving.MoveFollowsEdge | internal/graph/community.go:119-134 | a node only moves to a community that already holds a neighbour of it |
| LocalMoving.MoveScores | internal/graph/community.go:126-147 | an accepted move scores above 0 and at least as high as staying, with the self-loop credit and so without it; on a tie the label drops |
| LocalMoving.MoveImproves | internal/graph/community.go:143-154 | an accepted move raises true modularity, or keeps it and lowers the node's label |
| LocalMoving.SweepImproves | internal/graph/community.go:112-155 | a sweep changes nothing, or raises modularity, or keeps it and lowers the sum of the labels |
| LocalMoving.SweepChooses | internal/graph/community.go:112-155 | a sweep gives each node the choice it has when the nodes before it have moved and those behind it have not |
| LocalMoving.SweepProgresses | internal/graph/community.go:110-159 | why the sweeps end: the pair of modularity, which is bounded, and label sum moves strictly in one direction |
| LocalMoving.PassFrom | internal/graph/community.go:110-159 | sweeping from any labelling ends, in one that a further sweep does not change |
| LocalMoving.PassIsSweeps | internal/graph/community.go:110-159 | a pass is one sweep after the other, up to the first that changes nothing |
| LocalMoving.PassImproves | internal/graph/community.go:109-160 | a whole pass changes nothing, or raises modularity, or keeps it with smaller labels |
| LocalMoving.PassIsLocallyOptimal | internal/graph/community.go:97-160 | when a pass ends no community scores above max(0, staying) for any node, a move would raise modularity exactly when its true score exceeds that of staying, and no move of a node without a self-loop would |
| LocalMoving.ScoresAddUp | internal/graph/community.go:138-144 | over all communities a node's scores add up to the square of its degree less twice m2 times its self-loop, in any labelling |
| LocalMoving.NoLoopNothingMissed | internal/graph/community.go:117-148 | in any labelling, a node without a self-loop that is kept has no move that would raise modularity |
| LocalMoving.ThresholdHidesNothing | internal/graph/community.go:129-144 | unless the self-loop outweighs the degree, the best move that would raise modularity scores above 0, so that only the credit can hide it |
| LocalMoving.MissedMoveIff | internal/graph/community.go:126-148 | when the best move of a node would raise modularity, it is passed over if and only if its score is not positive or does not beat the self-loop credit |
| LocalMoving.SelfLoopCreditHidesMove | internal/graph/community.go:97-160 | a graph of two nodes where the pass moves nothing although joining them would raise modularity |
| LocalMoving.FirstMove | internal/graph/community.go:119-156 | the first move of a pass empties its own community for the rest of the sweep and strictly raises modularity |
| LocalMoving.PassThatMoves | internal/graph/community.go:109-160 | a pass that moves anything strictly raises modularity and leaves some label without members |
| LocalMoving.PassKeepsColour | internal/graph/community.go:117-152 | a pass never puts nodes of different connected components together |
| LouvainPass.ExceedsByTolerance | internal/graph/community.go:143-144 | the test on gains exceeds the tolerance exactly when the integer scores differ by more than m2 / 10^12 |
| LouvainPass.ToleranceIsStrict | internal/graph/community.go:144 | the test agrees with strict comparison on all scores if and only if m2 is below 10^12 |
| LouvainPass.GainIsScore | internal/graph/community.go:143 | the gain as computed is the score divided by m2 |
| LouvainPass.SortIntsSorts | internal/graph/community.go:136 | sorted, with the same elements |
| LouvainPass.NeighbourWeights | internal/graph/community.go:118-121 | the map holds the weight from the node to each neighbouring community, whatever order the neighbours come in |
| LouvainPass.BestCommunity | internal/graph/community.go:117-148 | with totals that leave the node out, the loop over sorted candidates takes what a scan of all labels with the tolerance takes, for any m2; below 10^12 that is the choice |
| LouvainPass.TakenIsChoice | internal/graph/community.go:128-148 | with m2 below 10^12, comparing with the tolerance takes the choice |
| LouvainPass.ToleranceCostsModularity | internal/graph/community.go:109-155 | a graph with m2 exactly 10^12 whose first sweep, from singletons, takes a node to a community that is worse for modularity |
| LouvainPass.MoveNode | internal/graph/community.go:112-155 | for any m2, one iteration puts the node where the scan says, reports whether it moved, and keeps each community's total the sum of its members' degrees |
| LouvainPass.SweepNodes | internal/graph/community.go:111-155 | for any m2, the loop over nodes does this node by node and reports whether any label changed; below 10^12 it computes the sweep |
| LouvainPass.LouvainOnePass | internal/graph/community.go:98-161 | terminates with the labels of the pass, and reports an improvement exactly when they are not all singletons |
| LouvainPass.NoWeightNoMoves | internal/graph/community.go:105-107 | without edges a pass would move nothing, so the early return changes no result |
| Aggregation.DenseIsRenumbering | internal/graph/community.go:163-178 | dense labels have the same communities, use exactly 0 to k-1 in order of first appearance, and k is the number of different labels |
| Aggregation.RenumberingUnique | internal/graph/community.go:163-178 | there is only one renumbering of that kind |
| Aggregation.DenseIsCanonical | internal/graph/community.go:163-178 | labellings that group the same nodes get the same dense labels |
| Aggregation.UnusedLabelShrinks | internal/graph/community.go:76-90 | when some label below n has no node, fewer than n communities are left |
| Aggregation.SumByBlocks | internal/graph/community.go:187-212 | summing over pairs of communities counts every pair of nodes once |
| Aggregation.TogetherByBlocks | internal/graph/community.go:187-212 | grouping communities by q sums what grouping nodes by q after p sums |
| Aggregation.BlocksOfBlocks | internal/graph/community.go:187-212 | collapsing twice sums what collapsing by the composition sums |
| LouvainLevels.DenseLabels | internal/graph/community.go:164-178 | the loop over the remap table computes the dense labels |
| LouvainLevels.FoldSelfLoops | internal/graph/community.go:204-210 | after the fold, degrees are row sums and m2 their total, each self-loop counted once; links and self-loops stay |
| LouvainLevels.AggregateLink | internal/graph/community.go:192-201 | a link seen from its smaller end goes to the self-loop or the edge between the two communities; seen from the other end it changes nothing |
| LouvainLevels.AggregateNode | internal/graph/community.go:189-203 | the self-loop and all links of a node are collapsed, in any order of its neighbours |
| LouvainLevels.Aggregate | internal/graph/community.go:187-212 | the new graph is the collapse of the old one |
| LouvainLevels.AllCollapsed | internal/graph/community.go:180-212 | with every link counted once and self-loops folded once, the graph built is the collapse, degrees and m2 included |
| LouvainGraphs.WithEdgeAdjacency | internal/graph/community.go:42-54 | an added edge adds its weight at both ends of the adjacency matrix, twice on the diagonal, and nowhere else |
| LouvainGraphs.WithEdgeWellFormed | internal/graph/community.go:42-54 | adding any edge keeps weights symmetric, degrees row sums and m2 the total degree |
| LouvainGraphs.LouvainGraph.constructor | internal/graph/community.go:34-40 | a graph without edges |
| LouvainGraphs.LouvainGraph.AddEdge | internal/graph/community.go:42-54 | the fields after the call are the value of the graph with the edge added |
| Hierarchy.CollapsedAdjacency | internal/graph/community.go:180-203 | the weight between two super-nodes is the sum over pairs of members; an inner edge goes once into the self-loop |
| Hierarchy.CollapsedDegrees | internal/graph/community.go:180-212 | the degree of a super-node is its row sum and the sum of its members' degrees, and m2 is conserved |
| Hierarchy.CollapsedBond | internal/graph/community.go:187-212 | what two super-nodes add to modularity is what their members add |
| Hierarchy.CollapsePreservesModularity | internal/graph/community.go:187-212 | for every partition of the super-nodes, modularity in the collapsed graph is modularity of the induced partition in the graph |
| Hierarchy.ModularityByCommunity | internal/graph/community.go:18-20 | Newman's form: modularity is the sum over the communities of m2 times the weight inside one less the square of its degrees |
| Hierarchy.PassShrinks | internal/graph/community.go:70-93 | a pass that moves anything leaves strictly fewer communities than nodes, so the levels end and the exit on k == n is never taken |
| Hierarchy.LouvainImproves | internal/graph/community.go:56-95 | over all levels, modularity of the result is at least that of all singletons, and strictly higher when any node moved |
| Hierarchy.JoiningChangesModularity | internal/graph/community.go:18-20 | joining two communities changes modularity by twice the bond between them |
| Hierarchy.CollapsedBlocks | internal/graph/community.go:187-212 | bonds and weights between communities of the collapsed graph are those between the communities of nodes that they stand for |
| Hierarchy.LouvainStops | internal/graph/community.go:18-20 | for any two final communities, joining them raises modularity by at most m2 times the weight inside either |
| Hierarchy.LouvainKeepsColour | internal/graph/community.go:56-95 | through any number of levels, communities stay inside connected components |
| Hierarchy.CommunitiesAreConnected | internal/graph/community.go:56-95 | nodes with the same final label are joined by a walk along edges of the input graph |
| Hierarchy.IsolatedNodeStaysAlone | internal/graph/community.go:214-217 | a node without links to others shares its final label with no one |
| Communities.Regroup | internal/graph/community.go:78-82 | the lists of original nodes partition them as the composed labels do |
| Communities.WriteLabels | internal/graph/community.go:83-87 | writing community by community gives every original node its community's index |
| Communities.Louvain | internal/graph/community.go:57-95 | the loop over levels terminates with the labels of the recursive definition |
| Communities.GraphCounts | internal/graph/community.go:241-249 | between two entities the weight is the number of rows that join them in either direction, a self-loop is the number of rows on one entity, and m2 is twice the number of rows whose ends are both entities |
| Communities.CountsDetermine | internal/graph/community.go:42-54 | these counts leave no other graph, neighbour maps, degrees and total included |
| Communities.GraphLinks | internal/graph/community.go:241-249 | two different entities are linked exactly when some edge row joins them, in either direction |
| Communities.GraphLoops | internal/graph/community.go:241-249 | an entity has a self-loop at the first level exactly when some edge row joins it to itself |
| Communities.FirstPassIsOptimal | internal/graph/community.go:97-160 | after the first pass no move of an entity that no edge joins to itself would raise modularity |
| Communities.BuildGraph | internal/graph/community.go:231-249 | the graph has those counts: one unit of weight for each row between known entities, however many join the same two |
| Communities.CommunitiesPartition | internal/graph/community.go:251-268 | no community is empty, each entity is in one, two entities share one exactly when their labels agree, and the sizes add up to the number of entities |
| Communities.MembersInOrder | internal/graph/community.go:254-258 | the members of a community are in the order of the entities |
| Communities.BySizeOrders | internal/graph/community.go:270-275 | for every pair: larger before smaller, equal sizes by the id of the first member |
| Communities.OrderIsUnique | internal/graph/community.go:270-275 | communities with different first members have only one such order |
| Communities.DetectionIsReproducible | internal/graph/community.go:20-23 | however the communities are sorted by that order, the list is the same |
| Communities.DetectCommunities | internal/graph/community.go:219-281 | with the edges the store answers as at most 100 rows of the vault, latest first, and the graph that counts them, the communities are those of Louvain, each once, larger before smaller and equal sizes by the id of the first member |
| Communities.CommunityIsConnected | internal/graph/community.go:214-281 | entities in one community are connected through the edges seen |
| Communities.IsolatedEntityIsSingleton | internal/graph/community.go:214-217 | an entity that no edge joins to another forms a community of its own |
| GraphStore.SelectAre | internal/graph/store.go:329-355 | each matching row is selected as often as it is in the table, and no other |
| GraphStore.LatestFirstSorts | internal/graph/store.go:361-363 | ordering keeps the rows and puts later valid_from first |
| GraphStore.AnswerAnswers | internal/graph/store.go:324-391 | an answer holds rows of the vault with the type, entity and instant asked for only, latest first, up to the limit, which is 100 when none or more than 1000 is asked for; short of that, all of them; what the limit leaves out is no later than what it lets in |
| GraphStore.AssertedColumns | internal/graph/store.go:234-281 | column by column: a superseding assertion closes the live rows with its vault, source and type, no later than it begins itself, and changes no other row; the new row has the columns given, bounds in UTC when they can be read, from now when it does not say from when; nothing changes on an empty or taken id |
| GraphStore.SupersedingCloses | internal/graph/store.go:253-270 | for every instant, a superseding assertion takes away exactly the live rows of its key, from its valid_from on |
| GraphStore.OneWriteKeepsPast | internal/graph/store.go:234-296 | one write of either kind, with either flag, changes no answer as of an instant before what it asserts |
| GraphStore.PastIsFrozen | internal/graph/store.go:234-296 | no run of writes that assert later facts changes an earlier as_of answer: same edges, same order, same cut at the limit, in any state of the table |
| GraphStore.AssertExtendsChain | internal/graph/store.go:253-281 | a superseding, open assertion that is not backdated ends the last interval of its key where its own begins, and leaves other keys |
| GraphStore.ForwardRunKeepsChain | internal/graph/store.go:226-281 | over a run of such assertions the intervals of every key stay adjoining and disjoint |
| GraphStore.ChainCoversOnce | internal/graph/store.go:254-258 | then exactly one row of the key covers each instant from the first valid_from on |
| GraphStore.ForwardRunNeverOverlaps | internal/graph/store.go:226-281 | from an empty table, over any run in which a key's assertions supersede and never go back, with explicit ends and whatever happens to other keys, the key has at most one edge at every instant and exactly one live row |
| GraphStore.ForwardRunIsSingleValued | internal/graph/store.go:226-281 | without explicit ends it has exactly one edge at every instant from its first valid_from on |
| GraphStore.CoversAfterAssert | internal/graph/store.go:253-281 | in any table, what covers an instant after an assertion is the new edge while it is valid and the rows invalidated before that still did |
| GraphStore.OnlyNewEdgeCovers | internal/graph/store.go:254-270 | in any table, the new edge covers an instant and is the only one of its key to do so if and only if it is valid then and no row invalidated before still covers it |
| GraphStore.ExactlyOneCoversIff | internal/graph/store.go:254-270 | exactly one edge of the key covers the instant if and only if that holds, or the new edge is over and exactly one row invalidated before covers it |
| GraphStore.ExpiredEdgeLeavesNone | internal/graph/store.go:234-281 | an edge asserted with an explicit end leaves no edge after it |
| GraphStore.NewTargetSupersedes | internal/graph/extractor.go:51-52 | a superseding assertion takes away the live edge of its source and type whatever the target of either |
| GraphStore.HandInvalidationOverlaps | internal/graph/store.go:283-296 | assert, invalidate by hand, assert again: two rows of one key cover the same instant |
| Timestamps.TextOrderIsTimeOrder | internal/graph/store.go:161-174 | two normalised timestamps compare as text as their instants compare in time, and the other way round exactly when one is in the year 10000 and the other in a year from 1001 to 9999 |
| Timestamps.CoversInTime | internal/graph/store.go:234-351 | an edge stored with readable bounds, whatever their offsets, answers as of exactly the instants from the one to before the other |
| Entities.UpsertDeduplicates | internal/graph/store.go:176-224 | an upsert keeps ids unique and names unique up to case within vault and kind, renames and removes nothing, and answers the id of the row that carries the name |
| Entities.UpsertIsIdempotent | internal/graph/store.go:176-224 | upserting the name again in any case adds no row and answers the same id |
| Entities.UpsertColumns | internal/graph/store.go:178-224 | column by column: an upsert appends a row with both times now, or finds the row of that vault, kind and name and changes its summary and time only, unless the summary is empty; it fails exactly on an empty id or a new name under a taken id |
| EntityNames.SameLettersIff | internal/graph/store.go:195-197 | names are equal for the lookup exactly when they are, letter by letter, the same or the two cases of one letter |
| EntityNames.KindIsCanonical | internal/graph/extractor.go:159-170 | every kind becomes one of four, and each of the four stays |
| EntityNames.KindSynonyms | internal/graph/extractor.go:159-170 | the synonyms of a kind meet in it, in any case and with any space around them, and nothing else does |
| EntityNames.RelTypeIsClean | internal/graph/extractor.go:172-184 | a relation type that is left has small letters, digits and inner underscores only |
| EntityNames.RelTypeKeepsClean | internal/graph/extractor.go:172-184 | a type that is so already stays as it is |
| EntityNames.RelTypeOfChar | internal/graph/extractor.go:172-184 | between clean texts a space or hyphen becomes an underscore, a capital its small letter, and what is not allowed goes |
| GraphWriter.Store.AddEdge | internal/graph/store.go:234-281 | what AssertedColumns says: live rows that agree in vault, source and type are closed now and end no later than the new row begins, every other row is the same as before, and the row added has the columns given; an empty or taken id changes nothing |
| GraphWriter.Store.InvalidateEdge | internal/graph/store.go:284-296 | the live row of that id is invalidated now and every other row stays; fails exactly when there is none |
| GraphWriter.Store.Edges | internal/graph/store.go:328-391 | answers the query as AnswerAnswers says, each matching row at most as often as it is in the table |
| GraphWriter.Store.UpsertEntity | internal/graph/store.go:178-224 | what UpsertColumns says, error cases included |
| Ingestion.ResolveDenotes | internal/graph/extractor.go:75-95 | resolving keeps entities deduplicated and every earlier one, and each name maps to the id of an entity of that name in the vault |
| IngestedTables.ResolveFinds | internal/graph/extractor.go:75-95 | with fresh ids every name that is not blank is resolved, to an entity of the vault with that name and the last kind given with it; earlier rows stay as they are, new ones have fresh ids, and the count is the number of names that are not blank |
| GraphWriter.Store.ResolveNames | internal/graph/extractor.go:75-95 | both of these for the table after the call |
| GraphWriter.Store.AssertRelation | internal/graph/extractor.go:97-116 | when both names are known, a type is left and the id is unused, the row added runs from the entity of the source name to that of the target name, with the type and fact of the relation, from now on, and it closes the live rows of its source and type; else nothing changes |
| IngestedTables.IngestedRows | internal/graph/extractor.go:97-117 | the rows added are, in the order of the text, those of exactly the relations whose names are both known, with a type left and an id neither taken nor used by an earlier one; each runs from source to target; old rows keep all but their end and invalidation |
| IngestedTables.IngestionSupersedes | internal/graph/extractor.go:103-111 | after a text a row is live exactly when it was, or is new, and no new row behind it has its vault, source and type |
| GraphWriter.Store.AssertRelations | internal/graph/extractor.go:97-117 | the table has gained the rows that IngestedRows says, in that order, with the liveness that IngestionSupersedes says; the count is their number |
| Ingestion.IngestedEdgesJoinEntities | internal/graph/extractor.go:75-119 | every edge that ingestion writes joins two entities, and the ends of earlier edges stay |
| GraphWriter.Store.IngestText | internal/graph/extractor.go:75-119 | for some map from names to ids, each the id of an entity of that name and with fresh ids complete: the edges gained are a row from the entity of the source to that of the target for each relation that asks for one, in order, and the counts are those of names and rows; entities stay deduplicated and no edge with an unknown end is written |
| Ingestion.AssertionsRunForward | internal/graph/extractor.go:97-117 | under a clock that never goes back, what ingestion asserts is a forward run within the clock's readings |
| Ingestion.IngestionKeepsChain | internal/graph/extractor.go:51-119 | so every ingestion keeps every relation single-valued and leaves the table ready for the next |
| Broker.StepKeepsLockInv | internal/events/broker.go:25-57 | every step keeps one writer or any readers, and the map holding exactly the channels added and not yet removed |
| Broker.StepKeepsSendInv | internal/events/broker.go:32-57 | every step of disciplined callers keeps a picked channel in the map and a closed one out of it |
| Broker.StepKeepsDelivery | internal/events/broker.go:44-57 | every step keeps sent events unrepeated, received in order, and buffers within capacity |
| Broker.SendDelivers | internal/events/broker.go:50-56 | in any state, a send to an open channel puts the event at the end of its buffer when there is room and else drops it; every other channel and the map stay |
| Broker.DroppedOnlyWhenFull | internal/events/broker.go:50-56 | over any run an event is dropped for a channel only by a step that offered it at a full buffer |
| Broker.NeverSendsToClosed | internal/events/broker.go:32-57 | in every interleaving of callers that close only after Unsubscribe returned, no send reaches a closed channel, no event enters a channel twice, no buffer overflows |
| Broker.PublishReachesAll | internal/events/broker.go:44-57 | when Publish is about to return, each subscriber was sent the event or had no room |
| Broker.PublishDeliversToRoomy | internal/events/broker.go:44-57 | while no more events were published than a subscriber has room for, whatever it has received: when Publish is about to return, the event was sent to it |
| Broker.ClosedSubscriberStopsPublish | internal/events/broker.go:32-57 | in every reachable state, whatever callers do: a Publish that takes the read lock while a subscribed channel is closed never becomes able to return, in any continuation, and within three of its own steps panics |
| Broker.CleanRunNeverPanics | internal/events/broker.go:32-57 | in any run in which no subscribed channel is closed, nothing panics |
| Broker.EarlyClosePanics | internal/events/broker.go:32-57 | a run in which a caller closes its channel while subscribed and Publish panics |
| LinkGraphs.WithinIsWalk | internal/logstore/links.go:170-172 | being within k hops is being at the end of a walk of at most k links from the seed |
| LinkGraphs.EachRowOnce | internal/logstore/links.go:198-242 | following different sources yields every visible row out of them exactly once |
| LinkGraphs.EdgesPerRow | internal/logstore/links.go:213-224 | following a set of paths gives, for each source, target and kind, as many edges as visible rows have them |
| LinkGraphs.Expand | internal/logstore/links.go:213-237 | an edge per row in order, a node per target not seen before, whose kind is that of the first edge leading to it |
| LinkGraphs.ExpandHop | internal/logstore/links.go:195-243 | one hop adds the edges and targets of the current layer; the next layer is the nodes gained |
| LinkGraphs.Traverse | internal/logstore/links.go:190-244 | for any depth: the nodes are exactly the paths within that many hops, each once, nearest first; from a to b with a kind there are as many edges as visible rows with this source, target and kind when a is within one hop less, and else none; edges follow the order of their sources |
| LinkGraphs.EdgesJoinNodes | internal/logstore/links.go:220-224 | every edge joins two of the nodes |
| LinkGraphs.MaxDepth | internal/logstore/links.go:173-181 | at most 5, the depth asked for when that is positive and smaller |
| LinkGraphs.GetLinkGraph | internal/logstore/links.go:172-253 | all of this for the depth and vault asked for |
| EmbeddedStore.DecodeUndoesEncode | internal/embeddedstore/store.go:574-601 | decoding undoes encoding for every UUID and every 64-bit number |
| EmbeddedStore.PutStores | internal/embeddedstore/store.go:168-176 | writing a row keeps key order, stores it over a row of the same key, and leaves all others |
| EmbeddedStore.Store.Upsert | internal/embeddedstore/store.go:160-225 | of each key the last point is stored, with its payload, and rows of other keys stay; or nothing changes when a point has no id |
| EmbeddedStore.SelectedAre | internal/embeddedstore/store.go:389-434 | the rows selected are those behind the key whose payload has the value of each keyword and text condition, a missing field having none, in key order |
| EmbeddedStore.SelectedFrom | internal/embeddedstore/store.go:350-355 | selecting from the key of a selected row gives exactly what followed it |
| EmbeddedStore.Store.Scroll | internal/embeddedstore/store.go:337-386 | the first points behind the cursor in key order, 100 by default, each with its id and payload, and the id of the last when there are more; or the error of the first row that does not decode |
| EmbeddedStore.NextIsBehindPage | internal/embeddedstore/store.go:380-384 | the cursor leads to the rows right behind the page |
| EmbeddedStore.ScrollVisitsEveryPoint | internal/embeddedstore/store.go:337-386 | following the cursor from the start visits every point with a non-empty key once, in key order, and stops, if and only if the page size is below 2^32 - 1 or there are at most 2^32 points |
| EmbeddedStore.WidestPageWraps | internal/embeddedstore/store.go:381-384 | with the largest page size the 32-bit count wraps and no next page is announced |
| EmbeddedStore.WidestPageMissesOne | internal/embeddedstore/store.go:380-384 | a store of 2^32 + 1 points of which following the cursor with the largest page size visits 2^32 |
| EmbeddedStore.Store.ScrollFiltered | internal/embeddedstore/store.go:389-434 | the first points behind the offset whose payloads pass the filter, up to the limit when it is positive, each with its id and payload; a row that does not match is not decoded |
| Pruner.ScrollAllFilteredFacts | internal/pruner/pruner.go:382-403 | the loop terminates with the points of the matching rows in key order: all of them, or those up to the first full page whose last row has a numeric id |
| Pruner.PageLoopCompleteIff | internal/pruner/pruner.go:387-401 | it returns all matching points if and only if no full page but the last ends in a numeric id |
| Pruner.UuidStoreIsCollectedWhole | internal/pruner/pruner.go:348-403 | in particular whenever all ids are UUIDs |
| Pruner.NumericStoreStops | internal/pruner/pruner.go:382-403 | with numeric ids only, the loop stops after the first page |
| Pruner.NumericIdsStopEarly | internal/pruner/pruner.go:348-370 | a store of 201 points with numeric ids, of which the loop returns 200 |
| Supersede.SplitUndoesJoin | internal/pruner/supersede.go:224-248 | splitting a key at slashes undoes joining its segments |
| Supersede.JoinUndoesSplit | internal/pruner/supersede.go:224-248 | joining undoes splitting and no segment has a slash, so there is no other way to split |
| Supersede.VersionNamed | internal/pruner/supersede.go:229-249 | a segment is a version exactly when it is a v and then digits only whose value, taken into 64 bits, is at least 1; that is its version |
| Supersede.AccumulatedIsWrapped | internal/pruner/supersede.go:242-245 | wrapping at every digit gives the value wrapped once |
| Supersede.ParseVersionedKey | internal/pruner/supersede.go:223-254 | the last segment that is a v and digits with a value of at least 1 in 64 bits, and what precedes it; version 0 and no prefix when none is |
| Supersede.ParseUndoesPrintIff | internal/pruner/supersede.go:215-254 | for versions from 1 on, parsing undoes printing if and only if the version is below 2^63 |
| Supersede.VersionWraps | internal/pruner/supersede.go:242-249 | version 2^64 + 1 reads as version 1 |
| Supersede.GroupFacts | internal/pruner/supersede.go:157-176 | each prefix maps to its active versioned facts, in scan order |
| Supersede.Facts.SupersedeGroup | internal/pruner/supersede.go:188-206 | marks exactly the facts of the group below its highest version, but for updates the store refuses |
| Supersede.Facts.SupersedeKeyPattern | internal/pruner/supersede.go:125-213 | when ids differ, the facts with status superseded afterwards are, besides those before, exactly the active facts with a key that a higher version of the same prefix is active beside, that have a UUID and are not refused; nothing else changes, whatever order the groups come in |
| Supersede.HighestIsActive | internal/pruner/supersede.go:188-206 | every prefix group keeps a fact of at least each member's version that nothing outdates |
| Supersede.MarkedAre | internal/pruner/supersede.go:183-206 | exactly the outdated facts with a UUID whose update is not refused are marked |
| Supersede.ExactlyHighestStayActive | internal/pruner/supersede.go:120-213 | after the scan, whatever the store refused, exactly the facts of the highest version of their prefix, the refused and those with a numeric id are still active |
| Supersede.NumericIdStaysActive | internal/pruner/supersede.go:168-206 | two versions of a fact under numeric ids, of which the lower one is outdated and stays active |
| Supersede.ScanIsIdempotent | internal/pruner/supersede.go:120-213 | a second scan changes nothing, even when the store refused updates |
| Cooldown.CooldownTracker.TryAcquire | internal/extraction/cooldown.go:25-51 | a granted call is remembered at its time; of the other entries exactly those older than twice a positive interval go, and none changes |
| Cooldown.CooldownTracker.ResetCooldown | internal/extraction/cooldown.go:54-58 | forgets the session and no other |
| Cooldown.LazyRefinesFull | internal/extraction/cooldown.go:23-51 | a table that lacks only entries long run out answers every run as the full one does |
| Cooldown.EvictionIsInvisible | internal/extraction/cooldown.go:23-58 | over any run under a forward clock, every verdict is that of a table that never evicts |
| Cooldown.RefusedIff | internal/extraction/cooldown.go:23-58 | over any run under a forward clock a call is refused if and only if an earlier call of its session was granted less than the interval before, with no reset of it in between |
| Cooldown.LazyGrantsAreSpaced | internal/extraction/cooldown.go:8-51 | two grants to a session without a reset in between are at least the interval apart |
| Utf8.ValidIffEncoded | internal/chunker/chunker.go:69-79 | text is valid exactly when it is the encoding (section 3 of RFC 3629) of a sequence of code points, none of them a surrogate |
| Utf8.BoundaryIffNoTail | internal/chunker/chunker.go:69-79 | in valid UTF-8 (section 4 of RFC 3629) a position is between characters exactly when the byte there is no tail byte |
| Utf8.ValidPrefixIffBoundary | internal/chunker/chunker.go:71-79 | a prefix of valid text is valid exactly when it ends between characters |
| Utf8.SanitizeUTF8 | internal/chunker/chunker.go:71-79 | the longest valid prefix of any bytes |
| Utf8.CutIsClean | internal/chunker/chunker.go:48-79 | for valid text the cut is valid, ends between characters, and is the whole paragraph or all but at most three of 200 bytes |
| Utf8.ExtractFirstParagraph | internal/chunker/chunker.go:52-67 | the text up to the blank line, or the longest valid prefix of its first 200 bytes |
| Words.SplitKeepsWords | internal/chunker/chunker.go:82-123 | splitting at whitespace separators loses no word |
| Words.FieldsUndoJoin | internal/chunker/chunker.go:244-253 | splitting joined words gives the words |
| Words.JoinUndoesSplit | internal/chunker/chunker.go:82-123 | joining undoes splitting, and the separator is in no part |
| Words.TrimSpaceCuts | internal/chunker/chunker.go:97-123 | trimming cuts space off both ends and stops at anything else |
| Chunker.SplitSentences | internal/chunker/chunker.go:268-286 | each sentence ends with a period, behind which the text goes on with a space or newline and the next; there is no such period inside a sentence, and nothing else is lost |
| Chunker.SentencesCut | internal/chunker/chunker.go:267-286 | the same for the sentences the limit is enforced on |
| Chunker.SentencesKeepWords | internal/chunker/chunker.go:267-286 | cutting at sentences loses no word |
| Chunker.Pack | internal/chunker/chunker.go:154-194 | each chunk joins the next stretch of pieces and together they use all; words and numbering are kept; a chunk is a single piece or at most one over the limit; a new one starts only where the limit forces it |
| Chunker.HardSplit | internal/chunker/chunker.go:243-264 | all words in order, maxTokens * 10 / 13 in each chunk but the last, consecutive numbers |
| Chunker.HardSplitEndsIff | internal/chunker/chunker.go:243-264 | a text that needs the hard split comes to its end after some number of chunks if and only if the limit is not one token |
| Chunker.TwoWordsNeverEnd | internal/chunker/chunker.go:245-248 | a text of two words that needs it with a limit of one token, where the split never leaves the first word |
| Chunker.EnforceMaxTokens | internal/chunker/chunker.go:146-265 | the chunk itself within the limit, else split at paragraphs, else at sentences, else between words; no word lost or moved, numbers run on from the chunk's own |
| Chunker.OneSectionPerHeading | internal/chunker/chunker.go:105-116 | one section before the first heading and one per line that starts with one to three hashes and a space, in order, each under its own |
| Chunker.SectionsAreTheFile | internal/chunker/chunker.go:105-116 | the sections one after the other are the file, with a newline behind it |
| Chunker.SectionsKeepWords | internal/chunker/chunker.go:105-116 | cutting at headings loses no word |
| Chunker.SectionsAreChunked | internal/chunker/chunker.go:81-119 | the chunks of a Markdown file hold its words in order, are numbered from 0 and trimmed, and each starts with the heading it carries |
| Chunker.ParagraphsKeepWords | internal/chunker/chunker.go:121-144 | the chunks of any other file hold its words in order, are numbered from 0 and trimmed, and carry no heading |
| Chunker.ChunkMarkdown | internal/chunker/chunker.go:81-119 | a chunk for each section that is not blank |
| Chunker.ChunkPlain | internal/chunker/chunker.go:121-144 | a chunk for each paragraph that is not blank |
| Chunker.ChunkFile | internal/chunker/chunker.go:29-46 | the chunks of the file, each as it is or split to fit; the words of the output are those of the file, whichever splits the limit forces |

## Left out

- LouvainPass.LouvainOnePass: requires m2 below 10^12, which is exactly where the tolerance is a strict comparison (ToleranceIsStrict). At 10^12 a move can already lower modularity (ToleranceCostsModularity), and whether the sweeps end from there on is not known; one sweep is modelled for any m2. Detection always stays below.
- Communities.Louvain: requires m2 below 10^12 for the same reason.
- Chunker.EnforceMaxTokens: requires that with a limit of one token the hard split is not reached, where the source does not terminate.
- Chunker.ChunkFile: requires that with a limit of one token no chunk reaches the hard split, where the source does not terminate.
- Communities.BuildGraph: takes the entity ids as given and different from each other, as a primary key is.
- Communities.DetectCommunities: takes the entity ids in the same way, and leaves persistence out.
- GraphStore.ForwardRunIsSingleValued: keeps the runs to superseding, open assertions of the key with valid_from never going back; ForwardRunNeverOverlaps allows explicit ends. Backdating and invalidation by hand make overlaps reachable (HandInvalidationOverlaps).
- Broker.NeverSendsToClosed: one caller per channel, and safety only; who gets the lock next, and so progress, is not modelled.
- Supersede.Facts.SupersedeKeyPattern: the scan sees all facts at once; that a page loop may stop early is in Pruner.
- Floating point: weights are natural numbers, which is what detection adds and aggregation sums; gains and the tolerance are real numbers, so rounding is not modelled. The token estimate is 13 n / 10 rounded down.
- SQL, JSON, protobuf, HTTP and LLM calls: a table is a sequence of rows, a failed insert leaves it unchanged, and I/O errors other than the ones modelled are not raised.
- Clocks and fresh ids are parameters; RFC 3339 parsing is a parameter of AddEdge, and Timestamps covers the format it produces.
- GraphWriter.Store.IngestText: starts from the parsed extraction; a call without a model, with a blank text, or with an answer that does not parse, writes nothing and is left out.
- Which of several rows with equal valid_from comes first is not promised by the query; the model answers them in insertion order.
- Lower-casing in the entity store and extractor is that of ASCII text, as SQLite's LOWER is.
- Community ids, persistence and summaries; whether the edges seen are all edges (the store cuts them at 100).
- UpdatedAt and LinksTo of chunks, and link extraction; FirstParagraph is modelled on bytes in Utf8, apart from the chunks. Numbers are consecutive within one split only: a split chunk may reuse the number of the next.
- Vectors, search, counting and the other payload types of the embedded store; sign and space handling when a numeric id not written by the store is scanned.
- Counters of flagged facts, updated_at, superseded_by and logging in the pruner; cross-reference supersession, which depends on which of several facts with a key a scroll returns first.
- Decay, importance, PCA and similarity scores: real analysis with little structure. Auth, configuration, MCP, git providers and the log store's list pages: plumbing, or easy members.
