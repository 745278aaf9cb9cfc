# A verified model of the agent observability SDK

The SDK collects spans from running agents, serves a trace as a tree, and keeps several running accounts about
what it has seen. This project models that logic in Dafny and proves what it promises, for every input, every
reachable state or every interleaving.

**The trace-tree pipeline.** A flat list of spans becomes a tree (`TreeBuilder`, `BuilderFacts`). Compression
replaces large error-free branches by summary leaves (`Compression`, `CompressionFacts`), late summaries are filled
in, and embedding folds small groups of leaves into events of their parent, from which they can be expanded again
(`Embedding`). `TreesInPlace` is the same pipeline on mutable tree nodes, pass by pass, proved against the functions
on tree values. The summary worker recovers a replaced subtree from the flat list by another algorithm
(`SummaryWorker`). `Pipeline` proves the end-to-end account: every input span is found exactly once in what the
endpoint serves.

**Accounting machines.** Each keeps an incremental structure that must agree with its whole history: the sliding
error window (`ErrorRate`), per-trace totals over interleaved traces (`TraceAggregation`) and the sampling decision
that relies on them (`TailSampler`), the micro-span aggregator (`SpanAggregator`), the compliance catalog with
overlapping flushes (`ComplianceCatalog`), the spend tracker and its budget verdict (`CostAttribution`), and the
exporter's bounded queue of pending batches (`LangfuseExporter`). `StepCounts` joins the aggregator and the per-trace
totals. Where the code gives up control at an `await`, the
protocol is a state machine whose steps are the stretches of code in between.

**Arithmetic and text.** Identifiers in Crockford base 32 against their hexadecimal form in the OTLP payload
(`IdCodec`), masking by right-to-left splicing against simultaneous substitution (`Masking`), and the smoothed
divergence score of the drift detector (`Drift`).

`Basics`, `Sequences`, `Spans` and `TraceTree` hold what the others share.

## Reading of the data

- Times are integer microseconds, money and scores are exact reals. An ISO 8601 string is represented by the time it
  renders, since formatting and parsing are taken to be inverse.
- Attribute values are null, text, numbers and flags.
- The clock, random draws, hash values, the answers of circuit breakers, the outcome of HTTP attempts, the contents of
  stores, the lengths of rendered records, Python's reading of text as a number, `round(x, 8)` and the natural logarithm
  are inputs.
- A tree is fresh when no span has the compressed type, no node below the root is flagged compressed or marked as a
  virtual root, and the stored ratio is 0. The builder returns fresh trees (`Pipeline.BuiltIsFresh`).

## Where the code differs from its own description

- `embed` calls itself idempotent. One pass folds one level, and a second pass can fold the parent:
  `Pipeline.EmbedNotIdempotent` gives four spans whose built tree shows it, and `Embedding.EmbedIdempotentIff` says for
  which trees it does hold: no node below the root has few children that are all leaves or foldable without being
  foldable itself.
- The stored compression ratio is `(N-1)/N` for a tree of `N` nodes whatever was replaced, because `count_nodes` looks
  at the root only (`CompressionFacts.ClosedForm`). It is the share of nodes no longer kept exactly when every child of
  the root is replaced (`CompressionFacts.RatioIsShare`); `Pipeline.RatioNotShare` gives a list of two spans where it is
  not.
- A blank parent id means "no parent" to the root search but is still matched against blank ids when children are
  collected, so that a span is root and child at once. `BuilderFacts.BlankLinkDoubles` gives a list,
  `BuilderFacts.BlankLinkBuiltTwice` shows that any finished construction then holds that span twice, and
  `BuilderFacts.OnceIffNoBlankLinks` that every span is built once exactly without such links.
- The expanded children equal the embedded ones only under the conditions of `Embedding.RestoredIsChild`; a child's own
  events and its end time are not carried into its event. The dictionary form loses embedded children exactly when an
  embedded event repeats the name and timestamp of an earlier event (`Embedding.DictPathAgrees`), that is, when two
  children share name and start time or one shares them with an event of the parent (`Embedding.FoldThenExpandDict`).
- The comparison of the root's span with a tree node that is meant to spare the root from compression is always false.
  It has no effect, because only children are considered.
- A micro-span that does not complete an aggregate is put into the ring buffer on its own as well as into the
  aggregator, so it is offered twice. Over whole runs, `SpanAggregator.OfferedOnceOrTwice` says exactly which spans are
  offered once.
- A root of a new trace that meets a full table is not stamped. `TailSampler.RunStampsExactly` says so, and
  `TailSampler.RunKeepsBadTraces` shows that the sampler still keeps it if it is erroneous.
- Masking sorts matches by their start only. Matches that start at the same place are replaced in the order given: the
  later one is written in front, and what is left of the earlier one's mask stays in the text
  (`Masking.SameStartSplices`, `Masking.LastAloneIff`, `Masking.OrderMatters`). The order given makes no difference
  exactly when different matches start at different places (`Masking.OrderIrrelevantIff`).
- `steps.count` on a root counts what was offered to the ring for its trace, aggregates included, and not spans
  (`StepCounts.StepsAreOffers`); in a run of one trace it is one too many exactly when the last micro-span before the
  root did not complete an aggregate (`StepCounts.StepsOfOneTrace`).
- The branch of the error rate for an empty window and the fallback of the original node count are never reached.

## Model

| member | source | states |
|---|---|---|
| `Sequences.SortPermutes` | agent_obs/tree_compressor.py:855 | sorting by a key returns a permutation of its input |
| `Sequences.SortOrdered` | agent_obs/tree_compressor.py:855 | the result is ordered by the key |
| `Sequences.SortStable` | agent_obs/tree_compressor.py:855 | elements with equal keys keep their input order, as `sorted` and `list.sort` promise, also with `reverse=True` |
| `Spans.MarksMean` | agent_obs/tree_compressor.py:227-230 | what marks an error, a summary and a virtual root |
| `Spans.TruthyMeans` | agent_obs/tree_compressor.py:598 | what counts as true |
| `Spans.TypeNames` | agent_obs/observability.py:225-230 | the type names of the wire format |
| `Spans.DecimalReads` | agent_obs/tree_compressor.py:116 | the decimal number in a name reads as the number |
| `Spans.ContainsMeans` | agent_obs/tree_compressor.py:389 | the substring test of the count search holds exactly when the text occurs at some place |
| `TreeMetrics.IterDfs` | agent_obs/tree_compressor.py:47-54 | the explicit stack yields exactly the recursive pre-order, parents first and left to right |
| `TreeMetrics.IterBfs` | agent_obs/tree_compressor.py:56-64 | the queue yields the tree level by level |
| `TreeMetrics.TraversalsAgree` | agent_obs/tree_compressor.py:47-64 | both traversals visit the same nodes, each as often as it occurs in the tree |
| `TreeMetrics.MetricsDfs` | agent_obs/tree_compressor.py:675-692 | the recursion extends its shared state by the counts of the subtree it is called for |
| `TreeMetrics.ComputeTreeMetrics` | agent_obs/tree_compressor.py:664-702 | the four figures are the deepest level and the numbers of spans, leaves and error leaves, virtual roots not counted |
| `TreeMetrics.DeepestOfBuilt` | agent_obs/tree_compressor.py:664-702 | for a built tree the depth is one more than the largest number of parent hops from a listed span to its root, and is reached |
| `TreeMetrics.BuiltSpanCount` | agent_obs/tree_compressor.py:664-702 | for a built tree the span count is the number of listed spans, whether or not a virtual root was made |
| `TreeBuilder.FindDuplicate` | agent_obs/tree_compressor.py:791-796 | reports an id exactly when some id occurs twice, and that id does |
| `TreeBuilder.FindCandidates` | agent_obs/tree_compressor.py:800-806 | collects the spans with no parent, a blank parent or an unlisted parent, in list order |
| `TreeBuilder.MarkReachable` | agent_obs/tree_compressor.py:812-827 | everything newly marked leads up to a root and all children of it are marked too |
| `TreeBuilder.Reachable` | agent_obs/tree_compressor.py:808-831 | the marked ids are exactly those of spans whose parent pointers lead to a root |
| `TreeBuilder.GroundedIffAcyclic` | agent_obs/tree_compressor.py:808-836 | every span leads to a root if and only if no walk along parent pointers closes |
| `TreeBuilder.ClimbFindsCycle` | agent_obs/tree_compressor.py:833-836 | climbing from an unmarked span runs into a cycle, so the error raised there is justified |
| `TreeBuilder.Build` | agent_obs/tree_compressor.py:776-908 | succeeds exactly for non-empty lists with distinct ids and no cycle, raises the matching error otherwise with exactly the unreachable ids, and returns the tree of the reference construction |
| `BuilderFacts.ForestHoldsEachSpanOnce` | agent_obs/tree_compressor.py:838-866 | the trees of the root candidates hold each listed span exactly once and nothing else |
| `BuilderFacts.TreeHoldsEachSpanOnce` | agent_obs/tree_compressor.py:776-908 | the built tree holds each listed span exactly once, plus the virtual root when one is made |
| `BuilderFacts.EdgesArePointers` | agent_obs/tree_compressor.py:841-856 | below the virtual root the tree has an edge exactly where a parent pointer names a listed span |
| `BuilderFacts.SiblingsSorted` | agent_obs/tree_compressor.py:854-856 | siblings below a listed span come latest first |
| `BuilderFacts.SiblingsStable` | agent_obs/tree_compressor.py:854-856 | siblings with equal start times keep their list order |
| `BuilderFacts.OwnRootCondition` | agent_obs/tree_compressor.py:868-870 | no virtual root is made exactly when the list has one parentless span and that is an `agent.loop` |
| `BuilderFacts.RolesExclusive` | agent_obs/tree_compressor.py:803-806 | being a root and being a child exclude each other exactly when no parent pointer names a blank id |
| `BuilderFacts.BlankLinkDoubles` | agent_obs/tree_compressor.py:803-845 | a list with distinct ids and no cycle in which one span is both |
| `BuilderFacts.BlankLinkBuiltTwice` | agent_obs/tree_compressor.py:803-866 | whatever forest a list with a blank link is turned into, the span that points to the blank id is in it at least twice |
| `BuilderFacts.OnceIffNoBlankLinks` | agent_obs/tree_compressor.py:803-866 | for lists that pass the checks for duplicates and cycles, the construction can finish with every span built once exactly when no parent pointer names a blank id |
| `BuilderFacts.TreeIdsDistinct` | agent_obs/tree_compressor.py:868-908 | node ids of the built tree are distinct when the virtual root's id is fresh |
| `TreeBuilder.VirtualRootMeans` | agent_obs/tree_compressor.py:877-898 | the virtual root stands in the context of the first span, has no parent, carries the mark, and starts with the earliest span |
| `BuilderFacts.RootsInOrder` | agent_obs/tree_compressor.py:803-866 | the root trees come in list order |
| `BuilderFacts.SubtreesAreBuilt` | agent_obs/tree_compressor.py:841-856 | every subtree of a built tree is the tree built for its own span |
| `Compression.CombineChildren` | agent_obs/tree_compressor.py:152-160 | a finished node's figures are the size and error flag of its whole subtree |
| `Compression.ComputeSubtreeMetrics` | agent_obs/tree_compressor.py:124-165 | the explicit-stack traversal gives every node the size and the error flag of its subtree, and fills the maps in post-order |
| `Compression.MarkDescendants` | agent_obs/tree_compressor.py:190-199 | flags exactly the nodes of one subtree and takes back no flag |
| `Compression.PropagateBranch` | agent_obs/tree_compressor.py:181-202 | after the two nested searches every node of a branch carries the flag of the whole branch, and nothing outside the branch has changed |
| `Compression.PropagateErrors` | agent_obs/tree_compressor.py:168-204 | a node under a child of the root is flagged exactly when some span anywhere in that branch is erroneous |
| `Compression.TotalCost` | agent_obs/tree_compressor.py:259-268 | the explicit stack sums `cost.usd` and `cost.usd_sum` over the whole subtree |
| `Compression.RebuildChild` | agent_obs/tree_compressor.py:249-296 | the rebuild driven by the two maps makes of a branch what its sizes and its error flag prescribe, and asks for one job per replaced subtree |
| `Compression.RebuildRoot` | agent_obs/tree_compressor.py:249-299 | the same for all branches under the root, each by its own error flag |
| `Compression.FindOriginalCount` | agent_obs/tree_compressor.py:386-398 | the search finds the first node in finishing order whose id is taken for the root's; the fallback is not needed |
| `Compression.PlanCompression` | agent_obs/tree_compressor.py:372-408 | metrics, propagation, rebuild and ratio together depend on the input tree alone, in the stated way |
| `CompressionFacts.RebuildKeeps` | agent_obs/tree_compressor.py:249-296 | a branch with an error or within the limit goes through unchanged |
| `CompressionFacts.SettledForm` | agent_obs/tree_compressor.py:363-422 | also on trees compressed before, exactly the oversized error-free children of the root are replaced |
| `CompressionFacts.ClosedForm` | agent_obs/tree_compressor.py:363-422 | closed form on fresh trees: exactly those children of the root are replaced whose branch has more spans than the limit and no erroneous one, every other branch is unchanged up to the ratio, the root is flagged exactly when something was replaced, the ratio is `(N-1)/N` |
| `CompressionFacts.RatioIsShare` | agent_obs/tree_compressor.py:400-408 | the stored ratio is the share of nodes no longer kept exactly when every child of the root is replaced |
| `Pipeline.ChainRatioWrong` | agent_obs/tree_compressor.py:400-408 | for every two linked plain spans headed by an `agent.loop` and a limit of at least 1, nothing is replaced and the stored ratio is 1/2 |
| `Pipeline.RatioNotShare` | agent_obs/tree_compressor.py:400-408 | such a list, whose built tree has a stored ratio of 1/2 with no node gone |
| `CompressionFacts.CountIsSize` | agent_obs/tree_compressor.py:386-391 | the original count is the size of the tree when ids are distinct and no other id looks like a virtual root's |
| `CompressionFacts.CountIsSizeIff` | agent_obs/tree_compressor.py:386-391 | with distinct ids the search finds the size of the tree exactly when no node below a virtual root has an id containing "virtual_root" |
| `CompressionFacts.CompressIdempotent` | agent_obs/tree_compressor.py:381-383 | compressing the result again changes neither structure nor flags nor ratio and asks for no summary |
| `CompressionFacts.RatioStable` | agent_obs/tree_compressor.py:381-408 | the second pass keeps the ratio, also for a single node where it is recomputed |
| `CompressionFacts.ErrorSpansSurvive` | agent_obs/tree_compressor.py:168-321 | every erroneous span of any tree is still a node after compression |
| `CompressionFacts.ReplacedHaveNoErrors` | agent_obs/tree_compressor.py:227-246 | every replaced subtree is error-free, over the limit and part of the input |
| `CompressionFacts.SummaryIsTrue` | agent_obs/tree_compressor.py:82-121 | the counts, error count, cost, id, parent and start time on a summary are those of the replaced subtree |
| `CompressionFacts.SummaryMeans` | agent_obs/tree_compressor.py:82-121 | a summary has the whole context of the replaced root but the tenant, its start, the name with the decimal number of replaced spans, and exactly the six attributes with their true values |
| `CompressionFacts.SummaryNodesMean` | agent_obs/tree_compressor.py:253-278 | every summary in the result on a fresh tree is a leaf and the summary of one child of the root that was over the limit |
| `CompressionFacts.SpanCostMeans` | agent_obs/tree_compressor.py:265-267 | the two costs of a span are added, a missing one is 0 |
| `CompressionFacts.CostIsSum` | agent_obs/tree_compressor.py:259-268 | the cost of a tree is the sum over its nodes |
| `CompressionFacts.ReplacedCovers` | agent_obs/tree_compressor.py:227-294 | in any tree, a node without marks that is over the limit, in a branch without errors, lies in a replaced subtree |
| `CompressionFacts.ReplacedUnmarked` | agent_obs/tree_compressor.py:227-246 | in any tree, a replaced subtree is over the limit and error-free, and its root is no summary, not flagged compressed and no virtual root |
| `CompressionFacts.JobsName` | agent_obs/tree_compressor.py:281-285 | a job names the trace, the root and the agent of the replaced subtree, or "unknown" without an agent |
| `CompressionFacts.RatioSetEverywhere` | agent_obs/tree_compressor.py:411-416 | setting the ratio gives it to every node and changes nothing else |
| `CompressionFacts.MarkedExactly` | agent_obs/tree_compressor.py:302-311 | marking flags exactly the nodes that were flagged or had a flagged child, and changes nothing else |
| `CompressionFacts.CostPreserved` | agent_obs/tree_compressor.py:253-296 | costs of kept nodes plus `tree.total_cost` of summaries equal the total cost of the input |
| `Embedding.EmbedIdempotentIff` | agent_obs/tree_compressor.py:500-581 | two passes equal one exactly when no node below the root of the input becomes foldable by the first pass |
| `Pipeline.EmbedNotIdempotent` | agent_obs/tree_compressor.py:500-581 | four spans, and the tree the builder makes of them, on which a second pass changes the result of the first |
| `Pipeline.ChainEmbedsTwice` | agent_obs/tree_compressor.py:500-581 | the same for every chain of four spans headed by an `agent.loop` |
| `Embedding.EmbedFixpoint` | agent_obs/tree_compressor.py:500-581 | a pass changes nothing exactly when no node below the root is foldable |
| `Embedding.EmbedMeans` | agent_obs/tree_compressor.py:500-581 | below the root every node of the result is made of a node of the input: name, type, context, times, flag, ratio and all attributes but the two written ones are kept; a node with at most the limit of children, all leaves, becomes a marked, counted leaf with one event per child, every other keeps its span |
| `Embedding.MarkedIffFolded` | agent_obs/tree_compressor.py:520-558 | a span not marked before is marked exactly when its node has few children, all leaves |
| `Embedding.NothingLost` | agent_obs/tree_compressor.py:562-571 | every node of the input is still there, as a node or folded into the node made of its parent |
| `Embedding.FoldedHasRecord` | agent_obs/tree_compressor.py:528-560 | a folded child has an event with its name, time, id, parent id, type, status and other attributes |
| `Embedding.CollectLoop` | agent_obs/tree_compressor.py:595-623 | the loop over events collects the children in event order or fails at the first invalid one |
| `Embedding.ExpandEmbedded` | agent_obs/tree_compressor.py:584-623 | expands exactly the embedded events of the parent |
| `Embedding.FoldThenExpand` | agent_obs/tree_compressor.py:528-623 | expanding a folded parent returns what could be expanded before, then one span per folded child in start-time order |
| `Embedding.AttributesRestored` | agent_obs/tree_compressor.py:537-613 | a child's attributes come back, with the status defaulted, exactly when it used no reserved key |
| `Embedding.RestoredIsChild` | agent_obs/tree_compressor.py:537-621 | the exact conditions under which a child survives the round trip as it was |
| `Embedding.StatusComesBack` | agent_obs/tree_compressor.py:614 | a child without a status comes back with "unset" |
| `Embedding.RestoredKeys` | agent_obs/tree_compressor.py:610-613 | only the keys of the embedding are taken out of a child's attributes |
| `Embedding.EmbeddedMeans` | agent_obs/tree_compressor.py:598 | an event counts as embedded when its mark is there and true |
| `Embedding.ExpandDefaults` | agent_obs/tree_compressor.py:600-620 | what an embedded event without the usual keys is read as |
| `Embedding.ExpandDictDefaults` | agent_obs/tree_compressor.py:640-660 | the same for the dictionary path, where the type stays blank |
| `Embedding.DictMeans` | agent_obs/observability.py:306-328 | the dictionary has every field of the span under its own name, and an event for every name and timestamp |
| `Embedding.DedupEvents` | agent_obs/observability.py:362-371 | keeps the first event for every name and timestamp |
| `Embedding.ExpandEmbeddedDict` | agent_obs/tree_compressor.py:626-661 | one dictionary per embedded event, in order |
| `Embedding.SpanPathAsDicts` | agent_obs/tree_compressor.py:584-661 | expanding and then converting equals expanding the undeduplicated dictionary |
| `Embedding.DedupKeepsEmbedded` | agent_obs/observability.py:362-371 | deduplication keeps all embedded events exactly when none repeats an earlier event, and loses some otherwise |
| `Embedding.DictPathAgrees` | agent_obs/tree_compressor.py:626-661 | going through `to_dict` yields the same children exactly under that condition |
| `Embedding.FoldThenExpandDict` | agent_obs/tree_compressor.py:528-661 | folding a parent and going through `to_dict` gives back the restored children in start-time order exactly when they differ pairwise in name or start time and from the parent's events |
| `TreesInPlace.TreeNode.Adopt` | agent_obs/tree_compressor.py:286-294 | appending a separate tree to a node's children appends its value and nothing else |
| `TreesInPlace.AppliedByEdit` | agent_obs/tree_compressor.py:302-311 | every in-place pass is its edit of one node followed by itself on the remaining children |
| `TreesInPlace.MarkOwn` | agent_obs/tree_compressor.py:303-309 | a node is flagged when a child is flagged at that moment |
| `TreesInPlace.SummarizeOwn` | agent_obs/tree_compressor.py:755-763 | a pending summary is replaced by the late one, nothing else changes |
| `TreesInPlace.IsEmbeddable` | agent_obs/tree_compressor.py:520-526 | the test on the objects decides foldability of the value they hold |
| `TreesInPlace.Fold` | agent_obs/tree_compressor.py:528-560 | the events are appended in start-time order, the two attributes set and the children cleared |
| `TreesInPlace.Run` | agent_obs/tree_compressor.py:302-311 | each of the recursive passes turns the value held by the objects into what its function says, touching only the tree's own nodes |
| `TreesInPlace.RunChildren` | agent_obs/tree_compressor.py:570-571 | the loop over children applies the pass to each and leaves the node itself alone |
| `TreesInPlace.Allocate` | agent_obs/tree_compressor.py:286-318 | a tree made of new nodes only, none of them shared |
| `TreesInPlace.Compress` | agent_obs/tree_compressor.py:363-422 | returns new nodes that hold the compressed tree, asks for the jobs of the replaced subtrees, and leaves the input tree as it was |
| `TreesInPlace.Install` | agent_obs/tree_compressor.py:313-416 | marking and setting the ratio in place give the marked tree with the ratio on every node |
| `TreesInPlace.ApplyLateSummaries` | agent_obs/tree_compressor.py:745-770 | the pass in place fills in the late summaries |
| `TreesInPlace.Embed` | agent_obs/tree_compressor.py:500-581 | the pass in place folds every foldable node except the root |
| `TreesInPlace.ServeTrace` | agent_obs/eval/api.py:281-297 | the endpoint returns a view exactly for acceptable lists, and it is the reference view of the built tree |
| `Pipeline.LateMeans` | agent_obs/tree_compressor.py:745-770 | in any tree, late summaries change the text of pending summaries whose id has one, and nothing else of any node |
| `Pipeline.LateOnce` | agent_obs/tree_compressor.py:757-763 | a summary that got a text other than "pending" is left alone by any later application |
| `Pipeline.ViewClosedForm` | agent_obs/eval/api.py:281-297 | closed form of what is served for a fresh tree: each child of the root over the limit is a leaf, its summary with the late text or "pending"; every other is the branch, embedded |
| `Pipeline.ErrorsServed` | agent_obs/eval/api.py:281-297 | for every accepted list each erroneous span is served, as an erroneous node or as an embedded event with its id and the status "error" |
| `SummaryWorker.IndexByParent` | agent_obs/eval/tree_summary_worker.py:98-111 | the map lists the children of every parent in list order, and the wanted span is found if listed |
| `SummaryWorker.ExtractSubtree` | agent_obs/eval/tree_summary_worker.py:88-130 | for every list on which the search ends, returns the search order from the last span with the wanted id, sorted stably by start time, or nothing without such a span |
| `SummaryWorker.EndsMeans` | agent_obs/eval/tree_summary_worker.py:119-127 | the search ends within a number of levels exactly when no way along non-summary children is longer |
| `SummaryWorker.SearchEnds` | agent_obs/eval/tree_summary_worker.py:119-127 | on every list that the builder accepts the search ends |
| `SummaryWorker.Search` | agent_obs/eval/tree_summary_worker.py:115-127 | the queue yields the spans level by level |
| `SummaryWorker.SearchOrderUnique` | agent_obs/eval/tree_summary_worker.py:115-127 | the level order is the same for every number of levels that suffices |
| `SummaryWorker.FoundIffWay` | agent_obs/eval/tree_summary_worker.py:115-127 | the search finds exactly the spans to which a way along non-summary children leads |
| `SummaryWorker.FoundClosed` | agent_obs/eval/tree_summary_worker.py:123-127 | listed children of a found span that are no summaries are found |
| `SummaryWorker.FoundNoSummary` | agent_obs/eval/tree_summary_worker.py:123-127 | whatever else is found is no summary and has its parent among the found |
| `SummaryWorker.FoundInOrder` | agent_obs/eval/tree_summary_worker.py:129-130 | the answer is a permutation of the search order, ordered by start time, and spans with equal start times come in search order |
| `SummaryWorker.FoundIsSubtree` | agent_obs/eval/tree_summary_worker.py:88-130 | on every list that the builder accepts, without summaries, the answer holds exactly the spans of the subtree that the builder made |
| `Pipeline.BuiltIsFresh` | agent_obs/tree_compressor.py:846-851 | trees built from plain spans are fresh, so all results on fresh trees apply to them |
| `Pipeline.KeptBranch` | agent_obs/tree_compressor.py:528-571 | in an embedded branch every id occurs as node or embedded event as often as before, and nodes plus `embedded_count` add up to its size |
| `Pipeline.ServedAccount` | agent_obs/tree_compressor.py:207-571 | the branches of the served tree account for every span of the branches under the root |
| `Pipeline.EverySpanAccounted` | agent_obs/eval/api.py:281-297 | every listed id is accounted for exactly once, as kept node, embedded event or member of one summary's subtree, no other id is; kept nodes, `embedded_count` and `tree.children_count` add up to the number of spans; every summary is still a node |
| `Pipeline.WorkerRecovers` | agent_obs/eval/tree_summary_worker.py:88-130 | what the worker finds for a span has every id as often as the built subtree, and its size |
| `Pipeline.SummaryMatchesWorker` | agent_obs/eval/tree_summary_worker.py:88-130 | for every summary the worker finds exactly the replaced spans, as many as `tree.children_count` says |
| `Pipeline.JobsFindSubtrees` | agent_obs/tree_compressor.py:281-285 | every job asked for names a listed span from which the search ends, and what the worker finds is exactly the subtree that was replaced |
| `ErrorRate.EvictTwice` | agent_obs/observability.py:1622-1627 | evicting at an earlier cutoff first makes no difference |
| `ErrorRate.EvictIsFilter` | agent_obs/observability.py:1622-1627 | for calls in time order, eviction keeps exactly those at or after the cutoff |
| `ErrorRate.FollowsStep` | agent_obs/observability.py:1602-1651 | a call keeps the window equal to the history cut at five minutes |
| `ErrorRate.ErrorsMean` | agent_obs/observability.py:1638 | the recount is the number of entries that are errors |
| `ErrorRate.ErrorRateTracker.Slide` | agent_obs/observability.py:1616-1627 | the counters follow append and eviction: the tracked count tells when the error count is exact |
| `ErrorRate.ErrorRateTracker.Measure` | agent_obs/observability.py:1616-1640 | the error count is the full recount, the window is not empty and the clamp changes nothing |
| `ErrorRate.ErrorRateTracker.Recount` | agent_obs/observability.py:1638 | counts the errors of a window |
| `ErrorRate.ErrorRateTracker.Inject` | agent_obs/observability.py:1635-1639 | entries written from outside, at any place, keep the invariant |
| `ErrorRate.ErrorRateTracker.Update` | agent_obs/observability.py:1602-1651 | after every call the incremental count equals a full recount and the gauge is errors over window length; other agents are untouched |
| `ErrorRate.ErrorRateTracker.WindowIsRecentCalls` | agent_obs/observability.py:1602-1651 | with a steady clock and nothing injected the window holds exactly the calls of the last 300 seconds |
| `TraceAggregation.OwnTrace` | agent_obs/observability.py:1401-1431 | what an arriving span does to the totals of its own trace |
| `TraceAggregation.CostOfSpan` | agent_obs/observability.py:1413-1416 | a span changes the cost total by the number under `cost.usd` for an `llm.call`, and by nothing for any other type |
| `TraceAggregation.TotalsMean` | agent_obs/observability.py:1410-1416 | the totals are the cost, the number of spans and whether one is erroneous |
| `TraceAggregation.RootMeans` | agent_obs/observability.py:1418-1419 | traces are closed by `agent.loop` spans |
| `TraceAggregation.TableStep` | agent_obs/observability.py:1392-1431 | every span keeps the table in order for all traces at once, and within its limit |
| `TraceAggregation.EntryBounds` | agent_obs/observability.py:1392-1431 | the totals are exact for a trace that lost no span and never too large for non-negative costs |
| `TraceAggregation.RunsKeepTable` | agent_obs/observability.py:1392-1431 | the same over every interleaving of traces |
| `TraceAggregation.FewTracesLoseNothing` | agent_obs/observability.py:1403-1406 | the memory guard turns nothing away unless there are more traces than table slots |
| `TraceAggregation.TraceAggregator.Accumulate` | agent_obs/observability.py:1392-1431 | the code makes the step of the table and stamps a closing root with the totals of its trace, unless the full table turns it away |
| `TailSampler.FirstMatchDecides` | agent_obs/exporters/tail_sampler.py:177-244 | the first policy that matches gives the whole decision, by its keep rate; one that raises before that ends the call |
| `TailSampler.DefaultKeeps` | agent_obs/exporters/tail_sampler.py:81-175 | raises exactly for a span that is neither erroneous nor badly evaluated and has an unreadable cost; otherwise keeps a span exactly when it is erroneous, badly evaluated, expensive, an incident, or its hash falls under the normal rate |
| `TailSampler.DefaultDecides` | agent_obs/exporters/tail_sampler.py:81-244 | from the attributes: policy name, reason, content rate and keeping for costs that are numbers |
| `TailSampler.NoMatchDrops` | agent_obs/exporters/tail_sampler.py:229-244 | without a matching policy a span is dropped |
| `TailSampler.KeepByRate` | agent_obs/exporters/tail_sampler.py:160-175 | kept exactly when the hash lies below the rate, and then at every higher rate |
| `TailSampler.StampReads` | agent_obs/observability.py:1421-1430 | a stamp writes the four figures and the error status and leaves everything else of the root alone |
| `TailSampler.StampedRootKept` | agent_obs/exporters/tail_sampler.py:90-117 | a root stamped with an error or an exceeded budget is kept whatever its hash, exactly unless reading its own cost raises first |
| `TailSampler.BadTraceKept` | agent_obs/exporters/tail_sampler.py:90-117 | the same in terms of the spans of the trace |
| `TailSampler.RunStampsExactly` | agent_obs/observability.py:1418-1431 | over every run the code leaves the closing root of a trace that lost no span with the exact number of spans, cost sum, over-budget mark and error status, or unstamped when the full table turns it away, and then it is alone in its trace |
| `TailSampler.RunKeepsBadTraces` | agent_obs/exporters/tail_sampler.py:177-244 | over every run what the code makes of the root of an errored or over-budget trace that lost no span is kept, also when it was turned away, exactly unless reading its own cost raises first |
| `SpanAggregator.Aggregator.MakeEvents` | agent_obs/span_aggregator.py:164-174 | one event per buffered span, in order, and the total size of the spans |
| `SpanAggregator.Aggregator.MakeAggregate` | agent_obs/span_aggregator.py:160-192 | the aggregate of the buffer with the bytes it saves |
| `SpanAggregator.Aggregator.Add` | agent_obs/span_aggregator.py:128-151 | flushes exactly when the count or the window is reached; emitted events followed by the buffer are the input sequence; aggregates have between 1 and `max_count` children |
| `SpanAggregator.Aggregator.Flush` | agent_obs/span_aggregator.py:153-198 | emits the whole buffer or nothing, and keeps that account |
| `SpanAggregator.AddKeepsAccount` | agent_obs/span_aggregator.py:137-141 | buffering a span keeps emitted events followed by the buffer equal to the input |
| `SpanAggregator.FlushKeepsAccount` | agent_obs/span_aggregator.py:153-198 | so does emitting the buffer, and the new aggregate is neither empty nor too large |
| `SpanAggregator.EmitsMeans` | agent_obs/span_aggregator.py:142-149 | with start times that are set, an aggregate is due exactly at `max_count` spans or when the last span started the window after the first |
| `SpanAggregator.AggregateMeans` | agent_obs/span_aggregator.py:160-192 | an aggregate has the count, the parent of the first span, one event per span in order, and the saved bytes |
| `SpanAggregator.SizesAdd` | agent_obs/span_aggregator.py:174 | the sizes of the spans add up |
| `SpanAggregator.MicroMeans` | agent_obs/observability.py:856-858 | micro-spans are the reasoning spans that are no aggregates themselves |
| `SpanAggregator.Sdk.Offer` | agent_obs/observability.py:899-901 | a full ring drops the item and keeps what it holds |
| `SpanAggregator.Sdk.Enqueue` | agent_obs/observability.py:854-901 | one step of the log of the run: a root leaves the aggregator empty, with its aggregate offered before the root; every micro-span enters the aggregator and is offered on its own or in the aggregate it completes |
| `SpanAggregator.OfferedOnceOrTwice` | agent_obs/observability.py:868-900 | over every run each span is offered once or twice, and once exactly when it is no micro-span, completes an aggregate with its own `add`, or is still buffered |
| `SpanAggregator.OfferedOnceAfterRoot` | agent_obs/observability.py:868-900 | after a root a micro-span has been offered once exactly when its own `add` emitted an aggregate, and twice otherwise |
| `StepCounts.RootOffered` | agent_obs/observability.py:881-901 | a root is offered after everything offered before and what it pushes out of the aggregator |
| `StepCounts.OpenAreOffers` | agent_obs/observability.py:1098 | the trace aggregation holds one open span for each offer of a trace since its last root |
| `StepCounts.AggregateSpanContext` | agent_obs/observability.py:1037-1047 | the span of an aggregate stands in the context of the first of its micro-spans |
| `StepCounts.AggregateSpanMeans` | agent_obs/observability.py:1049-1083 | it says how many micro-spans it holds and what it saves, and is no micro-span itself |
| `StepCounts.AggregateSpanEvents` | agent_obs/observability.py:1058-1067 | it holds its micro-spans as events in time order |
| `StepCounts.StepsAreOffers` | agent_obs/observability.py:880-902 | over every run with an unbounded ring, for all interleavings, the steps stamped on a root are the offers of its trace since the last root, itself included |
| `StepCounts.HeldMeans` | agent_obs/observability.py:868-883 | something is buffered exactly when the last micro-span since the last root did not complete an aggregate |
| `StepCounts.StepsOfOneTrace` | agent_obs/observability.py:880-902 | in a run of one trace they are its spans since the last root, and one more exactly in that case |
| `ComplianceCatalog.AddRowsCounts` | agent_obs/compliance/catalog.py:355-357 | adding a batch raises every key by what the batch holds of it |
| `ComplianceCatalog.StepConserves` | agent_obs/compliance/catalog.py:320-364 | every step keeps recorded equal to buffered, in flight, persisted and lost together, per key |
| `ComplianceCatalog.RunConserves` | agent_obs/compliance/catalog.py:320-364 | so does every interleaving of records and overlapping flushes |
| `ComplianceCatalog.RecordedIsCalls` | agent_obs/compliance/catalog.py:329-330 | every call of `record` counts once, for its own key |
| `ComplianceCatalog.Catalog.Record` | agent_obs/compliance/catalog.py:320-333 | the code makes the record step |
| `ComplianceCatalog.Catalog.BeginFlush` | agent_obs/compliance/catalog.py:335-350 | the code hands over exactly the buffer and clears it |
| `ComplianceCatalog.Catalog.Snapshot` | agent_obs/compliance/catalog.py:339-348 | the rows say exactly what the buffer says |
| `ComplianceCatalog.Catalog.RestoreFailed` | agent_obs/compliance/catalog.py:353-357 | after a failed write every row is added back to whatever was recorded meanwhile |
| `ComplianceCatalog.MergeRows` | agent_obs/compliance/catalog.py:560-575 | the list has one row per key, in the order in which keys first occur, each of highest frequency for its key |
| `ComplianceCatalog.MergeUnique` | agent_obs/compliance/catalog.py:560-575 | which rows are merged does not depend on the order in which tiers are read |
| `ComplianceCatalog.TieredStepKeeps` | agent_obs/compliance/catalog.py:695-708 | a step behind the composite writer keeps every tier, with what is on its way to it, within what was recorded |
| `ComplianceCatalog.TiersNeverExceed` | agent_obs/compliance/catalog.py:695-708 | in every interleaving and whatever tiers fail, no tier holds more of a key than was recorded |
| `ComplianceCatalog.TierHolds` | agent_obs/compliance/catalog.py:701-708 | every tier holds exactly what was written to it successfully |
| `CostAttribution.RaiseBounds` | agent_obs/cost/attribution.py:215-217 | merging a snapshot lowers no key and raises none above a bound that the rows respect |
| `CostAttribution.RaiseReaches` | agent_obs/cost/attribution.py:215-217 | after the merge every row's key is at least at the row's total |
| `CostAttribution.RaiseOthers` | agent_obs/cost/attribution.py:215-217 | keys without a row are left alone |
| `CostAttribution.CreditSpend` | agent_obs/cost/attribution.py:144-158 | a record raises the spend of its own tenant and day by its cost, and no other spend |
| `CostAttribution.MergeOfOthers` | agent_obs/cost/attribution.py:213-217 | rows of other tenants do not change a tenant's spend |
| `CostAttribution.RunSpend` | agent_obs/cost/attribution.py:144-158 | over every run the sum of a tenant's records of a day is its local spend, and without merges its tracked spend |
| `CostAttribution.OthersKeepVerdict` | agent_obs/cost/attribution.py:378-389 | records and rows of other tenants or days never change a verdict |
| `CostAttribution.StepBounds` | agent_obs/cost/attribution.py:144-217 | every step keeps tracked spend between the local and the true total and lowers no key |
| `CostAttribution.RunBounded` | agent_obs/cost/attribution.py:144-217 | so does every run |
| `CostAttribution.RunGrows` | agent_obs/cost/attribution.py:144-217 | over every run tracked spend never decreases |
| `CostAttribution.SpendToday` | agent_obs/cost/attribution.py:151-158 | the loop sums all agents of the tenant on that day |
| `CostAttribution.JudgeThresholds` | agent_obs/cost/attribution.py:378-389 | exhausted from the whole budget on, approaching from 80 percent on |
| `CostAttribution.VerdictOnlyWorsens` | agent_obs/cost/attribution.py:378-389 | over every run, with a fixed budget, the verdict of a day only moves from ok to approaching to exhausted |
| `CostAttribution.Tracker.Record` | agent_obs/cost/attribution.py:144-149 | credits the key of today and no other; a zero cost leaves no trace |
| `CostAttribution.Tracker.MergeSnapshot` | agent_obs/cost/attribution.py:213-217 | the loop performs the merge |
| `CostAttribution.Tracker.Check` | agent_obs/cost/attribution.py:374-389 | the verdict for the tenant's own or the default budget on the spend of today |
| `LangfuseExporter.DelayBounds` | agent_obs/exporters/langfuse_exporter.py:583-587 | a delay lies between 0.2 and 0.3 times two to the attempt |
| `LangfuseExporter.SleepBounds` | agent_obs/exporters/langfuse_exporter.py:478-491 | after `n` failed attempts the total sleep lies between 0.2(2^n - 1) and 0.3(2^n - 1) seconds |
| `LangfuseExporter.PostWithRetries` | agent_obs/exporters/langfuse_exporter.py:472-502 | stops at the first attempt that is not transient, sleeps after every one that is, gives up only after all attempts, and raises exactly when none is allowed |
| `LangfuseExporter.StepAccounts` | agent_obs/exporters/langfuse_exporter.py:504-576 | every step keeps each batch in as many places as it was submitted, and the queue equal to the newest stashed batches |
| `LangfuseExporter.RunAccounts` | agent_obs/exporters/langfuse_exporter.py:504-576 | so does every run with overlapping exports and flushes; the queue never exceeds its cap |
| `LangfuseExporter.LedgerMeans` | agent_obs/exporters/langfuse_exporter.py:504-576 | over every run a batch is delivered, rejected and lost as often as an attempt for it succeeded, was refused for good, or failed without a way back |
| `LangfuseExporter.LastOfMeans` | agent_obs/exporters/langfuse_exporter.py:539-551 | the queue is the newest stashed batches, in order |
| `LangfuseExporter.Exporter.StashBatch` | agent_obs/exporters/langfuse_exporter.py:539-551 | appends and drops the oldest batch on overflow |
| `LangfuseExporter.Exporter.SubmitRefused` | agent_obs/exporters/langfuse_exporter.py:517-525 | a refused export stashes its batch |
| `LangfuseExporter.Exporter.ExportExhausted` | agent_obs/exporters/langfuse_exporter.py:536-537 | so does one whose retries are exhausted |
| `LangfuseExporter.Exporter.TakePending` | agent_obs/exporters/langfuse_exporter.py:553-560 | a flush takes the whole queue and leaves an empty one |
| `IdCodec.DecodeEncode` | agent_obs/observability.py:117-123 | decoding an `n`-digit encoding gives the value modulo the base to the `n` |
| `IdCodec.EncodeDecode` | agent_obs/observability.py:117-123 | encoding a numeral's value gives the numeral back |
| `IdCodec.OrderIsValue` | agent_obs/observability.py:117-130 | numerals of equal length are in dictionary order exactly when their values are |
| `IdCodec.EncodeCrockford` | agent_obs/observability.py:117-123 | the loop from the right writes the last digits of the value in the Crockford alphabet |
| `IdCodec.EncodingsSort` | agent_obs/observability.py:126-130 | encodings of a fixed length compare as strings exactly as the values do |
| `IdCodec.DecodeLoop` | agent_obs/exporters/langfuse_exporter.py:63-69 | the loop computes the positional value, or fails at the first character outside the alphabet |
| `IdCodec.DecodeWritten` | agent_obs/exporters/langfuse_exporter.py:63-69 | decoding a written numeral gives its value |
| `IdCodec.SmallReadsAsCapital` | agent_obs/exporters/langfuse_exporter.py:67 | a small letter reads as its capital |
| `IdCodec.CrockfordIs` | agent_obs/exporters/langfuse_exporter.py:65 | the alphabet has the decimal digits first, then capital letters |
| `IdCodec.CrockfordOmits` | agent_obs/exporters/langfuse_exporter.py:65 | it leaves out I, L, O and U |
| `IdCodec.HexIs` | agent_obs/exporters/langfuse_exporter.py:69 | hexadecimal digits are the decimal ones and the small letters from a |
| `IdCodec.UlidDecodes` | agent_obs/observability.py:126-130 | a generated id has 26 characters and decodes to its timestamp and random bits |
| `IdCodec.TraceIdLength` | agent_obs/exporters/langfuse_exporter.py:163 | the trace id in the payload has 32 digits exactly when the timestamp is below 2^48 ms |
| `IdCodec.TraceIdInjective` | agent_obs/exporters/langfuse_exporter.py:163 | such trace ids are equal exactly when timestamp and random bits are |
| `IdCodec.TraceIdIs` | agent_obs/exporters/langfuse_exporter.py:163 | the trace id in the payload writes the id's number in 32 hexadecimal digits |
| `IdCodec.SpanIdIsLowBits` | agent_obs/exporters/langfuse_exporter.py:164 | the span id in the payload is the low 64 random bits, whatever the timestamp |
| `IdCodec.LinksMatchLowBits` | agent_obs/exporters/langfuse_exporter.py:164-167 | a parent link in the payload matches a span exactly when the low 64 random bits agree |
| `Masking.SpliceStep` | agent_obs/guardrail/field_masker.py:535 | replacing the next match to the left turns the substitution of the later matches into that of all |
| `Masking.SpliceAll` | agent_obs/guardrail/field_masker.py:534-539 | the loop makes the replacements one after the other, and a path per match |
| `Masking.SplicedIsSubstitute` | agent_obs/guardrail/field_masker.py:534-539 | matches in line, replaced from right to left, give the simultaneous substitution |
| `Masking.FromRightIsReverse` | agent_obs/guardrail/field_masker.py:530 | sorting from the right is the reverse of text order |
| `Masking.ApplyPiiMasking` | agent_obs/guardrail/engine.py:330-351 | replaces the matches from right to left; for matches that are apart the masked text is the simultaneous substitution and the paths come in text order |
| `Masking.ApplyFullMask` | agent_obs/guardrail/field_masker.py:499-543 | the same result as the engine's masker, also without matches |
| `Masking.PathOfMask` | agent_obs/guardrail/field_masker.py:536-538 | for a mask "[type:hex]" the path is field, entity type and hex digits, joined by dots |
| `Masking.PathOfPlainMask` | agent_obs/guardrail/field_masker.py:537 | a mask without a colon adds no digits |
| `Masking.OrderIrrelevantIff` | agent_obs/guardrail/field_masker.py:530 | the order in which matches are given makes no difference to the order of replacement, for every reordering, exactly when different matches start at different places |
| `Masking.OrderIrrelevant` | agent_obs/guardrail/field_masker.py:530 | for such matches, overlapping or not, any two orders give the same replacements; matches that are apart stay so |
| `Masking.SameStartSplices` | agent_obs/guardrail/field_masker.py:535 | of two matches with one start the later one is written in front and takes as many characters of what the earlier one left as it is long |
| `Masking.LastAloneIff` | agent_obs/guardrail/field_masker.py:535 | for two matches of the same characters the result is that of the later one alone exactly when the earlier one's mask is as long as the match, or shorter at the end of the text |
| `Masking.OrderMatters` | agent_obs/guardrail/field_masker.py:530-535 | two matches with one start whose masks differ at some place: exchanging them changes the masked text |
| `Masking.OutsideKept` | agent_obs/guardrail/field_masker.py:535 | every character outside the matches is kept, at its shifted place |
| `Masking.MaskedLength` | agent_obs/guardrail/field_masker.py:535 | the masked text is longer by exactly the growth of the matches |
| `Drift.Proper` | agent_obs/drift/kl_divergence.py:64-70 | a smoothed and normalised histogram is a distribution without zeros |
| `Drift.TotalBound` | agent_obs/drift/kl_divergence.py:72-73 | the sum of terms is at least the difference of the masses, strictly when the shares differ |
| `Drift.ScoreNonNegative` | agent_obs/drift/kl_divergence.py:51-75 | the score is never negative, and zero exactly when the smoothed distributions agree |
| `Drift.DistributionIs` | agent_obs/drift/kl_divergence.py:64-70 | every entry of the distribution is the smoothed count over the smoothed total |
| `Drift.ScoreIs` | agent_obs/drift/kl_divergence.py:64-75 | the score of a window against the baseline P is the sum of P ln P less the sum of P ln Q |
| `Drift.ScoreChange` | agent_obs/drift/kl_divergence.py:72-75 | another window changes the score by the weighted difference of the logarithms of its shares |
| `Drift.TotalMeans` | agent_obs/drift/kl_divergence.py:73 | the sum takes each pair of corresponding entries once, in this order |
| `Drift.SeverityMeansDrift` | agent_obs/drift/detector.py:306-328 | warning and critical imply that drift was detected, and for a positive threshold hold exactly from twice the threshold on |
| `Drift.IdenticalWindowsQuiet` | agent_obs/drift/detector.py:145-149 | identical windows never raise drift for a threshold that is not negative |

## Left out

- TreeBuilder.Build: lists in which a parent pointer names a blank id are excluded; on those the construction holds a span twice (`BuilderFacts.BlankLinkBuiltTwice`) or does not end. The set of spans seen on a cycle is not kept, because nothing reads it.
- Compression.ComputeSubtreeMetrics: node ids must be distinct, which the builder guarantees, because the maps are keyed by id.
- Compression.PropagateErrors: the same.
- Compression.PlanCompression: the same, and in the replaced subtrees both cost attributes must be numbers or flags, since `float` raises on others; text that reads as a number is not modelled there.
- TreesInPlace.Compress: the same. The rebuild computes on tree values and its new nodes are then allocated.
- TreesInPlace.Run: spans are values, so the sharing of span objects between the input tree and the compressed tree is not captured; embedding the compressed tree edits spans that the input tree also holds.
- TreesInPlace.ServeTrace: a missing trace, the conversion of stored rows and the response format are not modelled; neither is the metric that each pass sets.
- SummaryWorker.ExtractSubtree: on lists where the search never ends nothing is stated.
- Embedding.ExpandEmbedded: embedded events whose span id, parent id or type is not text are read as blank; `embed` never writes such events.
- TraceAggregation.TraceAggregator.Accumulate: called for spans the ring has accepted; the order of records between the ring and the table within one call is not modelled.
- SpanAggregator.Aggregator.Flush: the lengths of the renderings, from which the saved bytes are computed, are arbitrary functions.
- SpanAggregator.Sdk.Enqueue: the version and tenant stamps, embeddings, and the removal of items by the export worker are left out.
- StepCounts.StepsAreOffers: stated for an unbounded ring; new ids and times of aggregates are inputs.
- ComplianceCatalog.RunConserves: a writer is atomic, it stores a batch as a whole or raises; a cancelled flush loses its batch, which the ledger shows. Stores are not modelled.
- CostAttribution.RunBounded: costs are not negative and a snapshot never exceeds the true total. The write to the warm tier, audit events and gauges of a flush are left out.
- Masking.ApplyPiiMasking: for matches that overlap or start at the same place only the successive replacements are stated. How the detector resolves overlaps is not part of this model.
- Drift.ScoreNonNegative: of the logarithm only its tangent at 1, the rule for reciprocals and, for the score itself, the rule for quotients are used; rounding and the making of histograms from embeddings are left out.
- Identifiers are decoded from ASCII letters only; Unicode upper-casing is not modelled.
- Delivery by `_export_worker` and `Span.from_dict`, where the code does not do what is intended.
- Partial masking of JSON and SQL, which depends on Python's rendering of values.
- Hot-to-warm migration and catalog aggregation, whose safety rests on store queries.
- The feedback loop of the sampler, content sampling and hash bucketing, which come down to one comparison.
- Content hashes, caching and prompts of the summary worker; circuit breakers, service levels, access control, proxy, storage and notifications.
