# A verified model of a graph-based dependency parser

The modelled program is a small dependency parser for annotated corpora. A
sentence is a list of tokens whose first entry is an artificial root. Each
token carries its word form, lemma and part-of-speech tag, and, when it is
annotated, the position of its head and the kind of its dependency relation.
The parser works in four steps:

- **Feature extraction.** For every candidate pair (head h, dependent d) of a
  sentence, the feature extractor builds one feature string per template. A
  string combines, for example, the lemmas and tags of h and d, the direction
  of the arc, its length and the tags between the two tokens. The extractor
  interns each string as an integer id and stores the sorted ids of the pair
  on the sentence.
- **Training.** `train` counts, for every feature id and relation label, how
  often the feature occurs on gold arcs and how often on the other pairs. It
  then stores the ratio of the two totals.
- **Prediction.** `predict` scores every candidate pair and builds the
  complete graph of scored arcs. It decodes that graph with the
  Chu-Liu-Edmonds algorithm: take the cheapest incoming arc of every node;
  contract a cycle of those arcs into a new node; decode the contracted graph
  recursively; expand the new node again. Each arc of the result gives its
  dependent a head and a relation.
- **Evaluation.** `test` compares predictions with the gold annotation. It
  reports unlabeled and labeled attachment scores (UAS, LAS) over the
  non-root tokens, and complete-match scores (UCM, LCM) over the sentences.

The Dafny project follows the program's structure:

- `corpus.dfy`: tokens, sentences and the order of candidate pairs.
- `graphs.dfy`: edges, graphs, `get_edge` and the choice of cheapest incoming
  edges.
- `cycle_search.dfy`, `contraction.dfy`, `decoder.dfy`: the decoder.
- `tables.dfy`, `training.dfy`: the weight tables and what training adds to
  them.
- `prediction.dfy`: the edge list and the write-back of `predict`.
- `evaluation.dfy`: the counters and the report of `test`.
- `model.dfy`: the `Model` class with `Train`, `Predict` and `Test`.
- `strings.dfy`, `features.dfy`, `extractor.dfy`: the feature strings and
  the `FeatureExtractor` class.
- `counting.dfy`: cardinality facts.
- `wrappers.dfy`: `Option` and `Result`.

Python relies on the identity of `Edge` objects: they are dictionary keys of
`old_edges`, and `in` and `remove` compare them. Here every edge carries an
explicit `id`. Edges made during contraction get fresh ids from a counter
threaded through `Cle`.

The stateful parts are imperative Dafny:

- `Sentence`, `FeatureExtractor` and `Model` are classes whose methods
  update their fields.
- The loops of `train`, `predict`, `test`, `extract_features`, the list
  comprehension of ids in `extract_features` (`LookupAll`), the cycle
  search, the contraction and the expansion are `while`/`for` loops.
  `lookup` has no loop; it is a method because it updates the string map.
- Each loop method is proved against a specification function, and the
  properties are proved about those functions. `Cle` is recursive: its
  contract states what its result is (the chosen edges when no chain
  returns; a branching of the graph when no two edges join the same pair of
  nodes) and `Resolve` ties the cycle case to the function `Expansion` of
  the decoded contracted graph.

Details of the code the model reproduces:

- A cycle is recorded only when the chain of cheapest edges from node n
  reaches an edge whose origin is n. A repeated edge alone ends the walk
  without a cycle.
- A node without incoming edges has `None` as its entry of `min_edges`,
  and the recursive result is filtered with `filter(None, ...)`.
- The cost subtracted from an edge entering the cycle is that of the first
  edge, in list order, with the same origin and target as the cycle node's
  chosen edge (`get_edge`). It is the chosen edge itself only when no
  parallel edge comes before it.
- Expansion appends the chosen edge of every cycle node. It then removes
  only the `get_edge` result for the cycle node entered by the first subtree
  edge into the new node whose result is still in the list.
- `train` divides the negative total by the positive total. It fails when
  the positive total is zero; a zero negative total gives a ratio of 0.
- A projection of an edge leaving or entering the cycle is skipped only when
  a strictly cheaper projection for the same pair is already listed. The
  later per-pair minimum selects among the rest.
- `min_edges[origin - 1]` with origin 0 reads Python's index -1, the last
  entry, so the walk treats the root like the last node (`OriginIndex`).

## Model

| member | source | states |
|---|---|---|
| Graphs.FirstMatch | graph.py:22-25 | the index of the first matching edge, none exactly when no edge matches |
| Graphs.SearchList | graph.py:22 | defines the list `get_edge` searches: `edges or self.edges`, so a missing and an empty list both fall back to the graph's edges |
| Graphs.GetEdge | graph.py:21-25 | the first edge in list order whose origin and target match, a `None` argument matching anything; `None` exactly when nothing matches; a missing or empty list searches the graph's edges |
| Graphs.MinMatch | graph.py:33 | Python's `min(..., key=cost)` over matching edges: a least-cost match, strictly cheaper than every earlier match, none exactly when nothing matches |
| Graphs.MinInto | graph.py:32-33 | the first least-cost edge entering t, or none exactly when no edge enters t |
| Graphs.MinEdges | graph.py:32-33 | `length - 1` entries; entry i is none exactly when no edge enters node i + 1, and otherwise the first least-cost edge entering it |
| Graphs.MinEdgesMember | graph.py:32-33 | a chosen edge is an edge of the graph entering its node |
| CycleSearch.MinEdgesIndexed | graph.py:32-33 | the chosen edges of a well-formed graph enter their node and start at a node |
| CycleSearch.WalkSplit | graph.py:38-43 | following the chain a + b steps is following it a steps, then b |
| CycleSearch.EndedStaysEnded | graph.py:38 | a chain that has met a missing edge stays ended |
| CycleSearch.PeriodicNoReturn | graph.py:36-46 | a chain that revisits a position without having met its start never meets it |
| CycleSearch.PathTargets | graph.py:38 | distinct chosen edges enter distinct nodes, so a path of them is no longer than `min_edges` |
| CycleSearch.ChainStep | graph.py:39-43 | the next entry of the chain is the chosen edge of the last entry's origin, index -1 for the root |
| CycleSearch.OriginIndex | graph.py:43 | defines the index `origin - 1` into `min_edges`, which is Python's index -1, the last entry, for the root |
| CycleSearch.Values | graph.py:41 | the edges of a path of present entries, one per entry |
| CycleSearch.PathReturns | graph.py:40-42 | a path whose last edge leaves m is the cycle recorded for m, with distinct targets |
| CycleSearch.PathEnds | graph.py:38-45 | a path that ended or repeated an edge without meeting m shows that m's chain never returns |
| CycleSearch.TraceStep | graph.py:38-43 | one step of the walk keeps the path free of repeats and within the length of `min_edges` |
| CycleSearch.TraceFrom | graph.py:37-45 | the walk from m gives a cycle exactly when m's chain returns to m; the cycle is the recorded path, with distinct targets |
| CycleSearch.FindCycle | graph.py:35-46 | the empty list exactly when no chain returns; otherwise the path of the first node whose chain returns, with distinct targets |
| Contraction.CoveredGrows | graph.py:54-68 | an original edge accounted for stays accounted for as the contracted list grows |
| Contraction.Dominated | graph.py:56-62 | defines the `any(...)` test: some listed edge joins the same pair at a strictly lower cost |
| Contraction.BaseCost | graph.py:61 | defines the cost subtracted from an edge entering a cycle node: that of the `get_edge` result for the origin and target of the node's chosen edge |
| Contraction.ProjectStep | graph.py:55-65 | appending a projection with a fresh id keeps the contraction invariant |
| Contraction.SkipStep | graph.py:56-62 | skipping a projection dominated by a strictly cheaper listed one keeps the invariant |
| Contraction.KeepStep | graph.py:66-68 | keeping an edge outside the cycle, mapped to itself, keeps the invariant |
| Contraction.DropStep | graph.py:54-68 | dropping an edge inside the cycle keeps the invariant |
| Contraction.ContractDone | graph.py:54-68 | after the loop every original edge is accounted for, and an edge inside the cycle makes the list shorter |
| Contraction.ContractEdge | graph.py:55-68 | one pass over an edge, projecting, skipping, keeping or dropping it, keeps the contraction invariant for the next index |
| Contraction.Contract | graph.py:51-68 | leaving edges start at node `length`, entering edges end there with cost less the `get_edge` baseline, outside edges are kept and inside edges dropped; every contracted edge maps back through `old_edges` to the edge it stands for; fresh distinct ids; strictly fewer edges when one lies inside the cycle |
| Contraction.TracedAvoidsCycle | graph.py:54-68 | no contracted edge enters a cycle node, and an edge into the new node comes from an edge entering the cycle, with its cost less the `get_edge` baseline |
| Contraction.HasPairGrows | graph.py:73-77 | a pair represented in the list stays represented as it grows |
| Contraction.PairFound | graph.py:75-77 | appending the least-cost edge of the next pair keeps the invariant of the pair loops |
| Contraction.PairAbsent | graph.py:75-76 | a pair without edges leaves the list unchanged |
| Contraction.MinPerPair | graph.py:70-77 | every listed edge is a contracted edge of the pair it joins, cheapest for that pair; listed by origin, then target, so one per pair; every in-range pair with an edge is represented; no more edges than were contracted |
| Decoder.IndexOf | graph.py:88 | the position of the first occurrence |
| Decoder.RemoveFirst | graph.py:88 | `list.remove`: without the first occurrence of x, one fewer x in the multiset, unchanged when x is absent |
| Decoder.Wrap | graph.py:90 | the restored edges as entries of a result list, all present |
| Decoder.Present | graph.py:81 | `filter(None, ...)`: exactly the present entries, no more of them than entries |
| Decoder.PresentValues | graph.py:81 | when every entry is present, `filter(None, ...)` keeps them all, in order |
| Decoder.PresentWrap | graph.py:81 | filtering the wrapped restored edges gives them back |
| Decoder.PresentDistinct | graph.py:81 | entries whose edges enter distinct nodes filter to edges entering distinct nodes |
| Decoder.MinEdgesBranching | graph.py:32-33 | the chosen incoming edges enter every non-root node that has an incoming edge, each once, and are edges of the graph |
| Decoder.NewGraphWellFormed | graph.py:79-80 | the recursive graph has `length + 1` nodes, in-range endpoints and distinct ids |
| Decoder.CycleNodes | graph.py:50 | the targets of the recorded cycle are nodes whose chosen edges are the cycle's edges |
| Decoder.ChainInMinEdges | graph.py:37-43 | every edge on a chain is the chosen edge of its target |
| Decoder.Contractible | graph.py:50 | the cycle nodes have chosen edges of the graph, and the cycle's last edge lies inside the cycle |
| Decoder.TracedRestorable | graph.py:59-83 | every edge of the recursive graph maps back to an original edge, one into the new node to an edge into a cycle node, and any other to an edge with the same target outside the cycle |
| Decoder.RestorableSub | graph.py:81-83 | what holds of every edge of the recursive graph holds of every edge of the decoded subtree |
| Decoder.SortedOnePerPair | graph.py:73-77 | edges listed by origin, then target, join distinct pairs of nodes |
| Decoder.OutsideReached | graph.py:66-77 | a node outside the cycle that the graph enters is still entered by an edge of the recursive graph |
| Decoder.Reduce | graph.py:50-80 | the recursive graph is well formed, has strictly fewer edges, joins each pair of nodes by at most one edge, enters every node outside the cycle that the graph enters, and every edge of it maps back |
| Decoder.Images | graph.py:83 | one original edge per subtree edge, in order |
| Decoder.CycleChoices | graph.py:84-85 | the chosen edge of every cycle node, in order |
| Decoder.Removal | graph.py:86-89 | the edge the removal loop takes out is one of the listed edges |
| Decoder.RemovalEnters | graph.py:87-88 | the removed edge enters a cycle node and is an edge of the graph |
| Decoder.BaseEdges | graph.py:83-85 | the images and the cycle choices are edges of the graph |
| Decoder.ExpansionShape | graph.py:83-90 | the expansion holds only original edges: the images and cycle choices, less at most one edge, which enters a cycle node |
| Decoder.Expansion | graph.py:83-90 | defines the restored list: the images of the subtree and the cycle choices, less the edge `Removal` names |
| Decoder.RemovalNone | graph.py:86-89 | when no later subtree edge enters the new node, the loop removes nothing |
| Decoder.RemovalAt | graph.py:86-89 | the first subtree edge into the new node decides the removal, when its `get_edge` result is listed |
| Decoder.GetEdgeChosen | graph.py:21-25 | when no two edges join the same pair, `get_edge` from the chosen edge's origin finds the chosen edge itself |
| Decoder.BaseTargets | graph.py:83-85 | the image of a subtree edge into the new node enters a cycle node, any other image enters its own target outside the cycle, and the k-th cycle choice enters the k-th cycle node |
| Decoder.AimedDistinct | graph.py:83-85 | with no subtree edge into the new node, the images and choices enter distinct nodes |
| Decoder.AimedClash | graph.py:83-88 | with a subtree edge into the new node, its image and the choice of the cycle node that image enters are the only two listed edges entering the same node |
| Decoder.AimedReaches | graph.py:83-85 | every cycle node is entered by its choice, and every other node the subtree enters by the image of the subtree's edge |
| Decoder.RemoveClash | graph.py:88 | removing one of the only two positions that enter the same node leaves no node entered twice |
| Decoder.RemoveKeeps | graph.py:88 | removing one position keeps the entry at every other position |
| Decoder.ExpansionWhole | graph.py:83-90 | with no subtree edge into the new node, the expansion enters every node the graph enters, each once |
| Decoder.ChoiceAt | graph.py:83-85 | the image of a subtree edge into the new node enters the q-th cycle node, whose choice follows the images at position q |
| Decoder.CutEdge | graph.py:86-89 | with one edge per pair, the loop removes the choice of the cycle node the first subtree edge into the new node stands for |
| Decoder.CutChoice | graph.py:86-89 | the removal loop takes out the chosen edge of the cycle node that the first subtree edge into the new node stands for |
| Decoder.CutResult | graph.py:83-90 | removing either edge that enters that cycle node leaves no node entered twice and every cycle node and every other node of the subtree entered |
| Decoder.ExpansionCut | graph.py:83-90 | with a subtree edge into the new node and one edge per pair, the expansion enters every node the graph enters, each once |
| Decoder.ExpansionRemoves | graph.py:88 | when the loop picks an edge, the expansion is the list after `list.remove` of it |
| Decoder.ExpansionBranching | graph.py:83-90 | with one edge per pair, the expansion of a branching of the recursive graph is a branching of the graph |
| Decoder.RestoreAll | graph.py:83-85 | the images of the subtree followed by the cycle choices |
| Decoder.RemoveEntered | graph.py:86-89 | the list less the first occurrence of the edge the removal loop picks, or unchanged |
| Decoder.Expand | graph.py:83-90 | exactly the images of the decoded subtree plus the cycle choices, less the picked edge |
| Decoder.NodesOf | graph.py:50 | `cycle_nodes` lists the targets of the cycle, in order |
| Decoder.Resolve | graph.py:50-90 | the cycle case: the cycle nodes are the targets of the cycle; the recursive graph is well formed, smaller and joins each pair once; the decoded subtree is a branching of it; the result is exactly the expansion of that subtree, holds only edges of the graph, and is a branching of the graph when no two of its edges join the same pair |
| Decoder.Cle | graph.py:27-90 | every returned edge is an edge of the graph; when no chain returns, the result is `min_edges` itself; otherwise no entry is missing; when no two edges join the same pair, the returned edges enter every non-root node that has an incoming edge, and no node twice |
| Corpus.RowSound | model.py:14-15 | the pairs of one row have head h and a dependent in 1 .. d - 1 other than h |
| Corpus.Row | model.py:14-15 | defines the pairs (h, d') of the inner loop for d' below d, skipping d' == h |
| Corpus.Rows | model.py:13-15 | defines the pairs of the loops for the heads below h |
| Corpus.Pairs | model.py:13-15 | defines the pairs of both loops over a sentence of n tokens, in loop order |
| Corpus.RowsSound | model.py:13-15 | the listed pairs are candidate pairs with heads below h |
| Corpus.RowComplete | model.py:14-15 | every dependent of the row appears |
| Corpus.RowIncreasing | model.py:14 | a row lists dependents in increasing order |
| Corpus.RowsComplete | model.py:13-15 | every candidate pair with a head below h appears |
| Corpus.RowsIncreasing | model.py:13-15 | the pairs are listed strictly by head, then dependent |
| Corpus.PairsExact | model.py:13-15 | the loops visit exactly the candidate pairs, each once, in loop order |
| Corpus.PairsCount | model.py:29-40 | a sentence of n >= 1 tokens has (n - 1)^2 candidate pairs |
| Corpus.NewToken | corpus.py:5-10 | form, head and relation as given; a missing or empty lemma becomes "(none)" and a missing or empty POS "(NONE)" |
| Corpus.OrDefault | corpus.py:9-10 | defines Python's `x or default` on an optional string: `None` and "" both give the default |
| Corpus.RootToken | corpus.py:20 | the root: form "ROOT", POS "(ROOT)", lemma "(none)", no head or relation |
| Corpus.Unannotated | corpus.py:18 | the copy of a token keeps form, lemma and POS and drops head and relation |
| Corpus.Copied | corpus.py:17-20 | a non-empty source is copied entry by entry without annotation; an empty one gives the root alone |
| Corpus.UnannotatedIdempotent | corpus.py:18 | copying a copy changes nothing |
| Corpus.Sentence.constructor | corpus.py:16-21 | `Sentence(source)` holds the unannotated copy of a non-empty source, and the root alone otherwise; the feature map is empty |
| Corpus.Sentence.Length | corpus.py:23-24 | the number of tokens |
| Corpus.Sentence.At | corpus.py:26-27 | `tokens[n]`, a negative n counting from the end |
| Corpus.Sentence.Append | corpus.py:29-30 | the token becomes the new last entry; earlier tokens and the feature map are unchanged |
| Tables.Bump | model.py:22-24 | one observation adds 1 to the count of (f, l) and changes no other count |
| Tables.Count | model.py:24 | defines `weights[f].get(l, 0)`, 0 for a missing feature |
| Tables.Sum | model.py:17 | defines the sum of the values of a map |
| Tables.Total | model.py:17 | defines the sum of the sums of the inner tables |
| Tables.BumpAllCount | model.py:20-24 | observing the features of a list adds, per feature, its number of occurrences, under the given label only |
| Tables.SumRemove | model.py:17 | a sum of values does not depend on the order in which keys are taken |
| Tables.SumUpdate | model.py:24 | setting one entry changes the sum by the difference |
| Tables.TotalBump | model.py:17-24 | one observation adds 1 to the total |
| Tables.TotalBumpAll | model.py:17-24 | observing a list of features adds its length to the total |
| Tables.SumValues | model.py:17 | `sum(m.values())` |
| Tables.TableTotal | model.py:17 | the sum of all counts of a table |
| Training.PairsObservable | model.py:13-16 | every pair the loops visit has a feature entry |
| Training.Observe | model.py:19-24 | defines `_train_(s, h, d)`: every feature id of the pair observed with the dependent's relation, in the positive table when h is the gold head and in the negative one otherwise |
| Training.ObserveAll | model.py:12-24 | defines `_train_` on a list of pairs, in order |
| Training.ObserveSentence | model.py:13-16 | defines the loops of `train` over one sentence |
| Training.ObserveCorpus | model.py:12-16 | defines the loops of `train` over a corpus |
| Training.ObserveRowStep | model.py:14-16 | one step of the inner loop observes (h, d) unless h == d |
| Training.ObserveAllAppend | model.py:12-16 | observing two lists of pairs in turn is observing their concatenation |
| Training.ObserveCounts | model.py:19-24 | one `_train_` call adds the occurrences of f to the count of (f, l) in the table the pair's gold-ness selects, when l is the dependent's relation; the other table is unchanged |
| Training.ObserveAllCounts | model.py:12-24 | after training on pairs, the positive count of (f, l) has grown by the occurrences of f on gold pairs with relation l, and the negative count by those on the other pairs |
| Training.ObserveAllTotal | model.py:12-24 | the two totals together grow by the number of feature ids visited |
| Corpus.Golds | model.py:54 | the token lists of the corpus, in order |
| ParserModel.FeatureMaps | model.py:54 | the feature maps of the corpus, in order |
| ParserModel.AllPredictedSnoc | model.py:54-57 | one more predicted sentence extends the list of predictions |
| ParserModel.PredictedHeads | model.py:41-44 | a prediction leaves the root as copied and gives every other token t the copy with a head h of a candidate pair (h, t) and the label the scorer gives that pair |
| ParserModel.TalliedSnoc | model.py:58-70 | one more sentence adds its token and sentence counts to the five counters |
| ParserModel.Model.constructor | model.py:6-9 | empty tables and a ratio of 1 |
| ParserModel.Model.TrainPair | model.py:19-24 | the tables become those after observing (h, d); the ratio is unchanged |
| ParserModel.Model.TrainSentence | model.py:13-16 | the tables become those after observing every candidate pair of the sentence in loop order |
| ParserModel.Model.Train | model.py:11-17 | the tables become those after observing the corpus; division by zero exactly when the positive total is 0, leaving the ratio unchanged; otherwise the ratio is negative total over positive total |
| ParserModel.Model.ScoreRow | model.py:30-40 | the edges of head h's row are appended, numbered on from the edges before them |
| ParserModel.Model.ScoreEdges | model.py:28-41 | the edge list is the graph over every candidate pair in loop order, each edge with the pair's score |
| ParserModel.Model.Predict | model.py:26-45 | a fresh sentence: the unannotated copy, annotated in order by the decoded edges; these form a branching of the graph of candidate pairs, one edge into every non-root token; when no chain of chosen edges returns, they are the chosen edges themselves |
| ParserModel.Model.WriteTree | model.py:42-44 | each edge in turn sets its target's head to its origin and relation to its label; the feature map is unchanged |
| ParserModel.Model.TestSentence | model.py:58-68 | the counts of right heads and of right heads and relations over tokens 1 .. n - 1, the number of scored tokens, and whether some head or some label is wrong |
| ParserModel.Model.TestOne | model.py:55-68 | the same counts for the prediction of the sentence, which is the copy annotated by a branching of its graph of candidate pairs |
| ParserModel.Model.TestStep | model.py:55-70 | the counters grow by the counts of the next sentence |
| ParserModel.Model.Test | model.py:47-74 | the report over the corpus and the predictions of its sentences, each the copy annotated by a branching of its graph of candidate pairs |
| Prediction.RowArcsPrefix | model.py:29-40 | the edges up to (h, d) are those of the earlier rows followed by row h so far |
| Prediction.Arcs | model.py:40-41 | defines the edge list of a list of pairs: edge k joins pair k with the cost and label the scorer gives its features |
| Prediction.RowArcs | model.py:30-40 | defines the edges appended for head h and the dependents below d |
| Prediction.PredictGraph | model.py:28-41 | defines the graph of `predict`: one node per token and the edges of all candidate pairs in loop order |
| Prediction.PrefixKeys | model.py:34 | every pair visited so far has a feature entry |
| Prediction.PredictGraphWellFormed | model.py:41 | the graph of `predict` is one the decoder accepts |
| Prediction.PredictGraphScores | model.py:29-40 | every edge joins a candidate pair and carries the score of the pair's features |
| Prediction.PredictGraphPairs | model.py:29-40 | an edge from h to d exists exactly for the candidate pairs, and there are (n - 1)^2 edges |
| Prediction.PredictGraphOnePerPair | model.py:29-41 | no two edges of the graph of `predict` join the same pair |
| Prediction.ArcIndex | model.py:29-40 | of two edges into the same node, the one from the lower head comes first |
| Prediction.ChosenArc | graph.py:32-33 | the chosen edge of a dependent is a least-cost edge into it, cheaper than every earlier one |
| Prediction.ArcOf | model.py:29-40 | the edge of a candidate pair and its cost |
| Prediction.GreedyHead | graph.py:32-33 | the chosen edge of every dependent exists, comes from a candidate head, carries the pair's score, and its cost is the least over all heads and strictly below that of every lower head |
| Prediction.LastInto | model.py:42-44 | the last edge into node i, none exactly when no edge enters i |
| Prediction.Annotate | model.py:42-44 | the write-back keeps the number of tokens |
| Prediction.Headed | model.py:43-44 | defines the write-back of one edge: head and relation replaced, the rest of the token kept |
| Prediction.AnnotateEntry | model.py:42-44 | token i takes head and relation from the last edge into i, and is unchanged when none enters it |
| Prediction.AnnotateSnoc | model.py:42-44 | one more edge writes its origin and label into its target only |
| Prediction.PresentAppend | graph.py:81 | filtering a concatenation is concatenating the filtered parts |
| Prediction.ArcsSnoc | model.py:40 | each visited pair appends one edge with its score, numbered by its position |
| Prediction.AnnotateChosen | model.py:42-44 | with the chosen edges as the tree, every dependent takes head and relation from its chosen edge, and the root is unchanged |
| Prediction.BranchingToken | model.py:41-44 | with a branching of the graph of `predict` as the tree, the root is unchanged and every other token t takes head and label from the one edge of the tree into t, which joins a candidate pair |
| Prediction.BranchingInto | model.py:41-44 | a branching of the graph of `predict` has exactly one edge into every non-root token, and it joins a candidate pair |
| Prediction.BranchingHead | model.py:41-44 | the head and label a branching writes into a non-root token come from a candidate pair and its score |
| Prediction.ChosenEverywhere | graph.py:32-33 | every non-root node of the graph of `predict` has a chosen edge |
| Prediction.DecodedTree | model.py:41-44 | the decoder's result for the graph of `predict` has no missing entry, and each edge enters a non-root token |
| Prediction.ChosenPrediction | model.py:27-44 | when the chosen edges are the tree, each non-root token of the copy gets the origin of its cheapest incoming edge as head and that edge's label as relation |
| Evaluation.TotalsSnoc | model.py:54-70 | the counters over a corpus grow by the counts of its last sentence |
| Evaluation.UnlabeledUpTo | model.py:58-60 | defines the number of tokens 1 .. i - 1 with the gold head |
| Evaluation.LabeledUpTo | model.py:58-62 | defines the number of tokens 1 .. i - 1 with the gold head and relation |
| Evaluation.Scored | model.py:58 | defines the number of tokens `range(1, n)` scores |
| Evaluation.TokenTotal | model.py:68 | defines `tok_total` over a corpus |
| Evaluation.Report | model.py:71-74 | defines the result of `test`: the four quotients, or division by zero when `tok_total` is 0 |
| Evaluation.UpToBounds | model.py:58-68 | right labels are at most right heads, which are at most the scored tokens |
| Evaluation.CompleteIffAllRight | model.py:59-70 | a sentence is a complete match exactly when all its scored tokens are right |
| Evaluation.TotalBounds | model.py:58-70 | LAS count <= UAS count <= tokens scored; LCM count <= UCM count <= sentences |
| Evaluation.ReportFacts | model.py:71-74 | division by zero exactly when no token is scored; otherwise every score lies in [0, 1], LAS <= UAS and LCM <= UCM |
| Evaluation.PerfectTotals | model.py:58-74 | a prediction right on every scored token scores every token and sentence as right |
| Strings.LowerChar | feature_extractor.py:65-68 | an upper-case ASCII letter becomes its lower-case letter; any other character is kept |
| Strings.Lower | feature_extractor.py:65-68 | `str.lower`, character by character |
| Strings.LowerIdempotent | feature_extractor.py:65-68 | lower-casing twice is lower-casing once |
| Strings.Join | feature_extractor.py:71-79 | joining no parts gives "", one part gives that part |
| Strings.FirstIndex | feature_extractor.py:79 | the first occurrence of a character |
| Strings.Split | feature_extractor.py:71 | the pieces between separators, none holding the separator |
| Strings.SplitJoin | feature_extractor.py:71-79 | splitting a join at its separator gives the parts back when none holds the separator |
| Strings.NatToString | feature_extractor.py:77 | `str(n)`: decimal digits without a leading zero |
| Strings.ParseNatToString | feature_extractor.py:77 | reading `str(n)` back gives n |
| Strings.NatToStringInjective | feature_extractor.py:77 | distinct distances have distinct strings |
| Strings.Insert | feature_extractor.py:60 | inserting into a sorted list keeps it sorted and adds the element |
| Strings.Sort | feature_extractor.py:60 | `sorted`: an ascending permutation |
| Strings.SortedUnique | feature_extractor.py:60 | there is only one ascending permutation |
| Features.Name | feature_extractor.py:64-78 | the key of a feature is non-empty and holds no ':' |
| Features.NameInjective | feature_extractor.py:64-78 | distinct features have distinct keys |
| Features.DefaultTemplates | feature_extractor.py:17-32 | fourteen templates, each of weight 1.0 and each using the direction |
| Features.PosRange | feature_extractor.py:71 | the POS tags of `s[lo:hi]`, in order |
| Features.BetweenPos | feature_extractor.py:71 | `bpos`: never empty |
| Features.BetweenPosTags | feature_extractor.py:71 | `bpos` is "(EMPTY)" for adjacent tokens, and otherwise splits back into the tags of `s[min(h, d) : max(h, d) - 1]`, which starts at the nearer token itself |
| Features.BetweenPosAdjacent | feature_extractor.py:71 | adjacent tokens give "(EMPTY)" |
| Features.BetweenPosSplit | feature_extractor.py:71 | the joined tags split back into one tag per token of the slice |
| Features.DirFeature | feature_extractor.py:76 | `dir` is "left" exactly when h > d, and "right" exactly when h < d |
| Features.HeadNextPos | feature_extractor.py:72 | defines `hpos+1`: "(ROOT)" for the root, the next token's POS, or " " past the end |
| Features.HeadPrevPos | feature_extractor.py:74 | defines `hpos-1`: "(ROOT)" for the root, the previous token's POS, or " " next to the root |
| Features.Distance | feature_extractor.py:77 | `abs(h - d)`: zero exactly when h == d, and the difference of the two positions |
| Features.FeatureValue | feature_extractor.py:64-78 | defines the thirteen features of a pair |
| Features.FeatureString | feature_extractor.py:79 | defines a feature string: the names joined by '+', ':', and the values joined by '+' |
| Features.DistFeature | feature_extractor.py:77 | `dist` reads back as the positive distance |
| Features.RootAndBetween | feature_extractor.py:71-74 | `hpos+1` and `hpos-1` of the root are "(ROOT)", and `bpos` is never empty |
| Features.Names | feature_extractor.py:79 | the keys of a template, in order |
| Features.FeatureValues | feature_extractor.py:79 | the values of a template's features, in order |
| Features.FeatureStringParts | feature_extractor.py:79 | a feature string splits at its first ':' into the joined keys and the joined values |
| Features.JoinAvoids | feature_extractor.py:79 | a join of parts without c, by a separator other than c, holds no c |
| Features.FeatureStringsDiffer | feature_extractor.py:79 | templates with different joined keys give different feature strings |
| Features.PairFeatures | feature_extractor.py:63-79 | one (feature string, weight) per template, in template order |
| Extractor.Ids | feature_extractor.py:60 | the id of each string, in order |
| Extractor.IdOf | feature_extractor.py:40-42 | defines the id `lookup` returns: the stored id of a known string, the size of the map for an unknown one |
| Extractor.Firsts | feature_extractor.py:59-60 | the strings of the pairs, in order |
| Extractor.Chosen | feature_extractor.py:59 | `templates or self.templates`: the given templates unless there are none |
| Extractor.IdsStable | feature_extractor.py:40-46 | ids stay the same when the map grows by strings the list does not use |
| Extractor.ExtractedStable | feature_extractor.py:55-60 | a sentence stays extracted when the map grows while strings are added |
| Extractor.ProgressStep | feature_extractor.py:58-60 | storing the sorted ids of a candidate pair advances the loops by one pair |
| Extractor.ProgressSkip | feature_extractor.py:58 | a pair with h == d or d == 0 is skipped without change |
| Extractor.ProgressDone | feature_extractor.py:56-60 | after the loops every candidate pair is set and no other key changed |
| Extractor.LookupStep | feature_extractor.py:59-60 | one lookup keeps the earlier ids and appends the next |
| Extractor.InjectiveCard | feature_extractor.py:42-44 | distinct ids are as many as strings |
| Extractor.FeatureExtractor.IdsAreRange | feature_extractor.py:42-45 | the ids in use are exactly 0 .. len - 1 |
| Extractor.FeatureExtractor.constructor | feature_extractor.py:4-32 | empty string map and weights; the default templates when none are given |
| Extractor.FeatureExtractor.Lookup | feature_extractor.py:34-46 | a known string gives its id and changes nothing; an unknown one gives the old size, which no stored string uses; it is added under that id with its weight only when `add_new` holds; ids stay 0 .. len - 1 with one weight each |
| Extractor.FeatureExtractor.LookupAll | feature_extractor.py:59-60 | the ids of the features against the final map, in order; with `add_new` the new map and weights are those of `lookup` applied to each string in turn (`InternAll`), and without it nothing changes |
| Extractor.FeatureExtractor.ExtractSentence | feature_extractor.py:56-60 | every candidate pair gets the sorted ids of its feature strings against the final map; no other key and no token changes; with `add_new` the new map and weights are those of `lookup` over the sentence's features in loop order (`SentenceFeatures`), and without it nothing changes |
| Extractor.FeatureExtractor.ExtractStep | feature_extractor.py:55-60 | one more sentence of the corpus is extracted and the earlier ones stay so; with `add_new` the map and weights grow from the fold over the earlier sentences' features to the fold over one sentence more |
| Extractor.FeatureExtractor.ExtractFeatures | feature_extractor.py:48-60 | every sentence ends with the sorted ids of its candidate pairs' features against the final map, using the given or the default templates; tokens and other keys unchanged; with `add_new` the final map and weights are those of `lookup` over the features of the whole corpus in loop order (`CorpusFeatures`), and without it nothing changes |
| Extractor.FeatureExtractor.ExtractRow | feature_extractor.py:57-60 | the inner loop over the dependents of head h: from the state before (h, 0) to the state before (h + 1, 0) (`PairsState`) |
| Extractor.FeatureExtractor.ExtractPair | feature_extractor.py:58-60 | one dependent d of head h: from the state before (h, d) to the state before (h, d + 1) |
| Extractor.Intern | feature_extractor.py:40-46 | defines `lookup` with `add_new` on the string map and weights: a known string changes nothing, a new one gets the next free id and its weight is appended |
| Extractor.InternAll | feature_extractor.py:59-60 | defines `lookup` with `add_new` of a list of strings, left to right |
| Extractor.InternAllAppend | feature_extractor.py:55-60 | looking up a + b is looking up a, then b from the state a left |
| Extractor.InternAllKeeps | feature_extractor.py:40-46 | looking up keeps every entry and every weight, and appends one weight per new string |
| Extractor.InternAllHas | feature_extractor.py:43-44 | after looking up a list with `add_new`, every string of it is in the map |
| Extractor.InternAllOnly | feature_extractor.py:43-44 | looking up a list adds no string outside it |
| Extractor.InternFirst | feature_extractor.py:42-45 | the first occurrence of a string new to the map gets the size the map had then as its id, and its weight is stored under that id; later lookups keep both |
| Extractor.InternLater | feature_extractor.py:40-41 | later lookups keep the id of a stored string and every stored weight |
| Extractor.InternAllSnoc | feature_extractor.py:59-60 | looking up one string more is one more `lookup` |
| Extractor.FeaturesBefore | feature_extractor.py:56-60 | defines the features the loops look up before pair (h, d): the rows of the heads below h, then the dependents of h below d, candidate pairs only |
| Extractor.SentenceFeatures | feature_extractor.py:55-60 | defines the features looked up for one sentence, in loop order |
| Extractor.InternedBefore | feature_extractor.py:56-60 | defines the map and weights the loops reach before pair (h, d), one pair at a time |
| Extractor.InternedBeforeAll | feature_extractor.py:56-60 | the state reached pair by pair is `lookup` over all the features before (h, d) in one fold |
| Extractor.CorpusFeatures | feature_extractor.py:55-60 | defines the features looked up for a corpus, sentence after sentence |
| Extractor.CorpusNext | feature_extractor.py:55 | looking up the features of sentence i after those of the sentences before it is the fold over the first i + 1 sentences |
| Extractor.CorpusFeaturesDone | feature_extractor.py:55 | after the last sentence the fold covers the whole corpus |
| Extractor.PairsStateStart | feature_extractor.py:56-57 | before the first pair, no pair is done and nothing is looked up |
| Extractor.PairsStateRow | feature_extractor.py:56-57 | the end of the row of head h is the start of the row of h + 1 |
| Extractor.PairsStateDone | feature_extractor.py:56-60 | after the loops every candidate pair is done, other keys are kept, and the map and weights are those of `lookup` over the sentence's features in loop order with `add_new` and unchanged without it |
| Extractor.CorpusStart | feature_extractor.py:55 | at the start of the pass over the corpus no sentence is done |
| Extractor.CorpusDone | feature_extractor.py:55 | at the end every sentence of the corpus is extracted, keeps its other keys and its tokens |
| Extractor.KeepsOthersTrans | feature_extractor.py:55-60 | a sentence met twice in the corpus keeps the other keys of its original features after its second pass |
| Extractor.ProgressRow | feature_extractor.py:56-57 | the end of a row of the inner loop is the start of the next row |
| Counting.DistinctInRange | graph.py:38 | pigeonhole: distinct integers from [lo, hi) number at most hi - lo |
| Counting.DistinctWithin | graph.py:38 | distinct elements taken from a list are no more than the list |

## Left out

- Scoring in `predict` (model.py:33-39) uses logarithms of the counts, the ratio and an infinite cost for pairs without evidence. It is floating-point arithmetic. `Predict` and `Test` take the cost and label of a pair as a function `Scorer` of its feature ids, and costs are integers. The link between the weight tables and the scores is not modelled.
- The float divisions of `ratio` and of the four scores (model.py:17, 71-74) are kept as numerator and denominator (`Fraction`). Python's `ZeroDivisionError` is the `ZeroDivision` error of a `Result`.
- When `train` divides by zero, Python raises after the tables were updated. `Train` returns the error with the updated tables and the old ratio.
- Template weights are floats (feature_extractor.py:17-32, 45). They are carried as `real` values and never inspected. A `None` weight for `lookup` is not modelled.
- Templates are a dictionary from key tuples to weights. They are modelled as a list of (feature names, weight) in insertion order. `None` and an empty dictionary are both the empty list, as `templates or ...` treats them alike.
- `Edge.__repr__` and `__str__` (graph.py:8-12) are debug output.
- Missing dictionary keys and out-of-range indices, which raise `KeyError` or `IndexError` in Python, are excluded by preconditions. These cover `s.features[(h, d)]` (`HasPairs`, `Prepared`), `old_edges[e]` (`Restorable`) and `s[n]`.
- Strings.Lower: lower-cases ASCII letters only; `str.lower` on other Unicode letters is not modelled.
- Strings.LowerChar: maps only the ASCII letters A-Z to a-z; the case mapping of other Unicode characters that `str.lower` applies is not modelled.
- Contraction.MinPerPair: states that each listed edge is a cheapest edge of its pair, not which of several equal-cost edges Python's set iteration picks (graph.py:70-77).
- Decoder.Cle: does not prove the docstring's promise that the result is a minimum spanning arborescence (graph.py:28-29). Acyclicity and least total cost are not proved. It proves that every returned edge is an edge of the graph, and that the result is `min_edges` when no chain returns. It also proves that the result enters every non-root node that has an incoming edge, and no node twice, when no two edges of the graph join the same pair of nodes. That condition holds of the graph `predict` builds and of every graph the recursion builds.
- Decoder.Cle: with two edges joining the same pair, the code as written can enter a node twice. An example is three nodes with edges 1->2 cost 5, 1->2 cost 1, 2->1 cost 1, 0->1 cost 10 and 0->2 cost 10. The chosen edges 2->1 and the cheaper 1->2 close a cycle. The removal loop asks `get_edge` for the first edge 1->2, which is not among the restored edges, so nothing is removed and node 2 keeps two incoming edges. The model does not restate this case as a lemma.
- ParserModel.Model.Predict: the decoded tree is a ghost out-parameter. It is proved to be a branching of the graph of candidate pairs that annotates the prediction, and to be the chosen edges when no chain returns. That it is the least-cost arborescence is not proved (see Decoder.Cle).
- ParserModel.Model.TestOne: the prediction it scores is known to be the copy annotated by a branching of the sentence's graph, one head per non-root token. That the branching is the least-cost arborescence is not proved (see Decoder.Cle).
- ParserModel.Model.Test: the same holds of every prediction it scores (see ParserModel.Model.TestOne).
- Loops that the source writes inline are split into methods of their own, with the same iterations: `ScoreRow`, `WriteTree`, `TestSentence`/`TestOne`/`TestStep`, `TraceFrom`, `RestoreAll`/`RemoveEntered` and `ExtractStep`.
- Aliasing: a sentence that occurs several times in a corpus is one object, and `ExtractFeatures` handles that. Other aliasing between the model, the extractor and the sentences is not modelled.
