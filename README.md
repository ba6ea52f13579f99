# topsbm hierarchy adapters, modelled in Dafny

topsbm fits a hierarchical stochastic block model to a corpus. For every level of the
hierarchy, the fitted model gives a membership matrix per kind of leaf, with one row per
cluster and one column per document or word. This project models and proves the adapter
code that sits on top of the fit:

- **The hierarchy graph builder** (`group_membership_digraphs_of` in `atap_wrapper.py`).
  - It checks its arguments.
  - It seeds the leaves, optionally with a `category`.
  - It adds the `Level_{k}_{i}` cluster nodes, which carry `level` and `is_root`.
  - At level 0 it links each cluster to its member leaves.
  - At a higher level it walks back through the edges already in the graph to find each member leaf's clusters on the level below.
  - Finally it prunes, in one pass, the non-root nodes that no edge points to.
- **The earlier builder** (`group_membership_digraphs_of` in `wrapper2.py`).
  - Its clusters are `L{layer}_{i}`.
  - It asserts that each matrix has one column per leaf.
  - Its leaf loop has a `break` when a member leaf has no lineage.
  - It does not prune.
- **The visualiser** (`Viz` in `atap_wrapper.py`).
  - It needs exactly one root.
  - It shows depths 0 to the root's level.
  - It caches one rendered view per depth. The cache starts with depth 0, is filled lazily and never overwritten.
- **`add_results`**: writes one meta column per level into the corpus. The column holds each document's most likely cluster (numpy `argmax`, first index on ties) and is named `topsbm_lvl_{level}_cluster`.
- **`topic_dist_of`**: the per-topic document distributions.

How the graph is modelled:

- The networkx `DiGraph` is the class `Graphs.DiGraph`. Its node-attribute map and weighted-edge map are updated in place by `AddNodesFrom`, `AddEdge` and `RemoveNodesFrom`:
  - a node's attribute dictionary is modelled as one `Attrs` value, which the last non-empty item replaces. networkx merges dictionaries key by key (`dict.update`). The two agree here because a node only ever receives one kind of dictionary: leaves get `category`, clusters get `kind`/`level`/`is_root` (or `kind`/`layer`). This relies on no leaf label having the form of a cluster name;
  - the last weight written wins;
  - removing a node drops the edges that touch it.
- Each builder is a method that fills one local `DiGraph` with the same loops as the source. Its result is proved equal to a reference hierarchy that is defined from the matrices alone (module `Hierarchy`).
- The properties are proved about that reference hierarchy: which nodes survive, which node is the root, which edges exist and with which weights.
- Node names are modelled as the strings the source builds. Lemmas prove that the `startswith` tests select exactly the clusters of one level.

Code outside this repository enters as values:

- the fitted model's matrices, documents and words;
- the indices `top_word_indices_for_level` returns;
- the views that `merge_leafs_per_depth` and `embed_js` would produce;
- whether the model has been fitted.

Two behaviours of the code differ from what one would expect of a hierarchy builder. The model follows the code:

- One would expect one category per retained leaf. Instead the categories list is compared with the number of all leaves (`len(leaf_nodes)`, `atap_wrapper.py:271`).
- One would expect the pruned graph to be a tree reachable from the root. But the pruning is a single pass (`atap_wrapper.py:336-341`): a cluster whose only parent is pruned stays in the graph with nothing pointing to it. `AtapGraph.SinglePassKeepsUnreachable` exhibits such a graph.

## Model

| member | source | states |
|---|---|---|
| Graphs.DiGraph.AddNodesFrom | atap_wrapper.py:282-289 | `add_nodes_from` adds the missing nodes. The last item that carries attributes sets a node's attributes; items without attributes leave an existing node alone; the edges are unchanged. |
| Graphs.DiGraph.AddEdge | atap_wrapper.py:314 | `add_edge` adds missing endpoints without attributes and overwrites the weight of an existing edge. Other nodes keep their attributes. |
| Graphs.DiGraph.RemoveNodesFrom | atap_wrapper.py:341 | `remove_nodes_from` drops the nodes and exactly the edges that touch one of them. |
| Graphs.AddEdgesTo | atap_wrapper.py:333-334 | Adding an edge from `cluster` to every prior cluster writes the same weight on exactly those edges and leaves every other edge as it was. |
| Graphs.WalkDepth | atap_wrapper.py:318-331 | In a layered graph, every node `n` steps above a leaf is a cluster `n` levels higher. |
| Graphs.AssignedSource | atap_wrapper.py:303 | After `add_nodes_from`, a node's attributes are its earlier ones or those of one of the items. |
| Names.DecInjective | atap_wrapper.py:295 | `str(i)` of a non-negative int is injective. |
| Names.LevelPrefixTest | atap_wrapper.py:323-325 | `name.startswith("Level_{l}_")` holds for a cluster name exactly when the cluster is on level `l`. |
| Names.LevelNamesDistinct | atap_wrapper.py:294-297 | Two clusters with the same `Level_{k}_{i}` name have the same level and index. |
| Names.UnderscoreNeeded | atap_wrapper.py:279 | Without the trailing `_`, the prefix of level 1 would also match the clusters of level 10. |
| Names.LayerPrefixTest | wrapper2.py:52 | `src.startswith(f"L{l_tmp}_")` holds exactly for the clusters of layer `l_tmp`. |
| Names.LayerZeroTest | wrapper2.py:46-48 | The layer-1 test `startswith("L0")` has no `_`, yet it still matches exactly the clusters of layer 0. |
| Hierarchy.LevelIff | atap_wrapper.py:304-334 | An edge belongs to level `k` exactly when it leaves a level-`k` cluster for a node justified by a member leaf that the leaf loop reached. |
| Hierarchy.UptoIff | atap_wrapper.py:292 | The edges of the levels below `K` are exactly the edges of each level `k < K`. |
| Hierarchy.UptoLayered | atap_wrapper.py:313-334 | Every edge leaves a cluster for a node exactly one level lower, and both ends are nodes the builder added. |
| Hierarchy.BelowShape | atap_wrapper.py:313-331 | A level-0 cluster's member leaf has the leaf itself below it. At a higher level, what lies below is clusters of the next level down. |
| Hierarchy.WalkAgrees | atap_wrapper.py:318-331 | The backward walk over the edges of the finished lower levels reaches a leaf's ancestors on level `t-1`. Edges of the current level, which point one level lower, do not disturb it. |
| Hierarchy.RowStateStep | atap_wrapper.py:305-334 | One turn of the leaf loop writes the new leaf's edges with its weight. Afterwards the graph holds exactly the edges and last-written weights of the positions seen so far. |
| Hierarchy.RowStateWalk | atap_wrapper.py:318-331 | During the leaf loop of level `level`, the walk `level` steps up from a leaf gives exactly the nodes its new edges must reach. |
| Hierarchy.LastWeightWitness | atap_wrapper.py:306-314 | The weight on an edge is the positive membership of the last leaf position that justified it. |
| Hierarchy.Stopped | wrapper2.py:54-55 | Once the leaf loop has ended, later positions add no edge and change no weight. |
| Hierarchy.AliveIff | wrapper2.py:54-55 | The leaf loop is still running at position `J` exactly when there is no `break`, or no earlier member leaf was without lineage. |
| Hierarchy.WalkBelow | atap_wrapper.py:318-332 | In the finished graph, the walk `k` steps up from a leaf reaches exactly the nodes a level-`k` cluster holding it points to. |
| AtapBuilder.MismatchMessageNamesCounts | atap_wrapper.py:275-277 | The category mismatch message contains both the number of categories and the number of leaves. |
| AtapBuilder.SpecOfFits | atap_wrapper.py:249-266 | From a model whose matrices have one column per leaf, and valid top-word indices, the builder's label positions stay inside every matrix row. |
| AtapBuilder.SeedNodes | atap_wrapper.py:281-289 | Seeding gives exactly the retained leaves. Each one has the category of its last label position, or no attributes. |
| AtapBuilder.NodesStep | atap_wrapper.py:294-303 | Adding the clusters of level `k` with `kind`, `level` and `is_root` (true exactly on the top level) gives the nodes of the levels up to `k`. |
| AtapBuilder.PriorClusters | atap_wrapper.py:318-332 | The filter, edge-rescan and `startswith` loop returns exactly the nodes `level` steps above the leaf. |
| AtapBuilder.AddLeafEdges | atap_wrapper.py:306-334 | One membership of the leaf loop adds the edges the reference hierarchy assigns to it, with its weight. |
| AtapBuilder.AddClusterEdges | atap_wrapper.py:304-334 | After the leaf loop of cluster `c`, the graph holds the finished edges of every cluster up to `c`, with their reference weights. |
| AtapBuilder.AddLevelEdges | atap_wrapper.py:304-334 | After the cluster loop of a level, the graph holds exactly the reference edges of that level and the levels below it. |
| AtapBuilder.Prune | atap_wrapper.py:336-341 | A node stays exactly when it is a root or was pointed to before the pass. An edge stays exactly when neither end was removed. Attributes and weights are kept. |
| AtapBuilder.BuildGraph | atap_wrapper.py:279-342 | The seeded, looped and pruned graph equals the pruned reference hierarchy. |
| AtapBuilder.GroupMembershipDigraphOf | atap_wrapper.py:223-342 | For words, a level above the top gives `Maximum level is {levels-1}` and a negative one gives `Minimum level is 0.`; then a category count that differs from the leaf count is an error. These errors come in this order, it succeeds exactly when none applies, and the result is the pruned reference hierarchy. |
| AtapGraph.LeafNotRoot | atap_wrapper.py:281-289 | Leaves never carry `is_root`. Without categories they carry no attributes. |
| AtapGraph.EdgeEnds | atap_wrapper.py:304-334 | Every edge of the hierarchy leaves a cluster for a node one level lower, and both ends are in the unpruned graph. |
| AtapGraph.LeafSurvives | atap_wrapper.py:304-314 | A leaf survives the pruning exactly when it has a positive membership in some level-0 cluster. |
| AtapGraph.ClusterTarget | atap_wrapper.py:337 | A cluster is pointed to exactly when some cluster of the next level links to it. |
| AtapGraph.ClusterSurvives | atap_wrapper.py:336-341 | A cluster survives exactly when it is on the top level or a cluster of the next level links to it. |
| AtapGraph.BuiltRoots | atap_wrapper.py:298-303 | The roots of the finished graph are exactly the clusters of the top level, so there are as many roots as top-level clusters. |
| AtapGraph.LeafCategory | atap_wrapper.py:281-289 | A retained leaf has no attributes without categories. With categories, it has the category of the last label position naming it. |
| AtapGraph.EdgeIff | atap_wrapper.py:305-334 | Cluster `c` of level `k` points to `v` exactly when some member leaf has `v` `k` steps above it. The edge's weight is the membership of such a leaf. |
| AtapGraph.BuiltEdges | atap_wrapper.py:336-342 | An edge survives exactly when its source is on the top level or is pointed to. Surviving edges join retained nodes one level apart, with their original positive weight. |
| AtapGraph.SinglePassKeepsUnreachable | atap_wrapper.py:336-341 | With one document, a level-2 root that has no members keeps a non-root level-0 cluster that no edge of the pruned graph reaches. |
| EarlierBuilder.PriorEdges | wrapper2.py:46-53 | Both branches, the `startswith("L0")` branch of layer 1 and the rescan loop of later layers, return exactly the edges into the nodes `layer-1` steps above the leaf. |
| EarlierBuilder.OrphanStops | wrapper2.py:54-55 | A member leaf without lineage ends the loop, and the cluster's edges are then final. |
| EarlierBuilder.AddLeafEdges | wrapper2.py:39-59 | One turn reports a `break` exactly when the loop stops at this position, and adds the reference edges of this position otherwise. |
| EarlierBuilder.AddClusterEdges | wrapper2.py:37-59 | The leaf loop of cluster `c` visits every leaf in order and leaves at its `break`. Afterwards the graph holds the finished edges of every cluster up to `c`, with their reference weights. |
| EarlierBuilder.AddLayerEdges | wrapper2.py:37-59 | After the cluster loop of a layer, the graph holds exactly the reference edges up to that layer. |
| EarlierBuilder.LeafNodesSeeded | wrapper2.py:30 | Seeding gives every leaf, without attributes. |
| EarlierBuilder.LayerNodesStep | wrapper2.py:35-36 | The `L{layer}_{i}` clusters carry `kind` and `layer`. |
| EarlierBuilder.BuildKind | wrapper2.py:28-59 | One kind fails the assertion exactly when some layer's column count differs from the number of leaves. Otherwise the graph is the reference hierarchy with the `break`, and there is no pruning. |
| EarlierBuilder.GroupMembershipDigraphsOf | wrapper2.py:14-61 | The document graph is built first, then the word graph. The first mismatch is reported; otherwise the result is both graphs, in that order. |
| EarlierBuilder.EarlierEdgeIff | wrapper2.py:37-59 | A cluster points to `v` exactly when a member leaf has `v` `k` steps above it and no earlier member leaf of that cluster lost its lineage. |
| EarlierBuilder.EarlierEdges | wrapper2.py:42-59 | Every edge of an earlier graph joins two of its nodes one layer apart, with a positive weight. |
| EarlierBuilder.BreakDropsEdge | wrapper2.py:54-55 | With the `break`, an orphan leaf that comes first costs the layer-1 cluster its edge to the layer-0 cluster of a later member. Without the `break`, the edge is there. |
| Visualise.NewViz | atap_wrapper.py:97-131 | Construction fails with the root count exactly when the graph does not have exactly one `is_root` node. Otherwise the new visualiser keeps the kind, layout and graph, and its cache holds only depth 0. |
| Visualise.Viz.constructor | atap_wrapper.py:104-131 | A new visualiser keeps its kind, layout and graph, and its cache holds only the initial view at depth 0. |
| Visualise.Viz.Display | atap_wrapper.py:142-164 | A depth above the maximum is an error naming the maximum; a negative depth has its own error. An uncached depth fills the cache with every merged depth not already there, without overwriting. The HTML returned is that of the cached view (`self.htmls[depth][0]`). |
| Visualise.CacheKeeps | atap_wrapper.py:155-163 | The cache only grows: every cached view stays the same, and each new entry is the merged view of its depth. |
| Visualise.DisplayIdempotent | atap_wrapper.py:150-164 | Displaying a depth a second time shows the same view and leaves the cache unchanged. |
| Visualise.CachedDepth | atap_wrapper.py:150-164 | A cached depth shows its cached HTML, and the cache stays unchanged, whatever `merge_leafs_per_depth` would give. |
| Visualise.BuiltVisualisable | atap_wrapper.py:109-140 | The builder's graph passes `Viz`'s one-root check exactly when the top level has one cluster. That cluster is then the root, and the maximum depth is the top level. |
| Results.ArgMax | atap_wrapper.py:49 | `argmax` returns an index of a largest entry, and no earlier entry is as large. |
| Results.MembershipVector | atap_wrapper.py:49 | For each document, the vector holds its first most likely group. |
| Results.MetaNamesDistinct | atap_wrapper.py:50 | Different levels get different meta names, so no level's column replaces another's. |
| Results.AddResults | atap_wrapper.py:36-52 | An unfitted model is an error. Otherwise there is one meta column per level, in level order, named `topsbm_lvl_{level}_cluster` and holding the level's membership vector. The `meta` attribute lists the same names in the same order. |
| Results.TopicDistOf | atap_wrapper.py:362-372 | The result maps every topic index, and only those, to its row of `p_tw_d`. |
| Results.TopicDistsRows | atap_wrapper.py:366-372 | Reading the distributions back in topic order gives the rows of `p_tw_d`. |

## Left out

- `wrapper.py`, the JavaScript under `viz/`, the `misc/` scripts and `utils.py` (`merge_leafs_per_depth`, `embed_js`) are not part of this model.
- `merge_leafs_per_depth`, `embed_js`, `top_word_indices_for_level`, `nx.tree_data` and the fitted model's own methods are code outside the repository core. The model takes their results as inputs: the merged views, the initial view, the top-word indices and the membership matrices.
- Visualise.NewViz: `nx.tree_data` is not modelled, including the error it raises on a graph that is not a tree. The maximum depth is read from the root's `level` attribute, which is where `tree_data` puts it.
- Visualise.BuiltVisualisable: states only that the one-root assertion (line 114) passes. `nx.tree_data` (line 117) also rejects graphs that are not trees. After the single-pass prune, a graph can have one root and still not be a tree (`AtapGraph.SinglePassKeepsUnreachable`), in which case the source's `Viz(...)` fails.
- Temporary files, the `./tmp` directory, the Jupyter `allow_hidden` probe and `srsly.write_json` are file I/O. A view is modelled as the HTML and its data file name.
- The `git` subprocess block of `add_results` (lines 54-69) and the `corpus.attribute`/`add_meta` calls are I/O into the external corpus. `AddResults` returns what would be handed to the corpus instead.
- `visualise` (lines 167-217): its enum parsing and dispatch are not modelled. The model starts from an already parsed kind and layout. The `Hierarchy[...]` lookup raises `KeyError`, but only `ValueError` is caught, so a bad layout name escapes as a `KeyError`.
- The `NotImplementedError` branches and the `isinstance` checks cannot be reached in a typed model: kinds are an enumeration, and the model and corpus are typed inputs.
- `topic_dtms_of` and `to_list_of_words` work on the external document-term matrix and corpus, and are not part of this model.
- Matrix entries are real numbers. NaN, floating-point rounding and numpy's integer widths are not modelled.
- Results.AddResults: requires at least one group per level. numpy's `argmax` raises on an empty axis, and a fitted model always has a group on every level.
- AtapBuilder.GroupMembershipDigraphOf: requires every matrix to be rectangular, with one column per leaf, and the top-word indices to be word indices. The source does not check this; the fitted model guarantees it.
- AtapBuilder.MismatchMessageNamesCounts: states only that the message contains both counts. The full wording is fixed by `Message`.
- The edge lists of the backward walk are modelled as sets. Their order does not matter, because every edge written for one membership carries the same weight.
- Node names are `Leaf(id)` and `Cluster(level, index)`. The model assumes that no leaf label has the form of a cluster name.

## Findings

| source | as written | input that shows it | evidently intended | confidence | as-written member | corrected member |
|---|---|---|---|---|---|---|
| wrapper2.py:54-55 | The first member leaf of a layer-`k` cluster with no lineage `k-1` levels up ends the cluster's whole leaf loop (`break`). | Two leaves `a`, `b`. The one layer-0 cluster holds only `b`; the one layer-1 cluster holds both. Leaf `a` comes first, so the layer-1 cluster never links to the layer-0 cluster. | Skip only the leaf without lineage and go on with the rest, which is what the later revision in `atap_wrapper.py` does. | low: only matrices where a leaf has no group below show it; not executed | EarlierBuilder.BreakDropsEdge | AtapGraph.EdgeIff |
