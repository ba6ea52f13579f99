/**
 The current hierarchy builder, `group_membership_digraphs_of` in atap_wrapper.py: one
 directed graph for documents or for (the top) words, with `Level_{k}_{i}` cluster nodes
 carrying `level` and `is_root`, edges found by walking back through the edges already in
 the graph, and a final single-pass pruning of the non-root nodes nothing points to.
 */
module AtapBuilder {
  import opened Graphs
  import opened Names
  import opened Hierarchy

  datatype BuildError =
    | MaximumLevel(maxLevel: int)                                        // "Maximum level is {levels - 1}"
    | MinimumLevel                                                       // "Minimum level is 0."
    | CategoryCountMismatch(categories: nat, leaves: nat, kind: MembershipKind)

  function KindWord(kind: MembershipKind): string {
    match kind
    case Documents => "documents"
    case Words => "words"
  }

  /** `str(i)` for any int. */
  function IntStr(i: int): string {
    if i < 0 then "-" + Dec(-i) else Dec(i)
  }

  /** The message of the `ValueError` raised for each validation failure. */
  function Message(e: BuildError): string {
    match e
    case MaximumLevel(m) => "Maximum level is " + IntStr(m)
    case MinimumLevel => "Minimum level is 0."
    case CategoryCountMismatch(c, n, kind) =>
      "Mismatched number of categories (" + Dec(c) + ") with number of " + KindWord(kind) + " (" + Dec(n) + ")."
  }

  predicate OccursAt(s: string, t: string, i: nat) {
    i + |t| <= |s| && s[i..i + |t|] == t
  }

  /** Python's `t in s` on strings. */
  predicate Contains(s: string, t: string) {
    exists i: nat | i <= |s| :: OccursAt(s, t, i)
  }

  lemma ConcatOccurs(a: string, t: string, b: string)
    ensures OccursAt(a + t + b, t, |a|)
  {
    assert (a + t + b)[|a|..|a| + |t|] == t;
  }

  /** In a message glued from seven parts, the second and the sixth part (the slots of the two
      f-string fields) occur. */
  lemma FieldsOccur(a: string, b: string, c: string, d: string, e: string, f: string, g: string)
    ensures Contains(a + b + c + d + e + f + g, b)
    ensures Contains(a + b + c + d + e + f + g, f)
  {
    assert a + b + c + d + e + f + g == a + b + (c + d + e + f + g);
    assert a + b + c + d + e + f + g == (a + b + c + d + e) + f + g;
    ConcatOccurs(a, b, c + d + e + f + g);
    ConcatOccurs(a + b + c + d + e, f, g);
  }

  /** The mismatch message names both counts. */
  lemma MismatchMessageNamesCounts(c: nat, n: nat, kind: MembershipKind)
    ensures Contains(Message(CategoryCountMismatch(c, n, kind)), Dec(c))
    ensures Contains(Message(CategoryCountMismatch(c, n, kind)), Dec(n))
  {
    var l1, l2, l3, l4 := "Mismatched number of categories (", ") with number of ", " (", ").";
    var dc, k, dn := Dec(c), KindWord(kind), Dec(n);
    assert Message(CategoryCountMismatch(c, n, kind)) == l1 + dc + l2 + k + l3 + dn + l4;
    FieldsOccur(l1, dc, l2, k, l3, dn, l4);
  }

  /** `label_indices`: every document, or the word indices chosen by `top_word_indices_for_level`. */
  function LabelIndices(kind: MembershipKind, n: nat, topWordIndices: seq<nat>): seq<nat> {
    match kind
    case Documents => Range(n)
    case Words => topWordIndices
  }

  function SpecOf(ms: seq<Matrix>, labels: seq<string>, kind: MembershipKind, topWordIndices: seq<nat>): Spec {
    Spec(ms, labels, LabelIndices(kind, |labels|, topWordIndices), false)
  }

  /** What the source asks of the fitted model: rectangular matrices with a column per leaf. */
  predicate ModelShaped(ms: seq<Matrix>, labels: seq<string>) {
    forall k | 0 <= k < |ms| :: Shaped(ms[k]) && ms[k].cols == |labels|
  }

  predicate IndicesValid(kind: MembershipKind, labels: seq<string>, topWordIndices: seq<nat>) {
    kind == Words ==> forall i | 0 <= i < |topWordIndices| :: topWordIndices[i] < |labels|
  }

  predicate LevelInRange(kind: MembershipKind, levels: nat, topWordsForLevel: int) {
    kind == Words ==> 0 <= topWordsForLevel <= levels - 1
  }

  predicate CategoriesFit(labels: seq<string>, categories: Option<seq<string>>) {
    categories.Some? ==> |categories.value| == |labels|
  }

  /** Every visited label position is inside every membership row. */
  predicate InBounds(h: Spec) {
    forall k | 0 <= k < |h.ms| :: ColumnsCover(h, k)
  }

  lemma SpecOfFits(ms: seq<Matrix>, labels: seq<string>, kind: MembershipKind, topWordIndices: seq<nat>)
    requires ModelShaped(ms, labels) && IndicesValid(kind, labels, topWordIndices)
    ensures Fits(SpecOf(ms, labels, kind, topWordIndices)) && InBounds(SpecOf(ms, labels, kind, topWordIndices))
    ensures !SpecOf(ms, labels, kind, topWordIndices).stopAtOrphan
  {
  }

  // ---------------------------------------------------------------------------
  // The nodes

  /** The leaves with their category, in label order (lines 281-289). */
  function SeedItems(h: Spec, categories: Option<seq<string>>): (items: seq<(Node, Attrs)>)
    requires Fits(h) && CategoriesFit(h.labels, categories)
    ensures |items| == |h.idx|
  {
    seq(|h.idx|, j requires 0 <= j < |h.idx| =>
      (LeafAt(h, j), if categories.Some? then Category(categories.value[h.idx[j]]) else NoAttrs))
  }

  /** The clusters of level `k` with their metadata (lines 294-303). */
  function ClusterItems(h: Spec, k: nat): (items: seq<(Node, Attrs)>)
    requires k < |h.ms|
    ensures |items| == Rows(h, k)
  {
    seq(Rows(h, k), i requires 0 <= i < Rows(h, k) => (Cluster(k, i), ClusterMeta(k, k == |h.ms| - 1)))
  }

  function NodeAttrs(h: Spec, categories: Option<seq<string>>, n: Node): Attrs
    requires Fits(h) && CategoriesFit(h.labels, categories)
  {
    if n.Leaf? then Assigned(SeedItems(h, categories), n, NoAttrs)
    else ClusterMeta(n.level, n.level + 1 == |h.ms|)
  }

  /** The nodes once the clusters of the levels below `K` are in. */
  function Nodes(h: Spec, categories: Option<seq<string>>, K: nat): map<Node, Attrs>
    requires Fits(h) && CategoriesFit(h.labels, categories) && K <= |h.ms|
  {
    map n | n in LeafNodes(h) + ClusterNodes(h, K) :: NodeAttrs(h, categories, n)
  }

  /** The graph before pruning. */
  function Unpruned(h: Spec, categories: Option<seq<string>>): Graph
    requires Fits(h) && CategoriesFit(h.labels, categories)
  {
    Graph(Nodes(h, categories, |h.ms|), Edges(h))
  }

  lemma SeedNodes(h: Spec, categories: Option<seq<string>>, m: map<Node, Attrs>)
    requires Fits(h) && CategoriesFit(h.labels, categories)
    requires m.Keys == ItemNodes(SeedItems(h, categories))
    requires forall n | n in m :: m[n] == Assigned(SeedItems(h, categories), n, NoAttrs)
    ensures m == Nodes(h, categories, 0)
  {
    var items := SeedItems(h, categories);
    assert ItemNodes(items) == LeafNodes(h) by {
      forall n | n in LeafNodes(h) ensures n in ItemNodes(items) {
        var j :| 0 <= j < |h.idx| && LeafAt(h, j) == n;
        assert items[j].0 == n;
      }
    }
    assert ClusterNodes(h, 0) == {};
  }

  lemma NodesStep(h: Spec, categories: Option<seq<string>>, K: nat, m: map<Node, Attrs>, m': map<Node, Attrs>)
    requires Fits(h) && CategoriesFit(h.labels, categories) && K < |h.ms|
    requires m == Nodes(h, categories, K)
    requires m'.Keys == m.Keys + ItemNodes(ClusterItems(h, K))
    requires forall n | n in m' :: m'[n] == Assigned(ClusterItems(h, K), n, Existing(m, n))
    ensures m' == Nodes(h, categories, K + 1)
  {
    var items := ClusterItems(h, K);
    assert ItemNodes(items) == set i | 0 <= i < Rows(h, K) :: Cluster(K, i) by {
      forall n | n in set i | 0 <= i < Rows(h, K) :: Cluster(K, i) ensures n in ItemNodes(items) {
        assert items[n.index].0 == n;
      }
    }
    assert ClusterNodes(h, K + 1) == ClusterNodes(h, K) + ItemNodes(items);
    forall n | n in m' ensures m'[n] == NodeAttrs(h, categories, n) {
      if n in ItemNodes(items) {
        var i :| 0 <= i < |items| && items[i].0 == n;
        AssignedAt(items, i, Existing(m, n));
      } else {
        AssignedAbsent(items, n, Existing(m, n));
      }
    }
  }

  // ---------------------------------------------------------------------------
  // The backward walk (lines 318-332)

  /** The level-(level-1) clusters above `leaf`, found by filtering the edges into the leaf and
      then, level by level, the edges into the clusters found so far. */
  method PriorClusters(E: set<Edge>, leaf: Node, level: nat) returns (priors: set<Node>)
    requires Layered(E) && leaf.Leaf? && level >= 1
    ensures priors == Walk(E, leaf, level)
  {
    var edges := set e | e in E && e.1 == leaf;
    assert edges == InEdges(E, Walk(E, leaf, 0));
    var l := 1;
    while l < level
      invariant 1 <= l <= level
      invariant edges == InEdges(E, Walk(E, leaf, l - 1))
    {
      WalkDepth(E, leaf, l - 1);
      forall e | e in edges ensures IsPrefix(LevelPrefix(l - 1), LevelName(e.0)) {
        LevelPrefixTest(l - 1, e.0.level, e.0.index);
      }
      var prior := set e | e in edges && IsPrefix(LevelPrefix(l - 1), LevelName(e.0)) :: e.0;
      assert prior == Walk(E, leaf, l);
      edges := set e | e in E && e.1 in prior;
      l := l + 1;
    }
    priors := set e | e in edges :: e.0;
  }

  // ---------------------------------------------------------------------------
  // The edge loops (lines 304-334)

  /** One turn of the leaf loop of cluster `c`: the membership of label position `j`. */
  method AddLeafEdges(G: DiGraph, h: Spec, level: nat, c: nat, j: nat)
    requires Fits(h) && !h.stopAtOrphan && level < |h.ms| && ColumnsCover(h, level) && c < Rows(h, level) && j < |h.idx|
    requires G.nodes.Keys == LeafNodes(h) + ClusterNodes(h, level + 1)
    requires RowState(G.edges, h, level, c, j)
    modifies G
    ensures G.nodes == old(G.nodes)
    ensures RowState(G.edges, h, level, c, j + 1)
  {
    ghost var E := G.edges;
    var cluster := Cluster(level, c);
    var w := h.ms[level].rows[c][h.idx[j]];
    assert w == Weight(h, level, c, j);
    BelowShape(h, level, j);
    if w > 0.0 {
      var leaf := Leaf(h.labels[h.idx[j]]);
      assert leaf == LeafAt(h, j) && leaf in LeafNodes(h);
      assert cluster in ClusterNodes(h, level + 1);
      if level == 0 {
        G.AddEdge(cluster, leaf, w);
        assert Fan(cluster, {leaf}) == {(cluster, leaf)};
      } else {
        RowStateWalk(G.edges, h, level, c, j);
        var priors := PriorClusters(G.edges.Keys, leaf, level);
        assert priors <= G.nodes.Keys by {
          forall v | v in priors ensures v in ClusterNodes(h, level + 1) {
            assert v == Cluster(level - 1, v.index);
          }
        }
        AddEdgesTo(G, cluster, priors, w);
      }
    }
    AliveWithoutStop(h, level, c, j);
    RowStateStep(E, G.edges, h, level, c, j);
  }

  /** The leaf loop of cluster `c` at level `level`. */
  method AddClusterEdges(G: DiGraph, h: Spec, level: nat, c: nat)
    requires Fits(h) && InBounds(h) && !h.stopAtOrphan && level < |h.ms| && c < Rows(h, level)
    requires G.nodes.Keys == LeafNodes(h) + ClusterNodes(h, level + 1)
    requires G.edges.Keys == Upto(h, level) + LevelUpTo(h, level, c)
    requires forall e | e in G.edges :: G.edges[e] == EdgeWeight(h, e)
    modifies G
    ensures G.nodes == old(G.nodes)
    ensures G.edges.Keys == Upto(h, level) + LevelUpTo(h, level, c + 1)
    ensures forall e | e in G.edges :: G.edges[e] == EdgeWeight(h, e)
  {
    RowStateStart(G.edges, h, level, c);
    var j := 0;
    while j < |h.idx|
      invariant 0 <= j <= |h.idx|
      invariant G.nodes == old(G.nodes)
      invariant RowState(G.edges, h, level, c, j)
    {
      AddLeafEdges(G, h, level, c, j);
      j := j + 1;
    }
    RowStateDone(G.edges, h, level, c);
  }

  /** The cluster loop of level `level`. */
  method AddLevelEdges(G: DiGraph, h: Spec, level: nat)
    requires Fits(h) && InBounds(h) && !h.stopAtOrphan && level < |h.ms|
    requires G.nodes.Keys == LeafNodes(h) + ClusterNodes(h, level + 1)
    requires G.edges.Keys == Upto(h, level)
    requires forall e | e in G.edges :: G.edges[e] == EdgeWeight(h, e)
    modifies G
    ensures G.nodes == old(G.nodes)
    ensures G.edges.Keys == Upto(h, level + 1)
    ensures forall e | e in G.edges :: G.edges[e] == EdgeWeight(h, e)
  {
    var c := 0;
    while c < Rows(h, level)
      invariant 0 <= c <= Rows(h, level)
      invariant G.nodes == old(G.nodes)
      invariant G.edges.Keys == Upto(h, level) + LevelUpTo(h, level, c)
      invariant forall e | e in G.edges :: G.edges[e] == EdgeWeight(h, e)
    {
      AddClusterEdges(G, h, level, c);
      c := c + 1;
    }
  }

  // ---------------------------------------------------------------------------
  // Pruning (lines 336-341)

  /** The non-root nodes that no edge points to. */
  function Removed(g: Graph): set<Node> {
    (set n | n in g.nodes && !IsRoot(g.nodes[n])) - Targets(g.edges.Keys)
  }

  /** One pass of `remove_nodes_from`: the target set is taken before anything is removed. */
  function Prune(g: Graph): (r: Graph)
    ensures forall n :: n in r.nodes <==> n in g.nodes && (IsRoot(g.nodes[n]) || n in Targets(g.edges.Keys))
    ensures forall n | n in r.nodes :: r.nodes[n] == g.nodes[n]
    ensures forall e :: e in r.edges <==>
      e in g.edges && (e.0 in r.nodes || e.0 !in g.nodes) && (e.1 in r.nodes || e.1 !in g.nodes)
    ensures forall e | e in r.edges :: r.edges[e] == g.edges[e]
  {
    var gone := Removed(g);
    Graph(g.nodes - gone, map e | e in g.edges && e.0 !in gone && e.1 !in gone :: g.edges[e])
  }

  // ---------------------------------------------------------------------------
  // The builder

  /** The graph, from the seeded leaves through the level loop to the pruning (lines 279-342). */
  method BuildGraph(h: Spec, categories: Option<seq<string>>) returns (g: Graph)
    requires Fits(h) && InBounds(h) && !h.stopAtOrphan && CategoriesFit(h.labels, categories)
    ensures g == Prune(Unpruned(h, categories))
  {
    var G := new DiGraph();
    G.AddNodesFrom(SeedItems(h, categories));
    SeedNodes(h, categories, G.nodes);

    var level := 0;
    while level < |h.ms|
      invariant 0 <= level <= |h.ms|
      invariant G.nodes == Nodes(h, categories, level)
      invariant G.edges.Keys == Upto(h, level)
      invariant forall e | e in G.edges :: G.edges[e] == EdgeWeight(h, e)
    {
      ghost var before := G.nodes;
      G.AddNodesFrom(ClusterItems(h, level));
      NodesStep(h, categories, level, before, G.nodes);
      AddLevelEdges(G, h, level);
      level := level + 1;
    }
    assert G.Snapshot() == Unpruned(h, categories);

    var targets := set e | e in G.edges.Keys :: e.1;
    var nonRoots := set n | n in G.nodes.Keys && !IsRoot(G.nodes[n]);
    G.RemoveNodesFrom(nonRoots - targets);
    g := G.Snapshot();
  }

  /** The leaf labels of one kind: `model.documents` or `model.words`. */
  function LabelsOf(documents: seq<string>, words: seq<string>, kind: MembershipKind): seq<string> {
    if kind == Documents then documents else words
  }

  /** `group_membership_digraphs_of(corpus, model, kind, categories, top_words_for_level, ...)`, with
      the model's memberships per level, its documents and words, and the indices
      `top_word_indices_for_level` picks. */
  method GroupMembershipDigraphOf(layers: seq<LayerMemberships>, documents: seq<string>, words: seq<string>,
                                  kind: MembershipKind, categories: Option<seq<string>>,
                                  topWordsForLevel: int, topWordIndices: seq<nat>)
    returns (r: Result<Graph, BuildError>)
    requires ModelShaped(MembershipsOf(layers, kind), LabelsOf(documents, words, kind))
    requires IndicesValid(kind, LabelsOf(documents, words, kind), topWordIndices)
    ensures kind == Words && topWordsForLevel > |layers| - 1 ==> r == Err(MaximumLevel(|layers| - 1))
    ensures kind == Words && topWordsForLevel <= |layers| - 1 && topWordsForLevel < 0 ==> r == Err(MinimumLevel)
    ensures LevelInRange(kind, |layers|, topWordsForLevel) && !CategoriesFit(LabelsOf(documents, words, kind), categories) ==>
      r == Err(CategoryCountMismatch(|categories.value|, |LabelsOf(documents, words, kind)|, kind))
    ensures r.Ok? <==> LevelInRange(kind, |layers|, topWordsForLevel) && CategoriesFit(LabelsOf(documents, words, kind), categories)
    ensures r.Ok? ==>
      r.value == Prune(Unpruned(SpecOf(MembershipsOf(layers, kind), LabelsOf(documents, words, kind), kind, topWordIndices), categories))
  {
    var ms := MembershipsOf(layers, kind);
    var labels: seq<string>, idx: seq<nat>;
    if kind == Documents {
      labels := documents;
      idx := Range(|labels|);
    } else {
      if topWordsForLevel > |layers| - 1 {
        return Err(MaximumLevel(|layers| - 1));
      }
      if topWordsForLevel < 0 {
        return Err(MinimumLevel);
      }
      labels := words;
      idx := topWordIndices;
    }
    if categories.Some? && |categories.value| != |labels| {
      return Err(CategoryCountMismatch(|categories.value|, |labels|, kind));
    }
    var h := Spec(ms, labels, idx, false);
    assert h == SpecOf(ms, labels, kind, topWordIndices);
    SpecOfFits(ms, labels, kind, topWordIndices);
    var g := BuildGraph(h, categories);
    r := Ok(g);
  }
}

/** What the graph built by `group_membership_digraphs_of` holds, stated on the reference
    hierarchy: which leaves and clusters survive the pruning, the roots, the categories,
    and which edges with which weights. */
module AtapGraph {
  import opened Graphs
  import opened Hierarchy
  import opened AtapBuilder

  /** The graph the builder returns for a valid input. */
  function Built(h: Spec, categories: Option<seq<string>>): Graph
    requires Fits(h) && CategoriesFit(h.labels, categories)
  {
    Prune(Unpruned(h, categories))
  }

  /** A leaf never carries `is_root`. */
  lemma LeafNotRoot(h: Spec, categories: Option<seq<string>>, n: Node)
    requires Fits(h) && CategoriesFit(h.labels, categories) && n.Leaf?
    ensures !IsRoot(NodeAttrs(h, categories, n))
    ensures categories.None? ==> NodeAttrs(h, categories, n) == NoAttrs
  {
    var items := SeedItems(h, categories);
    AssignedSource(items, n, NoAttrs);
  }

  /** The edges of the finished hierarchy leave clusters for nodes that were added. */
  lemma EdgeEnds(h: Spec, categories: Option<seq<string>>, e: Edge)
    requires Fits(h) && CategoriesFit(h.labels, categories) && e in Upto(h, |h.ms|)
    ensures e.0.Cluster? && e.0.level < |h.ms| && Depth(e.0) == Depth(e.1) + 1
    ensures e.0 in Unpruned(h, categories).nodes && e.1 in Unpruned(h, categories).nodes
  {
    UptoLayered(h, |h.ms|);
  }

  /** A leaf survives the pruning exactly when some level-0 cluster has it as a member. */
  lemma LeafSurvives(h: Spec, categories: Option<seq<string>>, n: Node)
    requires Fits(h) && CategoriesFit(h.labels, categories) && !h.stopAtOrphan && n.Leaf?
    ensures n in Built(h, categories).nodes <==>
      exists j, c | 0 <= j < |h.idx| && 0 < |h.ms| && 0 <= c < Rows(h, 0) ::
        LeafAt(h, j) == n && Weight(h, 0, c, j) > 0.0
  {
    var g := Unpruned(h, categories);
    LeafNotRoot(h, categories, n);
    if n in Built(h, categories).nodes {
      assert n in Targets(g.edges.Keys);
      var e :| e in Upto(h, |h.ms|) && e.1 == n;
      UptoIff(h, |h.ms|, e);
      LevelShape(h, e.0.level, e);
      LevelIff(h, 0, e);
      var j :| 0 <= j < |h.idx| && Alive(h, 0, e.0.index, j) && Justifies(h, 0, e.0.index, j, n);
      assert LeafAt(h, j) == n && Weight(h, 0, e.0.index, j) > 0.0;
    }
    if exists j, c | 0 <= j < |h.idx| && 0 < |h.ms| && 0 <= c < Rows(h, 0) ::
      LeafAt(h, j) == n && Weight(h, 0, c, j) > 0.0
    {
      var j, c :| 0 <= j < |h.idx| && 0 < |h.ms| && 0 <= c < Rows(h, 0) &&
        LeafAt(h, j) == n && Weight(h, 0, c, j) > 0.0;
      var e := (Cluster(0, c), n);
      AliveWithoutStop(h, 0, c, j);
      assert Justifies(h, 0, c, j, n);
      LevelIff(h, 0, e);
      UptoIff(h, |h.ms|, e);
      assert n in Targets(g.edges.Keys);
      assert n in LeafNodes(h);
    }
  }

  /** Some cluster of level `up` links to `n`. */
  predicate LinkedFrom(h: Spec, up: nat, n: Node)
    requires Fits(h) && up < |h.ms|
  {
    exists c | 0 <= c < Rows(h, up) :: Linked(h, up, c, n)
  }

  /** The clusters of level `k` numbered below `n`. */
  function LevelSet(k: nat, n: nat): set<Node> {
    set i | 0 <= i < n :: Cluster(k, i)
  }

  /** Only the next level up points to a cluster. */
  lemma ClusterTarget(h: Spec, k: nat, i: nat)
    requires Fits(h) && k < |h.ms|
    ensures Cluster(k, i) in Targets(Upto(h, |h.ms|)) <==> k + 1 < |h.ms| && LinkedFrom(h, k + 1, Cluster(k, i))
  {
    var n := Cluster(k, i);
    if n in Targets(Upto(h, |h.ms|)) {
      var e :| e in Upto(h, |h.ms|) && e.1 == n;
      UptoIff(h, |h.ms|, e);
      LevelShape(h, e.0.level, e);
      LevelIff(h, k + 1, e);
    }
    if k + 1 < |h.ms| && LinkedFrom(h, k + 1, n) {
      var c :| 0 <= c < Rows(h, k + 1) && Linked(h, k + 1, c, n);
      var e := (Cluster(k + 1, c), n);
      LevelIff(h, k + 1, e);
      UptoIff(h, |h.ms|, e);
      assert e.1 in Targets(Upto(h, |h.ms|));
    }
  }

  /** A cluster below the top level survives exactly when a cluster of the next level links to it;
      the clusters of the top level are roots and always survive. */
  lemma ClusterSurvives(h: Spec, categories: Option<seq<string>>, k: nat, i: nat)
    requires Fits(h) && CategoriesFit(h.labels, categories) && k < |h.ms| && i < Rows(h, k)
    ensures Cluster(k, i) in Built(h, categories).nodes <==>
      k == |h.ms| - 1 || LinkedFrom(h, k + 1, Cluster(k, i))
  {
    var g := Unpruned(h, categories);
    var n := Cluster(k, i);
    assert n in ClusterNodes(h, |h.ms|);
    assert g.nodes[n] == ClusterMeta(k, k + 1 == |h.ms|);
    ClusterTarget(h, k, i);
  }

  lemma {:induction false} LevelCard(k: nat, n: nat)
    ensures |LevelSet(k, n)| == n
  {
    if n > 0 {
      LevelCard(k, n - 1);
      assert LevelSet(k, n) == LevelSet(k, n - 1) + {Cluster(k, n - 1)};
    }
  }

  /** The roots are the clusters of the top level, so there is exactly one root when the top
      level has exactly one cluster. */
  lemma BuiltRoots(h: Spec, categories: Option<seq<string>>)
    requires Fits(h) && CategoriesFit(h.labels, categories) && 0 < |h.ms|
    ensures Roots(Built(h, categories)) == LevelSet(|h.ms| - 1, Rows(h, |h.ms| - 1))
    ensures |Roots(Built(h, categories))| == Rows(h, |h.ms| - 1)
  {
    var top := |h.ms| - 1;
    var g := Unpruned(h, categories);
    var r := Built(h, categories);
    forall n | n in Roots(r) ensures n in LevelSet(top, Rows(h, top)) {
      if n.Leaf? {
        LeafNotRoot(h, categories, n);
      }
    }
    forall i | 0 <= i < Rows(h, top) ensures Cluster(top, i) in Roots(r) {
      assert Cluster(top, i) in ClusterNodes(h, |h.ms|);
    }
    LevelCard(top, Rows(h, top));
  }

  /** Above some position `J`, the last label position that names leaf `n`. */
  function LastPos(h: Spec, n: Node, J: nat): (p: int)
    requires Fits(h) && J <= |h.idx|
    ensures -1 <= p < J
    ensures p >= 0 ==> LeafAt(h, p) == n
    ensures forall j | p < j < J :: LeafAt(h, j) != n
  {
    if J == 0 then -1 else if LeafAt(h, J - 1) == n then J - 1 else LastPos(h, n, J - 1)
  }

  /** A retained leaf carries the category of the last label position that names it, and no
      attributes when no categories were given. */
  lemma LeafCategory(h: Spec, categories: Option<seq<string>>, n: Node)
    requires Fits(h) && CategoriesFit(h.labels, categories) && n.Leaf? && n in Built(h, categories).nodes
    ensures categories.None? ==> Built(h, categories).nodes[n] == NoAttrs
    ensures categories.Some? ==> exists j | 0 <= j < |h.idx| ::
      && LeafAt(h, j) == n
      && (forall j' | j < j' < |h.idx| :: LeafAt(h, j') != n)
      && Built(h, categories).nodes[n] == Category(categories.value[h.idx[j]])
  {
    LeafNotRoot(h, categories, n);
    if categories.Some? {
      var j := LastPos(h, n, |h.idx|);
      var items := SeedItems(h, categories);
      AssignedAt(items, j, NoAttrs);
    }
  }

  /** Cluster `c` of level `k` links to `v` exactly when some member leaf of `c` has `v` `k` steps
      above it in the finished graph (for level 0: `v` is that leaf); the edge's weight is the
      positive membership of one such leaf. */
  lemma EdgeIff(h: Spec, k: nat, c: nat, v: Node)
    requires Fits(h) && !h.stopAtOrphan && k < |h.ms| && c < Rows(h, k)
    ensures (Cluster(k, c), v) in Edges(h) <==>
      exists j | 0 <= j < |h.idx| :: Weight(h, k, c, j) > 0.0 && v in Walk(Edges(h).Keys, LeafAt(h, j), k)
    ensures (Cluster(k, c), v) in Edges(h) ==>
      exists j | 0 <= j < |h.idx| :: Weight(h, k, c, j) > 0.0 && v in Walk(Edges(h).Keys, LeafAt(h, j), k) &&
        Edges(h)[(Cluster(k, c), v)] == Weight(h, k, c, j)
  {
    var e := (Cluster(k, c), v);
    forall j | 0 <= j < |h.idx| ensures Walk(Edges(h).Keys, LeafAt(h, j), k) == Below(h, k, j) {
      WalkBelow(h, k, j);
    }
    forall j | 0 <= j < |h.idx| ensures Alive(h, k, c, j) {
      AliveWithoutStop(h, k, c, j);
    }
    UptoIff(h, |h.ms|, e);
    LevelIff(h, k, e);
    if e in Edges(h) {
      LastWeightWitness(h, k, c, v, |h.idx|);
    } else {
      forall j | 0 <= j < |h.idx| ensures !(Weight(h, k, c, j) > 0.0 && v in Walk(Edges(h).Keys, LeafAt(h, j), k)) {
        assert !Justifies(h, k, c, j, v);
      }
    }
  }

  /** The finished graph: every edge joins two retained nodes one level apart, with a positive
      weight; an edge survives the pruning exactly when its source is a root or is pointed to. */
  lemma BuiltEdges(h: Spec, categories: Option<seq<string>>, e: Edge)
    requires Fits(h) && CategoriesFit(h.labels, categories)
    ensures e in Built(h, categories).edges <==>
      e in Edges(h) && (Depth(e.0) == |h.ms| - 1 || e.0 in Targets(Edges(h).Keys))
    ensures e in Built(h, categories).edges ==>
      && e.0 in Built(h, categories).nodes && e.1 in Built(h, categories).nodes
      && e.0.Cluster? && Depth(e.0) == Depth(e.1) + 1
      && Built(h, categories).edges[e] == Edges(h)[e] > 0.0
  {
    var g := Unpruned(h, categories);
    if e in Edges(h) {
      EdgeEnds(h, categories, e);
      assert e.1 in Targets(g.edges.Keys);
      UptoIff(h, |h.ms|, e);
      LevelIff(h, e.0.level, e);
      LastWeightWitness(h, e.0.level, e.0.index, e.1, |h.idx|);
    }
  }

  /** One document `a`: the level-0 and the level-1 cluster hold it, the root of level 2 does not. */
  function PruneExample(): (h: Spec)
    ensures Fits(h)
  {
    Spec([Matrix(1, [[1.0]]), Matrix(1, [[1.0]]), Matrix(1, [[0.0]])], ["a"], [0], false)
  }

  /** In the example, the level-1 cluster links to the level-0 cluster. */
  lemma PruneExampleLinked()
    ensures LinkedFrom(PruneExample(), 1, Cluster(0, 0))
  {
    var h := PruneExample();
    var a, c0 := Leaf("a"), Cluster(0, 0);
    assert Level(h, 0) == {(c0, a)} by {
      forall e | e in Level(h, 0) ensures e == (c0, a) {
        LevelIff(h, 0, e);
      }
      assert Alive(h, 0, 0, 0) && Justifies(h, 0, 0, 0, a);
      LevelIff(h, 0, (c0, a));
    }
    assert InEdges(Level(h, 0), {a}) == {(c0, a)};
    assert Below(h, 1, 0) == {c0};
    assert Alive(h, 1, 0, 0) && Justifies(h, 1, 0, 0, c0);
    assert LinkedUpTo(h, 1, 0, c0, |h.idx|);
    assert Linked(h, 1, 0, c0);
  }

  /** In the example, the level-0 cluster survives the pruning and the level-1 cluster does not. */
  lemma PruneExampleSurvivors()
    ensures Cluster(0, 0) in Built(PruneExample(), None).nodes
    ensures Cluster(1, 0) !in Built(PruneExample(), None).nodes
  {
    PruneExampleLinked();
    ClusterSurvives(PruneExample(), None, 0, 0);
    ClusterSurvives(PruneExample(), None, 1, 0);
  }

  /** The pruning is one pass over the unpruned graph: the level-1 cluster, which nothing points to,
      is removed, but the level-0 cluster it pointed to stays, a non-root node that no edge of the
      finished graph reaches. */
  lemma SinglePassKeepsUnreachable()
    ensures Cluster(0, 0) in Built(PruneExample(), None).nodes
    ensures !IsRoot(Built(PruneExample(), None).nodes[Cluster(0, 0)])
    ensures forall e | e in Built(PruneExample(), None).edges :: e.1 != Cluster(0, 0)
  {
    var h := PruneExample();
    var b := Built(h, None);
    PruneExampleSurvivors();
    assert Cluster(0, 0) in ClusterNodes(h, |h.ms|);
    forall e | e in b.edges ensures e.1 != Cluster(0, 0) {
      BuiltEdges(h, None, e);
      assert e.0 in ClusterNodes(h, |h.ms|);
    }
  }
}
