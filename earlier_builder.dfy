/**
 The earlier hierarchy builder, `group_membership_digraphs_of` in wrapper2.py: a document
 graph and a word graph built in one call, with `L{layer}_{i}` cluster nodes carrying their
 layer, every leaf kept, no pruning, and a leaf loop that stops at the first member leaf
 without a lineage.
 */
module EarlierBuilder {
  import opened Graphs
  import opened Names
  import opened Hierarchy

  /** The `AssertionError` "Mismatched number of leaf nodes in group memberships for {type_}.". */
  datatype EarlierError = LeafCountMismatch(kind: MembershipKind)

  /** Every layer's matrix has one column per leaf. */
  predicate ColumnsMatch(ms: seq<Matrix>, leaves: seq<string>) {
    forall l | 0 <= l < |ms| :: ms[l].cols == |leaves|
  }

  predicate AllShaped(layers: seq<LayerMemberships>) {
    forall l | 0 <= l < |layers| :: Shaped(layers[l].documents) && Shaped(layers[l].words)
  }

  /** The hierarchy of one kind: every leaf visited in order, the loop stopping at an orphan. */
  function EarlierSpec(ms: seq<Matrix>, leaves: seq<string>): (h: Spec)
    ensures Fits(h) && h.stopAtOrphan && |h.idx| == |leaves|
    ensures forall j | 0 <= j < |leaves| :: h.idx[j] == j
  {
    Spec(ms, leaves, Range(|leaves|), true)
  }

  /** The graph of one kind: all leaves without attributes, every cluster with its layer, and
      the edges of the hierarchy. */
  function Earlier(h: Spec): Graph
    requires Fits(h)
  {
    Graph(map n | n in LeafNodes(h) + ClusterNodes(h, |h.ms|) :: if n.Leaf? then NoAttrs else LayerMeta(n.level),
          Edges(h))
  }

  function EarlierNodes(h: Spec, K: nat): map<Node, Attrs>
    requires Fits(h) && K <= |h.ms|
  {
    map n | n in LeafNodes(h) + ClusterNodes(h, K) :: if n.Leaf? then NoAttrs else LayerMeta(n.level)
  }

  // ---------------------------------------------------------------------------
  // The backward walk (lines 46-53)

  /** The edges into the layer-(layer-2) clusters above `leaf` (into `leaf` itself for layer 1):
      their sources are the layer-(layer-1) clusters above it. */
  method PriorEdges(E: set<Edge>, leaf: Node, layer: nat) returns (edges: set<Edge>)
    requires Layered(E) && leaf.Leaf? && layer >= 1
    ensures edges == InEdges(E, Walk(E, leaf, layer - 1))
  {
    if layer == 1 {
      forall e | e in E && e.1 == leaf ensures IsPrefix("L" + Dec(layer - 1), LayerName(e.0)) {
        LayerZeroTest(e.0.level, e.0.index);
      }
      edges := set e | e in E && e.1 == leaf && IsPrefix("L" + Dec(layer - 1), LayerName(e.0));
    } else {
      edges := set e | e in E && e.1 == leaf;
      assert edges == InEdges(E, Walk(E, leaf, 0));
      var t := 0;
      while t < layer - 1
        invariant 0 <= t <= layer - 1
        invariant edges == InEdges(E, Walk(E, leaf, t))
      {
        WalkDepth(E, leaf, t);
        forall e | e in edges ensures IsPrefix(LayerPrefix(t), LayerName(e.0)) {
          LayerPrefixTest(t, e.0.level, e.0.index);
        }
        var prior := set e | e in edges && IsPrefix(LayerPrefix(t), LayerName(e.0)) :: e.0;
        assert prior == Walk(E, leaf, t + 1);
        edges := set e | e in E && e.1 in prior;
        t := t + 1;
      }
    }
  }

  // ---------------------------------------------------------------------------
  // The edge loops (lines 37-59)

  /** A member leaf without lineage ends the loop with the cluster's edges final. */
  lemma OrphanStops(E: map<Edge, real>, h: Spec, layer: nat, c: nat, j: nat)
    requires Fits(h) && layer < |h.ms| && c < Rows(h, layer) && j < |h.idx| && h.stopAtOrphan
    requires RowState(E, h, layer, c, j) && Alive(h, layer, c, j) && Orphan(h, layer, c, j)
    ensures !Alive(h, layer, c, j + 1)
    ensures RowState(E, h, layer, c, |h.idx|)
  {
    RowStateStep(E, E, h, layer, c, j);
    RowStateStopped(E, h, layer, c, j + 1);
  }

  /** One turn of the leaf loop of cluster `c`; `stop` reports the `break` at a member leaf
      whose lineage is empty, after which the cluster's edges are final. */
  method AddLeafEdges(G: DiGraph, h: Spec, layer: nat, c: nat, j: nat) returns (stop: bool)
    requires Fits(h) && h.stopAtOrphan && layer < |h.ms| && ColumnsCover(h, layer) && c < Rows(h, layer) && j < |h.idx|
    requires G.nodes.Keys == LeafNodes(h) + ClusterNodes(h, layer + 1)
    requires RowState(G.edges, h, layer, c, j) && Alive(h, layer, c, j)
    modifies G
    ensures G.nodes == old(G.nodes)
    ensures Alive(h, layer, c, j + 1) <==> !stop
    ensures RowState(G.edges, h, layer, c, if stop then |h.idx| else j + 1)
  {
    ghost var E := G.edges;
    var cluster := Cluster(layer, c);
    var w := h.ms[layer].rows[c][h.idx[j]];
    assert w == Weight(h, layer, c, j);
    BelowShape(h, layer, j);
    stop := false;
    if w > 0.0 {
      var leaf := Leaf(h.labels[h.idx[j]]);
      assert leaf == LeafAt(h, j) && leaf in LeafNodes(h);
      assert cluster in ClusterNodes(h, layer + 1);
      if layer == 0 {
        G.AddEdge(cluster, leaf, w);
        assert Fan(cluster, {leaf}) == {(cluster, leaf)};
      } else {
        RowStateWalk(G.edges, h, layer, c, j);
        var edges := PriorEdges(G.edges.Keys, leaf, layer);
        SourcesEmpty(edges);
        if |edges| <= 0 {
          OrphanStops(G.edges, h, layer, c, j);
          return true;
        }
        var priors := set e | e in edges :: e.0;
        assert priors <= G.nodes.Keys by {
          forall v | v in priors ensures v in ClusterNodes(h, layer + 1) {
            assert v == Cluster(layer - 1, v.index);
          }
        }
        AddEdgesTo(G, cluster, priors, w);
      }
    }
    RowStateStep(E, G.edges, h, layer, c, j);
  }

  /** The leaf loop of cluster `c` at layer `layer`, with its `break`. */
  method AddClusterEdges(G: DiGraph, h: Spec, layer: nat, c: nat)
    requires Fits(h) && h.stopAtOrphan && layer < |h.ms| && ColumnsCover(h, layer) && c < Rows(h, layer)
    requires G.nodes.Keys == LeafNodes(h) + ClusterNodes(h, layer + 1)
    requires G.edges.Keys == Upto(h, layer) + LevelUpTo(h, layer, c)
    requires forall e | e in G.edges :: G.edges[e] == EdgeWeight(h, e)
    modifies G
    ensures G.nodes == old(G.nodes)
    ensures G.edges.Keys == Upto(h, layer) + LevelUpTo(h, layer, c + 1)
    ensures forall e | e in G.edges :: G.edges[e] == EdgeWeight(h, e)
  {
    RowStateStart(G.edges, h, layer, c);
    var j := 0;
    while j < |h.idx|
      invariant 0 <= j <= |h.idx|
      invariant G.nodes == old(G.nodes)
      invariant RowState(G.edges, h, layer, c, j) && Alive(h, layer, c, j)
    {
      var stop := AddLeafEdges(G, h, layer, c, j);
      if stop {
        break;
      }
      j := j + 1;
    }
    RowStateDone(G.edges, h, layer, c);
  }

  /** The cluster loop of layer `layer`. */
  method AddLayerEdges(G: DiGraph, h: Spec, layer: nat)
    requires Fits(h) && h.stopAtOrphan && layer < |h.ms| && ColumnsCover(h, layer)
    requires G.nodes.Keys == LeafNodes(h) + ClusterNodes(h, layer + 1)
    requires G.edges.Keys == Upto(h, layer)
    requires forall e | e in G.edges :: G.edges[e] == EdgeWeight(h, e)
    modifies G
    ensures G.nodes == old(G.nodes)
    ensures G.edges.Keys == Upto(h, layer + 1)
    ensures forall e | e in G.edges :: G.edges[e] == EdgeWeight(h, e)
  {
    var c := 0;
    while c < Rows(h, layer)
      invariant 0 <= c <= Rows(h, layer)
      invariant G.nodes == old(G.nodes)
      invariant G.edges.Keys == Upto(h, layer) + LevelUpTo(h, layer, c)
      invariant forall e | e in G.edges :: G.edges[e] == EdgeWeight(h, e)
    {
      AddClusterEdges(G, h, layer, c);
      c := c + 1;
    }
  }

  // ---------------------------------------------------------------------------
  // The builder (lines 25-61)

  function LeafItems(leaves: seq<string>): (items: seq<(Node, Attrs)>)
    ensures |items| == |leaves|
  {
    seq(|leaves|, j requires 0 <= j < |leaves| => (Leaf(leaves[j]), NoAttrs))
  }

  /** `G.add_nodes_from(cluster_names, kind='cluster', layer=layer)` */
  function LayerItems(h: Spec, layer: nat): (items: seq<(Node, Attrs)>)
    requires layer < |h.ms|
    ensures |items| == Rows(h, layer)
  {
    seq(Rows(h, layer), i requires 0 <= i < Rows(h, layer) => (Cluster(layer, i), LayerMeta(layer)))
  }

  lemma LeafNodesSeeded(ms: seq<Matrix>, leaves: seq<string>, m: map<Node, Attrs>)
    requires m.Keys == ItemNodes(LeafItems(leaves))
    requires forall n | n in m :: m[n] == Assigned(LeafItems(leaves), n, NoAttrs)
    ensures m == EarlierNodes(EarlierSpec(ms, leaves), 0)
  {
    var h, items := EarlierSpec(ms, leaves), LeafItems(leaves);
    assert ItemNodes(items) == LeafNodes(h) by {
      forall j | 0 <= j < |leaves| ensures items[j].0 == LeafAt(h, j) {
      }
      forall n | n in LeafNodes(h) ensures n in ItemNodes(items) {
        var j :| 0 <= j < |h.idx| && LeafAt(h, j) == n;
        assert items[j].0 == n;
      }
    }
    forall n | n in m ensures m[n] == NoAttrs {
      AssignedSource(items, n, NoAttrs);
    }
    assert ClusterNodes(h, 0) == {};
  }

  lemma LayerNodesStep(h: Spec, K: nat, m: map<Node, Attrs>, m': map<Node, Attrs>)
    requires Fits(h) && K < |h.ms|
    requires m == EarlierNodes(h, K)
    requires m'.Keys == m.Keys + ItemNodes(LayerItems(h, K))
    requires forall n | n in m' :: m'[n] == Assigned(LayerItems(h, K), n, Existing(m, n))
    ensures m' == EarlierNodes(h, K + 1)
  {
    var items := LayerItems(h, K);
    assert ItemNodes(items) == set i | 0 <= i < Rows(h, K) :: Cluster(K, i) by {
      forall n | n in set i | 0 <= i < Rows(h, K) :: Cluster(K, i) ensures n in ItemNodes(items) {
        assert items[n.index].0 == n;
      }
    }
    assert ClusterNodes(h, K + 1) == ClusterNodes(h, K) + ItemNodes(items);
    forall n | n in m' ensures m'[n] == if n.Leaf? then NoAttrs else LayerMeta(n.level) {
      if n in ItemNodes(items) {
        var i :| 0 <= i < |items| && items[i].0 == n;
        AssignedAt(items, i, Existing(m, n));
      } else {
        AssignedAbsent(items, n, Existing(m, n));
      }
    }
  }

  /** The graph of one kind, or the failed assertion of the first layer whose matrix does not
      have one column per leaf. */
  method BuildKind(ms: seq<Matrix>, leaves: seq<string>, kind: MembershipKind) returns (r: Result<Graph, EarlierError>)
    requires forall l | 0 <= l < |ms| :: Shaped(ms[l])
    ensures r.Err? <==> !ColumnsMatch(ms, leaves)
    ensures r.Err? ==> r.error == LeafCountMismatch(kind)
    ensures r.Ok? ==> r.value == Earlier(EarlierSpec(ms, leaves))
  {
    var h := EarlierSpec(ms, leaves);
    var G := new DiGraph();
    G.AddNodesFrom(LeafItems(leaves));
    LeafNodesSeeded(ms, leaves, G.nodes);
    var layer := 0;
    while layer < |ms|
      invariant 0 <= layer <= |ms|
      invariant forall l | 0 <= l < layer :: ms[l].cols == |leaves|
      invariant G.nodes == EarlierNodes(h, layer)
      invariant G.edges.Keys == Upto(h, layer)
      invariant forall e | e in G.edges :: G.edges[e] == EdgeWeight(h, e)
    {
      var memberships := ms[layer];
      if |leaves| != memberships.cols {
        return Err(LeafCountMismatch(kind));
      }
      ghost var before := G.nodes;
      G.AddNodesFrom(LayerItems(h, layer));
      LayerNodesStep(h, layer, before, G.nodes);
      AddLayerEdges(G, h, layer);
      layer := layer + 1;
    }
    r := Ok(G.Snapshot());
  }

  /** `group_membership_digraphs_of(model)`: the document graph, then the word graph. */
  method GroupMembershipDigraphsOf(layers: seq<LayerMemberships>, documents: seq<string>, words: seq<string>)
    returns (r: Result<seq<Graph>, EarlierError>)
    requires AllShaped(layers)
    ensures !ColumnsMatch(MembershipsOf(layers, Documents), documents) ==> r == Err(LeafCountMismatch(Documents))
    ensures ColumnsMatch(MembershipsOf(layers, Documents), documents) && !ColumnsMatch(MembershipsOf(layers, Words), words) ==>
      r == Err(LeafCountMismatch(Words))
    ensures r.Ok? <==> ColumnsMatch(MembershipsOf(layers, Documents), documents) && ColumnsMatch(MembershipsOf(layers, Words), words)
    ensures r.Ok? ==> r.value == [Earlier(EarlierSpec(MembershipsOf(layers, Documents), documents)),
                                  Earlier(EarlierSpec(MembershipsOf(layers, Words), words))]
  {
    var kinds := [Documents, Words];
    var typeLabels := [documents, words];
    var gs: seq<Graph> := [];
    var i := 0;
    while i < 2
      invariant 0 <= i <= 2 && |gs| == i
      invariant forall k | 0 <= k < i :: ColumnsMatch(MembershipsOf(layers, kinds[k]), typeLabels[k])
      invariant forall k | 0 <= k < i :: gs[k] == Earlier(EarlierSpec(MembershipsOf(layers, kinds[k]), typeLabels[k]))
    {
      var g := BuildKind(MembershipsOf(layers, kinds[i]), typeLabels[i], kinds[i]);
      if g.Err? {
        assert i == 0 ==> kinds[i] == Documents && typeLabels[i] == documents;
        assert i == 1 ==> kinds[0] == Documents && typeLabels[0] == documents && kinds[i] == Words && typeLabels[i] == words;
        return Err(g.error);
      }
      gs := gs + [g.value];
      i := i + 1;
    }
    assert kinds[0] == Documents && typeLabels[0] == documents && kinds[1] == Words && typeLabels[1] == words;
    r := Ok(gs);
  }

  // ---------------------------------------------------------------------------
  // What the earlier graphs hold

  /** A member leaf whose lineage `k` steps up in the finished graph is empty. */
  predicate Lost(h: Spec, k: nat, c: nat, j: nat)
    requires Fits(h) && k < |h.ms| && c < Rows(h, k) && j < |h.idx|
  {
    k > 0 && Weight(h, k, c, j) > 0.0 && Walk(Edges(h).Keys, LeafAt(h, j), k) == {}
  }

  /** Cluster `c` of layer `k` links to `v` exactly when a member leaf of `c` has `v` `k` steps
      above it and no member leaf before it had an empty lineage (the `break`). */
  lemma EarlierEdgeIff(h: Spec, k: nat, c: nat, v: Node)
    requires Fits(h) && h.stopAtOrphan && k < |h.ms| && c < Rows(h, k)
    ensures (Cluster(k, c), v) in Edges(h) <==>
      exists j | 0 <= j < |h.idx| ::
        && Weight(h, k, c, j) > 0.0 && v in Walk(Edges(h).Keys, LeafAt(h, j), k)
        && forall j' | 0 <= j' < j :: !Lost(h, k, c, j')
  {
    var e := (Cluster(k, c), v);
    UptoIff(h, |h.ms|, e);
    LevelIff(h, k, e);
    if e in Edges(h) {
      var j :| 0 <= j < |h.idx| && Alive(h, k, c, j) && Justifies(h, k, c, j, v);
      WalkBelow(h, k, j);
      AliveIff(h, k, c, j);
      forall j' | 0 <= j' < j ensures !Lost(h, k, c, j') {
        WalkBelow(h, k, j');
        assert !Orphan(h, k, c, j');
      }
    }
    if exists j | 0 <= j < |h.idx| ::
      && Weight(h, k, c, j) > 0.0 && v in Walk(Edges(h).Keys, LeafAt(h, j), k)
      && forall j' | 0 <= j' < j :: !Lost(h, k, c, j')
    {
      var j :| 0 <= j < |h.idx|
        && Weight(h, k, c, j) > 0.0 && v in Walk(Edges(h).Keys, LeafAt(h, j), k)
        && forall j' | 0 <= j' < j :: !Lost(h, k, c, j');
      WalkBelow(h, k, j);
      forall j' | 0 <= j' < j ensures !Orphan(h, k, c, j') {
        WalkBelow(h, k, j');
        assert !Lost(h, k, c, j');
      }
      AliveIff(h, k, c, j);
      assert Alive(h, k, c, j) && Justifies(h, k, c, j, v);
    }
  }

  /** Every edge of an earlier graph joins two of its nodes, one layer apart, with a positive weight. */
  lemma EarlierEdges(h: Spec, e: Edge)
    requires Fits(h) && e in Earlier(h).edges
    ensures e.0 in Earlier(h).nodes && e.1 in Earlier(h).nodes
    ensures e.0.Cluster? && Depth(e.0) == Depth(e.1) + 1
    ensures Earlier(h).edges[e] > 0.0
  {
    UptoLayered(h, |h.ms|);
    UptoIff(h, |h.ms|, e);
    LevelIff(h, e.0.level, e);
    LastWeightWitness(h, e.0.level, e.0.index, e.1, |h.idx|);
  }

  /** Two leaves `a` and `b`; the one layer-0 cluster holds `b` only, the one layer-1 cluster both. */
  function BreakExample(stopAtOrphan: bool): (h: Spec)
    ensures Fits(h)
  {
    Spec([Matrix(2, [[0.0, 1.0]]), Matrix(2, [[1.0, 1.0]])], ["a", "b"], [0, 1], stopAtOrphan)
  }

  lemma BreakExampleLevelZero(stopAtOrphan: bool)
    ensures Level(BreakExample(stopAtOrphan), 0) == {(Cluster(0, 0), Leaf("b"))}
  {
    var h := BreakExample(stopAtOrphan);
    forall e | e in Level(h, 0) ensures e == (Cluster(0, 0), Leaf("b")) {
      LevelIff(h, 0, e);
      var j :| 0 <= j < 2 && Alive(h, 0, 0, j) && Justifies(h, 0, 0, j, e.1);
      assert j == 1;
    }
    var e := (Cluster(0, 0), Leaf("b"));
    assert Alive(h, 0, 0, 1) && Justifies(h, 0, 0, 1, e.1);
    LevelIff(h, 0, e);
  }

  /** With the `break`, leaf `a` (a member of the layer-1 cluster without a layer-0 cluster) ends the
      loop before leaf `b`, so the layer-1 cluster gets no edge to the layer-0 cluster that holds
      `b`; without it, the edge is there. */
  lemma BreakDropsEdge()
    ensures (Cluster(1, 0), Cluster(0, 0)) !in Edges(BreakExample(true))
    ensures (Cluster(1, 0), Cluster(0, 0)) in Edges(BreakExample(false))
  {
    var e := (Cluster(1, 0), Cluster(0, 0));
    var h1, h2 := BreakExample(true), BreakExample(false);
    BreakExampleLevelZero(true);
    BreakExampleLevelZero(false);
    assert Below(h1, 1, 0) == {} && Below(h2, 1, 0) == {};
    assert Below(h2, 1, 1) == {Cluster(0, 0)} by {
      assert InEdges(Level(h2, 0), {Leaf("b")}) == {(Cluster(0, 0), Leaf("b"))};
    }
    assert !Alive(h1, 1, 0, 1);
    Stopped(h1, 1, 0, 1, 2, Cluster(0, 0));
    assert !Linked(h1, 1, 0, Cluster(0, 0));
    LevelIff(h1, 1, e);
    UptoIff(h1, 2, e);
    assert Alive(h2, 1, 0, 1) && Justifies(h2, 1, 0, 1, Cluster(0, 0));
    LevelIff(h2, 1, e);
    UptoIff(h2, 2, e);
  }
}
