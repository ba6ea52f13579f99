/**
 The directed graph that both hierarchy builders fill in: its nodes (leaves and
 clusters), the attributes attached to them, weighted edges, and the networkx
 operations the builders call (add_nodes_from, add_edge, remove_nodes_from).
 */
module Graphs {

  datatype Option<+T> = None | Some(value: T)

  datatype Result<+T, +E> = Ok(value: T) | Err(error: E)

  /** A leaf (document id or word) or the cluster `index` of hierarchy level `level`. */
  datatype Node = Leaf(id: string) | Cluster(level: nat, index: nat)

  type Edge = (Node, Node)

  /** The attribute dictionaries the builders attach to nodes. */
  datatype Attrs =
    | NoAttrs                                  // a node added without attributes
    | Category(category: string)               // {"category": c} on a leaf
    | ClusterMeta(level: nat, isRoot: bool)    // {"kind": "cluster", "level": k, "is_root": b}
    | LayerMeta(layer: nat)                    // {"kind": "cluster", "layer": k}

  /** `attrs.get("is_root", False)` */
  predicate IsRoot(a: Attrs) {
    a.ClusterMeta? && a.isRoot
  }

  /** Leaves sit one step below level 0. */
  function Depth(n: Node): int {
    match n
    case Leaf(_) => -1
    case Cluster(k, _) => k
  }

  /** A dense membership matrix: `rows[c][leaf]`, with `cols` its column count (numpy's shape[1]). */
  datatype Matrix = Matrix(cols: nat, rows: seq<seq<real>>)

  predicate Shaped(m: Matrix) {
    forall r | 0 <= r < |m.rows| :: |m.rows[r]| == m.cols
  }

  /** `list(range(n))` */
  function Range(n: nat): (r: seq<nat>)
    ensures |r| == n && forall i | 0 <= i < n :: r[i] == i
  {
    seq(n, i requires 0 <= i => i)
  }

  /** Which side of the bipartite document-word network a graph is built for. */
  datatype MembershipKind = Documents | Words

  /** `model.group_membership(l=level)`: the document and the word membership matrices of one level. */
  datatype LayerMemberships = LayerMemberships(documents: Matrix, words: Matrix)

  /** `model.group_membership(l=level)[MEMBERSHIP_IDX]` for every level. */
  function MembershipsOf(layers: seq<LayerMemberships>, kind: MembershipKind): (ms: seq<Matrix>)
    ensures |ms| == |layers|
    ensures forall l | 0 <= l < |layers| :: ms[l] == if kind == Documents then layers[l].documents else layers[l].words
  {
    seq(|layers|, l requires 0 <= l < |layers| => if kind == Documents then layers[l].documents else layers[l].words)
  }

  /** The value of a graph: its nodes with their attributes and its weighted edges. */
  datatype Graph = Graph(nodes: map<Node, Attrs>, edges: map<Edge, real>)

  /** The nodes flagged `is_root`. */
  function Roots(g: Graph): set<Node> {
    set n | n in g.nodes && IsRoot(g.nodes[n])
  }

  function InEdges(E: set<Edge>, S: set<Node>): (r: set<Edge>)
    ensures r <= E
  {
    set e | e in E && e.1 in S
  }

  function Sources(E: set<Edge>): set<Node> {
    set e | e in E :: e.0
  }

  function Targets(E: set<Edge>): set<Node> {
    set e | e in E :: e.1
  }

  /** The nodes with an edge into `S`. */
  function Up(E: set<Edge>, S: set<Node>): set<Node> {
    Sources(InEdges(E, S))
  }

  lemma SourcesEmpty(E: set<Edge>)
    ensures Sources(E) == {} <==> E == {}
  {
    if E != {} {
      var e :| e in E;
      assert e.0 in Sources(E);
    }
  }

  /** The nodes `n` edges above `s`: `Walk(E, s, n + 1) == Up(E, Walk(E, s, n))`. */
  function Walk(E: set<Edge>, s: Node, n: nat): set<Node> {
    if n == 0 then {s} else Up(E, Walk(E, s, n - 1))
  }

  /** Every edge goes from a cluster to a node exactly one level below it. */
  predicate Layered(E: set<Edge>) {
    forall e | e in E :: e.0.Cluster? && Depth(e.0) == Depth(e.1) + 1
  }

  lemma {:induction false} WalkDepth(E: set<Edge>, s: Node, n: nat)
    requires Layered(E)
    ensures forall p | p in Walk(E, s, n) :: Depth(p) == Depth(s) + n
    ensures n > 0 ==> forall p | p in Walk(E, s, n) :: p.Cluster?
  {
    if n > 0 {
      WalkDepth(E, s, n - 1);
      forall p | p in Walk(E, s, n)
        ensures Depth(p) == Depth(s) + n && p.Cluster?
      {
        var e :| e in InEdges(E, Walk(E, s, n - 1)) && e.0 == p;
      }
    }
  }

  /** Edges outside `E1` that point into `S` do not change who points into `S`. */
  lemma UpOnly(E: set<Edge>, E1: set<Edge>, S: set<Node>)
    requires E1 <= E
    requires forall e | e in E && e !in E1 :: e.1 !in S
    ensures Up(E, S) == Up(E1, S)
  {
    assert InEdges(E, S) == InEdges(E1, S);
  }

  /** networkx `add_nodes_from`: the attributes of `n` after adding `items`, starting from `base`.
      The last item for `n` that carries attributes wins; items without attributes leave a
      node's attributes alone. */
  function Assigned(items: seq<(Node, Attrs)>, n: Node, base: Attrs): Attrs {
    if items == [] then base
    else
      var last := items[|items| - 1];
      if last.0 == n && last.1 != NoAttrs then last.1 else Assigned(items[..|items| - 1], n, base)
  }

  function ItemNodes(items: seq<(Node, Attrs)>): set<Node> {
    set i | 0 <= i < |items| :: items[i].0
  }

  function Existing(m: map<Node, Attrs>, n: Node): Attrs {
    if n in m then m[n] else NoAttrs
  }

  /** A node's attributes after `add_nodes_from` are its old ones or those of one of the items. */
  lemma {:induction false} AssignedSource(items: seq<(Node, Attrs)>, n: Node, base: Attrs)
    ensures Assigned(items, n, base) == base ||
      exists i | 0 <= i < |items| :: items[i] == (n, Assigned(items, n, base))
  {
    if items != [] {
      var front := items[..|items| - 1];
      AssignedSource(front, n, base);
      if Assigned(items, n, base) == Assigned(front, n, base) && Assigned(front, n, base) != base {
        var i :| 0 <= i < |front| && front[i] == (n, Assigned(front, n, base));
        assert items[i] == front[i];
      }
    }
  }

  lemma {:induction false} AssignedAbsent(items: seq<(Node, Attrs)>, n: Node, base: Attrs)
    requires n !in ItemNodes(items)
    ensures Assigned(items, n, base) == base
  {
    if items != [] {
      var front := items[..|items| - 1];
      assert ItemNodes(front) <= ItemNodes(items) by {
        forall x | x in ItemNodes(front) ensures x in ItemNodes(items) {
          var i :| 0 <= i < |front| && front[i].0 == x;
          assert items[i].0 == x;
        }
      }
      assert items[|items| - 1].0 in ItemNodes(items);
      AssignedAbsent(front, n, base);
    }
  }

  /** The item at position `i` is the last one for its node, so its attributes are the node's. */
  lemma {:induction false} AssignedAt(items: seq<(Node, Attrs)>, i: nat, base: Attrs)
    requires i < |items| && items[i].1 != NoAttrs
    requires forall i' | i < i' < |items| :: items[i'].0 != items[i].0
    ensures Assigned(items, items[i].0, base) == items[i].1
  {
    if i < |items| - 1 {
      var front := items[..|items| - 1];
      assert front[i] == items[i];
      AssignedAt(front, i, base);
    }
  }

  /** A networkx DiGraph: attributed nodes and weighted edges, changed in place. */
  class DiGraph {
    var nodes: map<Node, Attrs>
    var edges: map<Edge, real>

    constructor ()
      ensures nodes == map[] && edges == map[]
    {
      nodes := map[];
      edges := map[];
    }

    function Snapshot(): Graph
      reads this
    {
      Graph(nodes, edges)
    }

    /** `add_nodes_from(items)`: adds missing nodes and merges the given attributes into existing ones. */
    method AddNodesFrom(items: seq<(Node, Attrs)>)
      modifies this
      ensures edges == old(edges)
      ensures nodes.Keys == old(nodes).Keys + ItemNodes(items)
      ensures forall n | n in nodes :: nodes[n] == Assigned(items, n, Existing(old(nodes), n))
    {
      var i := 0;
      while i < |items|
        invariant 0 <= i <= |items|
        invariant edges == old(edges)
        invariant nodes.Keys == old(nodes).Keys + ItemNodes(items[..i])
        invariant forall n | n in nodes :: nodes[n] == Assigned(items[..i], n, Existing(old(nodes), n))
      {
        var (n, a) := items[i];
        assert items[..i + 1][..i] == items[..i];
        assert ItemNodes(items[..i + 1]) == ItemNodes(items[..i]) + {n} by {
          forall x | x in ItemNodes(items[..i + 1]) ensures x in ItemNodes(items[..i]) + {n} {
            var k :| 0 <= k < i + 1 && items[..i + 1][k].0 == x;
            if k < i { assert items[..i][k].0 == x; }
          }
          forall x | x in ItemNodes(items[..i]) ensures x in ItemNodes(items[..i + 1]) {
            var k :| 0 <= k < i && items[..i][k].0 == x;
            assert items[..i + 1][k].0 == x;
          }
          assert items[..i + 1][i].0 == n;
        }
        if n in nodes {
          if a != NoAttrs {
            nodes := nodes[n := a];
          }
        } else {
          AssignedAbsent(items[..i], n, Existing(old(nodes), n));
          nodes := nodes[n := a];
        }
        i := i + 1;
      }
      assert items[..|items|] == items;
    }

    /** `add_edge(u, v, weight=w)`: adds missing endpoints without attributes; the weight of an
        existing edge is overwritten. */
    method AddEdge(u: Node, v: Node, w: real)
      modifies this
      ensures edges == old(edges)[(u, v) := w]
      ensures nodes.Keys == old(nodes).Keys + {u, v}
      ensures forall n | n in old(nodes) :: nodes[n] == old(nodes)[n]
      ensures forall n | n in nodes && n !in old(nodes) :: nodes[n] == NoAttrs
    {
      if u !in nodes {
        nodes := nodes[u := NoAttrs];
      }
      if v !in nodes {
        nodes := nodes[v := NoAttrs];
      }
      edges := edges[(u, v) := w];
    }

    /** `remove_nodes_from(ns)`: drops the nodes and every edge touching them. */
    method RemoveNodesFrom(ns: set<Node>)
      modifies this
      ensures nodes == old(nodes) - ns
      ensures edges == map e | e in old(edges) && e.0 !in ns && e.1 !in ns :: old(edges)[e]
    {
      nodes := nodes - ns;
      edges := map e | e in edges && e.0 !in ns && e.1 !in ns :: edges[e];
    }
  }

  function Fan(u: Node, vs: set<Node>): set<Edge> {
    set v | v in vs :: (u, v)
  }

  /** `for v in vs: G.add_edge(u, v, weight=w)`, for targets already in the graph. */
  method AddEdgesTo(G: DiGraph, u: Node, vs: set<Node>, w: real)
    requires u in G.nodes && vs <= G.nodes.Keys
    modifies G
    ensures G.nodes == old(G.nodes)
    ensures G.edges.Keys == old(G.edges).Keys + Fan(u, vs)
    ensures forall e | e in G.edges :: G.edges[e] == if e.0 == u && e.1 in vs then w else old(G.edges)[e]
  {
    var todo := vs;
    while todo != {}
      invariant todo <= vs
      invariant G.nodes == old(G.nodes)
      invariant G.edges.Keys == old(G.edges).Keys + Fan(u, vs - todo)
      invariant forall e | e in G.edges ::
        G.edges[e] == if e.0 == u && e.1 in vs - todo then w else old(G.edges)[e]
      decreases todo
    {
      var v :| v in todo;
      G.AddEdge(u, v, w);
      assert G.nodes.Keys == old(G.nodes).Keys;
      todo := todo - {v};
      assert Fan(u, vs - todo) == Fan(u, vs - (todo + {v})) + {(u, v)};
    }
  }
}
