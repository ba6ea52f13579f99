/**
 The visualiser of atap_wrapper.py: a `Viz` holds one hierarchy graph with exactly one root,
 knows the depths it can show (0 up to the root's level), and caches one rendered view per
 depth, filled in lazily and never overwritten. The tree data, its per-depth merging and the
 rendering into HTML are done by code outside this model; they enter as values.
 */
module Visualise {
  import opened Graphs
  import opened Hierarchy
  import opened AtapBuilder
  import opened AtapGraph

  /** The two layouts, `./viz/radial-cluster.js` and `./viz/collapsible-tree.js`. */
  datatype Layout = Radial | Tree

  /** A rendered depth: the embedded HTML and the data file it reads. */
  datatype View = View(html: string, dataFile: string)

  datatype VizError =
    | RootCount(count: nat)          // AssertionError "Expecting only 1 root"
    | DepthAboveMax(maxDepth: int)   // "TopSBM have only inferred a maximum depth of {max_depth}."
    | DepthBelowMin                  // "TopSBM have a minimum of depth 0."
    | DepthNotMerged(depth: int)     // the KeyError of `self.htmls[depth]`

  /** `max_depth`: the level on the root's attributes, which `nx.tree_data` puts on the top of the tree. */
  function RootLevel(a: Attrs): int {
    if a.ClusterMeta? then a.level else 0
  }

  /** The cache after `display(depth)`: unchanged when `depth` is out of range or already cached;
      otherwise every merged depth that is not cached yet is added. */
  function CacheAfter(htmls: map<int, View>, maxDepth: int, depth: int, merged: map<int, View>): map<int, View> {
    if depth > maxDepth || depth < 0 || depth in htmls then htmls else merged + htmls
  }

  /** The HTML `display(depth)` returns or the error it raises. */
  function Shown(htmls: map<int, View>, maxDepth: int, depth: int, merged: map<int, View>): Result<string, VizError> {
    if depth > maxDepth then Err(DepthAboveMax(maxDepth))
    else if depth < 0 then Err(DepthBelowMin)
    else
      var cache := CacheAfter(htmls, maxDepth, depth, merged);
      if depth in cache then Ok(cache[depth].html) else Err(DepthNotMerged(depth))
  }

  /** The cache only grows: every cached view stays as it was. */
  lemma CacheKeeps(htmls: map<int, View>, maxDepth: int, depth: int, merged: map<int, View>)
    ensures htmls.Keys <= CacheAfter(htmls, maxDepth, depth, merged).Keys
    ensures forall d | d in htmls :: CacheAfter(htmls, maxDepth, depth, merged)[d] == htmls[d]
    ensures forall d | d in CacheAfter(htmls, maxDepth, depth, merged) ::
      d in htmls || (d in merged && CacheAfter(htmls, maxDepth, depth, merged)[d] == merged[d])
  {
  }

  /** Displaying a depth twice shows the same view and leaves the cache as the first call left it. */
  lemma DisplayIdempotent(htmls: map<int, View>, maxDepth: int, depth: int, merged: map<int, View>)
    ensures CacheAfter(CacheAfter(htmls, maxDepth, depth, merged), maxDepth, depth, merged)
      == CacheAfter(htmls, maxDepth, depth, merged)
    ensures Shown(CacheAfter(htmls, maxDepth, depth, merged), maxDepth, depth, merged)
      == Shown(htmls, maxDepth, depth, merged)
  {
    var c := CacheAfter(htmls, maxDepth, depth, merged);
    if 0 <= depth <= maxDepth && depth !in htmls && depth !in merged {
      assert depth !in c;
      assert merged + c == c;
    }
  }

  /** A cached depth is shown from the cache, whatever the merged views are. */
  lemma CachedDepth(htmls: map<int, View>, maxDepth: int, depth: int, merged: map<int, View>)
    requires 0 <= depth <= maxDepth && depth in htmls
    ensures Shown(htmls, maxDepth, depth, merged) == Ok(htmls[depth].html)
    ensures CacheAfter(htmls, maxDepth, depth, merged) == htmls
  {
  }

  class Viz {
    const kind: MembershipKind
    const layout: Layout
    const digraph: Graph
    /** The one node flagged `is_root`. */
    const root: Node
    /** The view of depth 0, rendered from the whole tree. */
    const initial: View
    var htmls: map<int, View>

    ghost predicate Valid()
      reads this
    {
      && Roots(digraph) == {root}
      && 0 in htmls && htmls[0] == initial
    }

    constructor (kind: MembershipKind, layout: Layout, digraph: Graph, root: Node, initial: View)
      requires Roots(digraph) == {root}
      ensures Valid()
      ensures this.kind == kind && this.layout == layout && this.digraph == digraph
      ensures this.root == root && this.initial == initial
      ensures htmls == map[0 := initial]
    {
      this.kind := kind;
      this.layout := layout;
      this.digraph := digraph;
      this.root := root;
      this.initial := initial;
      htmls := map[0 := initial];
    }

    function MinDepth(): int {
      0
    }

    /** `max_depth`: the level of the root. */
    function MaxDepth(): int
      requires Roots(digraph) == {root}
    {
      RootLevel(digraph.nodes[root])
    }

    /** `display(depth)`, with `merged` the views `merge_leafs_per_depth` and `embed_js` would give
        for every depth. */
    method Display(depth: int, merged: map<int, View>) returns (r: Result<string, VizError>)
      requires Valid()
      modifies this
      ensures Valid()
      ensures htmls == CacheAfter(old(htmls), MaxDepth(), depth, merged)
      ensures r == Shown(old(htmls), MaxDepth(), depth, merged)
    {
      if depth > MaxDepth() {
        return Err(DepthAboveMax(MaxDepth()));
      }
      if depth < MinDepth() {
        return Err(DepthBelowMin);
      }
      if depth !in htmls {
        var todo := merged.Keys;
        while todo != {}
          invariant todo <= merged.Keys
          invariant htmls == (map d | d in merged.Keys - todo :: merged[d]) + old(htmls)
          decreases todo
        {
          // the order in which `dict.items()` visits the merged depths does not matter
          assert exists d :: d in todo by {
            // a non-empty set has a member: the case without one contradicts `todo != {}`
            if forall d :: d !in todo {
            }
          }
          var mergeLevel :| mergeLevel in todo;
          if mergeLevel !in htmls {
            htmls := htmls[mergeLevel := merged[mergeLevel]];
          }
          todo := todo - {mergeLevel};
        }
        assert (map d | d in merged.Keys :: merged[d]) == merged;
      }
      if depth !in htmls {
        return Err(DepthNotMerged(depth));
      }
      r := Ok(htmls[depth].html);
    }
  }

  /** `Viz(kind, hierarchy, digraph)`: fails unless exactly one node is flagged `is_root`. */
  method NewViz(kind: MembershipKind, layout: Layout, digraph: Graph, initial: View) returns (r: Result<Viz, VizError>)
    ensures r.Err? <==> |Roots(digraph)| != 1
    ensures r.Err? ==> r.error == RootCount(|Roots(digraph)|)
    ensures r.Ok? ==> fresh(r.value) && r.value.Valid() && r.value.digraph == digraph && r.value.htmls == map[0 := initial]
    ensures r.Ok? ==> r.value.kind == kind && r.value.layout == layout
  {
    var roots := Roots(digraph);
    if |roots| != 1 {
      return Err(RootCount(|roots|));
    }
    var root :| root in roots;
    assert roots == {root} by {
      assert |roots - {root}| == 0;
      assert roots - {root} == {};
    }
    var v := new Viz(kind, layout, digraph, root, initial);
    r := Ok(v);
  }

  /** The graph the current builder returns passes the one-root check of `Viz` exactly when the
      top level has one cluster; the deepest depth shown is then the top level. */
  lemma BuiltVisualisable(h: Spec, categories: Option<seq<string>>)
    requires Fits(h) && CategoriesFit(h.labels, categories) && 0 < |h.ms|
    ensures |Roots(Built(h, categories))| == 1 <==> Rows(h, |h.ms| - 1) == 1
    ensures Rows(h, |h.ms| - 1) == 1 ==>
      && Roots(Built(h, categories)) == {Cluster(|h.ms| - 1, 0)}
      && RootLevel(Built(h, categories).nodes[Cluster(|h.ms| - 1, 0)]) == |h.ms| - 1
  {
    BuiltRoots(h, categories);
    var top := |h.ms| - 1;
    if Rows(h, top) == 1 {
      assert LevelSet(top, 1) == {Cluster(top, 0)};
      var n := Cluster(top, 0);
      assert n in ClusterNodes(h, |h.ms|);
      assert Unpruned(h, categories).nodes[n] == ClusterMeta(top, true);
    }
  }
}
