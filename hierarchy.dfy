/**
 The hierarchy both builders are meant to produce, defined level by level from the
 membership matrices alone (no graph, no edge scans): a level-0 cluster points to every
 leaf it contains; a level-k cluster points to the level-(k-1) ancestors of every leaf it
 contains. The builders' backward walks through the edges already in the graph are
 proved to compute exactly these ancestors.
 */
module Hierarchy {
  import opened Graphs

  /** What one build works on: the membership matrix of every level (for one kind of leaf),
      the leaf labels, the label positions the leaf loop visits in order, and whether that loop
      stops at the first member leaf that has no lineage yet (the earlier revision's `break`). */
  datatype Spec = Spec(ms: seq<Matrix>, labels: seq<string>, idx: seq<nat>, stopAtOrphan: bool)

  predicate Fits(h: Spec) {
    forall j | 0 <= j < |h.idx| :: h.idx[j] < |h.labels|
  }

  /** The matrix of level `k` is rectangular and has a column for every visited label position. */
  predicate ColumnsCover(h: Spec, k: nat)
    requires k < |h.ms|
  {
    Shaped(h.ms[k]) && forall j | 0 <= j < |h.idx| :: h.idx[j] < h.ms[k].cols
  }

  function Rows(h: Spec, k: nat): nat
    requires k < |h.ms|
  {
    |h.ms[k].rows|
  }

  /** `memberships[c, idx[j]]` at level `k`. */
  function Weight(h: Spec, k: nat, c: nat, j: nat): real
    requires k < |h.ms| && c < Rows(h, k) && j < |h.idx|
  {
    var row := h.ms[k].rows[c];
    if h.idx[j] < |row| then row[h.idx[j]] else 0.0
  }

  /** The leaf at the `j`-th visited label position. */
  function LeafAt(h: Spec, j: nat): Node
    requires Fits(h) && j < |h.idx|
  {
    Leaf(h.labels[h.idx[j]])
  }

  /** What a level-`k` cluster containing the `j`-th leaf points to. */
  function Below(h: Spec, k: nat, j: nat): set<Node>
    requires Fits(h) && k < |h.ms| && j < |h.idx|
    decreases k, 1, 0
  {
    if k == 0 then {LeafAt(h, j)} else AncAt(h, k - 1, LeafAt(h, j))
  }

  /** The level-`k` ancestors of `s`. */
  function AncAt(h: Spec, k: nat, s: Node): set<Node>
    requires Fits(h) && k < |h.ms|
    decreases k, 6, 0
  {
    if k == 0 then Up(Level(h, 0), {s}) else Up(Level(h, k), AncAt(h, k - 1, s))
  }

  /** A positive membership of leaf `j` in cluster `c` justifies an edge from `c` to `v`. */
  predicate Justifies(h: Spec, k: nat, c: nat, j: nat, v: Node)
    requires Fits(h) && k < |h.ms| && c < Rows(h, k) && j < |h.idx|
    decreases k, 2, 0
  {
    Weight(h, k, c, j) > 0.0 && v in Below(h, k, j)
  }

  /** Leaf `j` is a member of cluster `c` at a level above 0 but has no lineage to extend. */
  predicate Orphan(h: Spec, k: nat, c: nat, j: nat)
    requires Fits(h) && k < |h.ms| && c < Rows(h, k) && j < |h.idx|
    decreases k, 2, 0
  {
    k > 0 && Weight(h, k, c, j) > 0.0 && Below(h, k, j) == {}
  }

  /** The leaf loop of cluster `c` is still running when it reaches position `J`. */
  predicate Alive(h: Spec, k: nat, c: nat, J: nat)
    requires Fits(h) && k < |h.ms| && c < Rows(h, k) && J <= |h.idx|
    decreases k, 3, J
  {
    J == 0 || (Alive(h, k, c, J - 1) && !(h.stopAtOrphan && Orphan(h, k, c, J - 1)))
  }

  function Contrib(h: Spec, k: nat, c: nat, j: nat): set<Edge>
    requires Fits(h) && k < |h.ms| && c < Rows(h, k) && j < |h.idx|
    decreases k, 2, 0
  {
    if Weight(h, k, c, j) > 0.0 then Fan(Cluster(k, c), Below(h, k, j)) else {}
  }

  /** The edges out of cluster `c` of level `k` once the leaf loop has seen `J` positions. */
  function Row(h: Spec, k: nat, c: nat, J: nat): set<Edge>
    requires Fits(h) && k < |h.ms| && c < Rows(h, k) && J <= |h.idx|
    decreases k, 3, J
  {
    if J == 0 then {}
    else Row(h, k, c, J - 1) + (if Alive(h, k, c, J - 1) then Contrib(h, k, c, J - 1) else {})
  }

  function LevelUpTo(h: Spec, k: nat, C: nat): set<Edge>
    requires Fits(h) && k < |h.ms| && C <= Rows(h, k)
    decreases k, 4, C
  {
    if C == 0 then {} else LevelUpTo(h, k, C - 1) + Row(h, k, C - 1, |h.idx|)
  }

  /** The edges out of the clusters of level `k`. */
  function Level(h: Spec, k: nat): set<Edge>
    requires Fits(h) && k < |h.ms|
    decreases k, 5, 0
  {
    LevelUpTo(h, k, Rows(h, k))
  }

  /** The edges out of the clusters of levels below `K`. */
  function Upto(h: Spec, K: nat): set<Edge>
    requires Fits(h) && K <= |h.ms|
  {
    if K == 0 then {} else Upto(h, K - 1) + Level(h, K - 1)
  }

  function LeafNodes(h: Spec): set<Node>
    requires Fits(h)
  {
    set j | 0 <= j < |h.idx| :: LeafAt(h, j)
  }

  function ClusterNodes(h: Spec, K: nat): set<Node>
    requires K <= |h.ms|
  {
    set k, i | 0 <= k < K && 0 <= i < Rows(h, k) :: Cluster(k, i)
  }

  /** The membership of the last label position before `J` that justified the edge from cluster
      `c` to `v` (networkx keeps the last weight written), or 0 when none did. */
  function LastWeight(h: Spec, k: nat, c: nat, v: Node, J: nat): real
    requires Fits(h) && k < |h.ms| && c < Rows(h, k) && J <= |h.idx|
  {
    if J == 0 then 0.0
    else if Alive(h, k, c, J - 1) && Justifies(h, k, c, J - 1, v) then Weight(h, k, c, J - 1)
    else LastWeight(h, k, c, v, J - 1)
  }

  function EdgeWeight(h: Spec, e: Edge): real
    requires Fits(h)
  {
    if e.0.Cluster? && e.0.level < |h.ms| && e.0.index < Rows(h, e.0.level)
    then LastWeight(h, e.0.level, e.0.index, e.1, |h.idx|)
    else 0.0
  }

  /** The weighted edges of the whole hierarchy. */
  function Edges(h: Spec): map<Edge, real>
    requires Fits(h)
  {
    map e | e in Upto(h, |h.ms|) :: EdgeWeight(h, e)
  }

  // ---------------------------------------------------------------------------
  // Which edges each level holds

  /** Some label position before `J`, reached while the loop was running, justifies `(c, v)`. */
  predicate LinkedUpTo(h: Spec, k: nat, c: nat, v: Node, J: nat)
    requires Fits(h) && k < |h.ms| && c < Rows(h, k) && J <= |h.idx|
  {
    exists j | 0 <= j < J :: Alive(h, k, c, j) && Justifies(h, k, c, j, v)
  }

  predicate Linked(h: Spec, k: nat, c: nat, v: Node)
    requires Fits(h) && k < |h.ms| && c < Rows(h, k)
  {
    LinkedUpTo(h, k, c, v, |h.idx|)
  }

  lemma {:induction false} RowIff(h: Spec, k: nat, c: nat, J: nat, e: Edge)
    requires Fits(h) && k < |h.ms| && c < Rows(h, k) && J <= |h.idx|
    ensures e in Row(h, k, c, J) <==> e.0 == Cluster(k, c) && LinkedUpTo(h, k, c, e.1, J)
  {
    if J > 0 {
      RowIff(h, k, c, J - 1, e);
      if e.0 == Cluster(k, c) && LinkedUpTo(h, k, c, e.1, J) && !LinkedUpTo(h, k, c, e.1, J - 1) {
        assert Alive(h, k, c, J - 1) && Justifies(h, k, c, J - 1, e.1);
        assert e in Fan(Cluster(k, c), Below(h, k, J - 1));
      }
      if e in Contrib(h, k, c, J - 1) && Alive(h, k, c, J - 1) {
        assert e.0 == Cluster(k, c) && Justifies(h, k, c, J - 1, e.1);
      }
    }
  }

  lemma {:induction false} LevelUpToIff(h: Spec, k: nat, C: nat, e: Edge)
    requires Fits(h) && k < |h.ms| && C <= Rows(h, k)
    ensures e in LevelUpTo(h, k, C) <==>
      e.0.Cluster? && e.0.level == k && e.0.index < C && Linked(h, k, e.0.index, e.1)
  {
    if C > 0 {
      LevelUpToIff(h, k, C - 1, e);
      RowIff(h, k, C - 1, |h.idx|, e);
    }
  }

  /** An edge belongs to level `k` exactly when it leaves a level-`k` cluster `c` towards a node
      that some member leaf of `c` justifies. */
  lemma LevelIff(h: Spec, k: nat, e: Edge)
    requires Fits(h) && k < |h.ms|
    ensures e in Level(h, k) <==>
      e.0.Cluster? && e.0.level == k && e.0.index < Rows(h, k) && Linked(h, k, e.0.index, e.1)
  {
    LevelUpToIff(h, k, Rows(h, k), e);
  }

  /** The ancestors of level `k` are clusters of level `k`. */
  lemma AncShape(h: Spec, k: nat, s: Node)
    requires Fits(h) && k < |h.ms|
    ensures forall p | p in AncAt(h, k, s) :: p.Cluster? && p.level == k && p.index < Rows(h, k)
  {
    forall p | p in AncAt(h, k, s) ensures p.Cluster? && p.level == k && p.index < Rows(h, k) {
      var S := if k == 0 then {s} else AncAt(h, k - 1, s);
      var e :| e in InEdges(Level(h, k), S) && e.0 == p;
      LevelIff(h, k, e);
    }
  }

  /** A level-0 cluster points to a leaf; a level-k cluster to a cluster of level k-1. */
  lemma BelowShape(h: Spec, k: nat, j: nat)
    requires Fits(h) && k < |h.ms| && j < |h.idx|
    ensures forall v | v in Below(h, k, j) :: Depth(v) == k - 1
    ensures k == 0 ==> Below(h, k, j) == {LeafAt(h, j)}
    ensures k > 0 ==> forall v | v in Below(h, k, j) :: v.Cluster? && v.index < Rows(h, k - 1)
  {
    if k > 0 {
      AncShape(h, k - 1, LeafAt(h, j));
    }
  }

  /** Every edge of level `k` leaves a cluster of level `k` for a node of level k-1, and a
      level-0 edge ends at a leaf that was visited. */
  lemma LevelShape(h: Spec, k: nat, e: Edge)
    requires Fits(h) && k < |h.ms| && e in Level(h, k)
    ensures e.0.Cluster? && e.0.level == k && e.0.index < Rows(h, k) && Depth(e.1) == k - 1
    ensures k == 0 ==> e.1 in LeafNodes(h)
    ensures k > 0 ==> e.1 in ClusterNodes(h, k)
  {
    LevelIff(h, k, e);
    var j :| 0 <= j < |h.idx| && Alive(h, k, e.0.index, j) && Justifies(h, k, e.0.index, j, e.1);
    BelowShape(h, k, j);
    if k > 0 {
      assert e.1 == Cluster(k - 1, e.1.index);
    }
  }

  /** The edges of level `k` written so far (all clusters before `c`, and `c` up to position `J`)
      leave level `k` for level k-1. */
  lemma PartialLevel(h: Spec, k: nat, c: nat, J: nat)
    requires Fits(h) && k < |h.ms| && c < Rows(h, k) && J <= |h.idx|
    ensures forall e | e in LevelUpTo(h, k, c) :: e.0.Cluster? && e.0.level == k && e.0.index < c
    ensures forall e | e in Row(h, k, c, J) :: e.0 == Cluster(k, c)
    ensures forall e | e in LevelUpTo(h, k, c) + Row(h, k, c, J) :: Depth(e.1) == k - 1
    ensures forall e | e in LevelUpTo(h, k, c) + Row(h, k, c, J) ::
      (k == 0 ==> e.1 in LeafNodes(h)) && (k > 0 ==> e.1 in ClusterNodes(h, k))
  {
    forall e | e in LevelUpTo(h, k, c) + Row(h, k, c, J)
      ensures e in LevelUpTo(h, k, c) ==> e.0.Cluster? && e.0.level == k && e.0.index < c
      ensures e in Row(h, k, c, J) ==> e.0 == Cluster(k, c)
      ensures Depth(e.1) == k - 1
      ensures (k == 0 ==> e.1 in LeafNodes(h)) && (k > 0 ==> e.1 in ClusterNodes(h, k))
    {
      LevelUpToIff(h, k, c, e);
      RowIff(h, k, c, J, e);
      var j: nat;
      if e in LevelUpTo(h, k, c) {
        j :| 0 <= j < |h.idx| && Alive(h, k, e.0.index, j) && Justifies(h, k, e.0.index, j, e.1);
      } else {
        j :| 0 <= j < J && Alive(h, k, c, j) && Justifies(h, k, c, j, e.1);
      }
      BelowShape(h, k, j);
      if k > 0 {
        assert e.1 == Cluster(k - 1, e.1.index);
      }
    }
  }

  lemma {:induction false} UptoIff(h: Spec, K: nat, e: Edge)
    requires Fits(h) && K <= |h.ms|
    ensures e in Upto(h, K) <==> e.0.Cluster? && e.0.level < K && e in Level(h, e.0.level)
  {
    if K > 0 {
      UptoIff(h, K - 1, e);
      if e in Level(h, K - 1) {
        LevelShape(h, K - 1, e);
      }
    }
  }

  /** The hierarchy links adjacent levels only. */
  lemma UptoLayered(h: Spec, K: nat)
    requires Fits(h) && K <= |h.ms|
    ensures Layered(Upto(h, K))
    ensures forall e | e in Upto(h, K) :: e.0 in ClusterNodes(h, K) && e.1 in LeafNodes(h) + ClusterNodes(h, K)
  {
    forall e | e in Upto(h, K)
      ensures e.0.Cluster? && Depth(e.0) == Depth(e.1) + 1
      ensures e.0 in ClusterNodes(h, K) && e.1 in LeafNodes(h) + ClusterNodes(h, K)
    {
      UptoIff(h, K, e);
      LevelShape(h, e.0.level, e);
      if e.0.level > 0 {
        assert ClusterNodes(h, e.0.level) <= ClusterNodes(h, K);
      }
    }
  }

  /** The backward walk over a graph holding every edge of the levels below `K`, plus edges
      `P` into level K-1 being added for level `K`, reaches exactly the ancestors. */
  lemma {:induction false} WalkAgrees(h: Spec, K: nat, P: set<Edge>, s: Node, t: nat)
    requires Fits(h) && 1 <= t <= K <= |h.ms| && s.Leaf?
    requires forall e | e in P :: Depth(e.1) == K - 1
    ensures Walk(Upto(h, K) + P, s, t) == AncAt(h, t - 1, s)
  {
    var E := Upto(h, K) + P;
    var S := Walk(E, s, t - 1);
    if t > 1 {
      WalkAgrees(h, K, P, s, t - 1);
      AncShape(h, t - 2, s);
    }
    assert Level(h, t - 1) <= Upto(h, K) by {
      forall e | e in Level(h, t - 1) ensures e in Upto(h, K) {
        LevelShape(h, t - 1, e);
        UptoIff(h, K, e);
      }
    }
    forall e | e in E && e !in Level(h, t - 1) ensures e.1 !in S {
      if e in Upto(h, K) {
        UptoIff(h, K, e);
        LevelShape(h, e.0.level, e);
      }
    }
    UpOnly(E, Level(h, t - 1), S);
  }

  // ---------------------------------------------------------------------------
  // The leaf loop: running, stopped, and the weight it leaves behind

  lemma {:induction false} AliveWithoutStop(h: Spec, k: nat, c: nat, J: nat)
    requires Fits(h) && k < |h.ms| && c < Rows(h, k) && J <= |h.idx| && !h.stopAtOrphan
    ensures Alive(h, k, c, J)
  {
    if J > 0 {
      AliveWithoutStop(h, k, c, J - 1);
    }
  }

  /** Once the leaf loop of a cluster has stopped, later label positions add nothing. */
  lemma {:induction false} Stopped(h: Spec, k: nat, c: nat, J0: nat, J: nat, v: Node)
    requires Fits(h) && k < |h.ms| && c < Rows(h, k) && J0 <= J <= |h.idx|
    requires !Alive(h, k, c, J0)
    ensures !Alive(h, k, c, J)
    ensures Row(h, k, c, J) == Row(h, k, c, J0)
    ensures LastWeight(h, k, c, v, J) == LastWeight(h, k, c, v, J0)
  {
    if J > J0 {
      Stopped(h, k, c, J0, J - 1, v);
    }
  }

  /** The weight of an edge is the positive membership of the last label position that justified
      it: networkx keeps the weight written last. */
  lemma {:induction false} LastWeightWitness(h: Spec, k: nat, c: nat, v: Node, J: nat)
    requires Fits(h) && k < |h.ms| && c < Rows(h, k) && J <= |h.idx|
    requires LinkedUpTo(h, k, c, v, J)
    ensures LastWeight(h, k, c, v, J) > 0.0
    ensures exists j | 0 <= j < J ::
      && Alive(h, k, c, j) && Justifies(h, k, c, j, v) && LastWeight(h, k, c, v, J) == Weight(h, k, c, j)
      && (forall j' | j < j' < J :: !(Alive(h, k, c, j') && Justifies(h, k, c, j', v)))
  {
    if !(Alive(h, k, c, J - 1) && Justifies(h, k, c, J - 1, v)) {
      var j :| 0 <= j < J && Alive(h, k, c, j) && Justifies(h, k, c, j, v);
      assert j < J - 1;
      LastWeightWitness(h, k, c, v, J - 1);
    }
  }

  // ---------------------------------------------------------------------------
  // The graph while a leaf loop runs

  /** The edges in the graph while the leaf loop of cluster `c` at level `level` has seen `j`
      label positions: finished levels and clusters carry their final weights, cluster `c` the
      last weight written so far. */
  ghost predicate RowState(edges: map<Edge, real>, h: Spec, level: nat, c: nat, j: nat)
    requires Fits(h) && level < |h.ms| && c < Rows(h, level) && j <= |h.idx|
  {
    && edges.Keys == Upto(h, level) + LevelUpTo(h, level, c) + Row(h, level, c, j)
    && forall e | e in edges ::
      edges[e] == if e.0 == Cluster(level, c) then LastWeight(h, level, c, e.1, j) else EdgeWeight(h, e)
  }

  /** Before the leaf loop of cluster `c`, the graph holds the finished edges. */
  lemma RowStateStart(E: map<Edge, real>, h: Spec, level: nat, c: nat)
    requires Fits(h) && level < |h.ms| && c < Rows(h, level)
    requires E.Keys == Upto(h, level) + LevelUpTo(h, level, c)
    requires forall e | e in E :: E[e] == EdgeWeight(h, e)
    ensures RowState(E, h, level, c, 0)
  {
    PartialLevel(h, level, c, 0);
    forall e | e in Upto(h, level) ensures e.0 != Cluster(level, c) {
      UptoIff(h, level, e);
    }
  }

  /** After the leaf loop of cluster `c`, the graph holds the finished edges of one more cluster. */
  lemma RowStateDone(E: map<Edge, real>, h: Spec, level: nat, c: nat)
    requires Fits(h) && level < |h.ms| && c < Rows(h, level)
    requires RowState(E, h, level, c, |h.idx|)
    ensures E.Keys == Upto(h, level) + LevelUpTo(h, level, c + 1)
    ensures forall e | e in E :: E[e] == EdgeWeight(h, e)
  {
  }

  /** While the loop runs, writing weight `Weight(j)` on the edges from cluster `c` to `Below(j)`
      when leaf `j` is a member, and nothing otherwise, moves the state from `j` to `j + 1`. */
  lemma RowStateStep(E: map<Edge, real>, E': map<Edge, real>, h: Spec, level: nat, c: nat, j: nat)
    requires Fits(h) && level < |h.ms| && c < Rows(h, level) && j < |h.idx|
    requires RowState(E, h, level, c, j) && Alive(h, level, c, j)
    requires Weight(h, level, c, j) > 0.0 ==>
      && E'.Keys == E.Keys + Fan(Cluster(level, c), Below(h, level, j))
      && forall e | e in E' ::
        E'[e] == if e.0 == Cluster(level, c) && e.1 in Below(h, level, j) then Weight(h, level, c, j) else E[e]
    requires Weight(h, level, c, j) <= 0.0 ==> E' == E
    ensures RowState(E', h, level, c, j + 1)
  {
    assert Row(h, level, c, j + 1) == Row(h, level, c, j) + Contrib(h, level, c, j);
  }

  /** Once the loop has stopped, the graph already holds the cluster's finished edges. */
  lemma RowStateStopped(E: map<Edge, real>, h: Spec, level: nat, c: nat, J0: nat)
    requires Fits(h) && level < |h.ms| && c < Rows(h, level) && J0 <= |h.idx|
    requires RowState(E, h, level, c, J0) && !Alive(h, level, c, J0)
    ensures RowState(E, h, level, c, |h.idx|)
  {
    Stopped(h, level, c, J0, |h.idx|, Leaf([]));
    forall e | e in E && e.0 == Cluster(level, c)
      ensures LastWeight(h, level, c, e.1, |h.idx|) == LastWeight(h, level, c, e.1, J0)
    {
      Stopped(h, level, c, J0, |h.idx|, e.1);
    }
  }

  /** While level `level` is being built, the edges in the graph are layered, and the backward
      walk from a visited leaf reaches exactly what its level-`level` cluster is to point to. */
  lemma RowStateWalk(E: map<Edge, real>, h: Spec, level: nat, c: nat, j: nat)
    requires Fits(h) && 0 < level < |h.ms| && c < Rows(h, level) && j < |h.idx|
    requires RowState(E, h, level, c, j)
    ensures Layered(E.Keys)
    ensures Walk(E.Keys, LeafAt(h, j), level) == Below(h, level, j)
  {
    PartialLevel(h, level, c, j);
    UptoLayered(h, level);
    var P := LevelUpTo(h, level, c) + Row(h, level, c, j);
    assert E.Keys == Upto(h, level) + P;
    WalkAgrees(h, level, P, LeafAt(h, j), level);
  }

  // ---------------------------------------------------------------------------
  // The finished hierarchy seen from its own edges

  /** What a level-`k` cluster with member leaf `j` points to is what lies `k` steps above that
      leaf in the finished graph. */
  lemma WalkBelow(h: Spec, k: nat, j: nat)
    requires Fits(h) && k < |h.ms| && j < |h.idx|
    ensures Walk(Edges(h).Keys, LeafAt(h, j), k) == Below(h, k, j)
  {
    assert Edges(h).Keys == Upto(h, |h.ms|) + {};
    if k > 0 {
      WalkAgrees(h, |h.ms|, {}, LeafAt(h, j), k);
    }
  }

  /** The leaf loop is still running at `J` when it does not stop at orphans or met none before `J`. */
  lemma {:induction false} AliveIff(h: Spec, k: nat, c: nat, J: nat)
    requires Fits(h) && k < |h.ms| && c < Rows(h, k) && J <= |h.idx|
    ensures Alive(h, k, c, J) ==> !h.stopAtOrphan || (forall j | 0 <= j < J :: !Orphan(h, k, c, j))
    ensures (!h.stopAtOrphan || (forall j | 0 <= j < J :: !Orphan(h, k, c, j))) ==> Alive(h, k, c, J)
  {
    if J > 0 {
      AliveIff(h, k, c, J - 1);
      if h.stopAtOrphan && !Alive(h, k, c, J) {
        var i: nat := if Alive(h, k, c, J - 1) then J - 1 else var i :| 0 <= i < J - 1 && Orphan(h, k, c, i); i;
        assert 0 <= i < J && Orphan(h, k, c, i);
      }
    }
  }
}
