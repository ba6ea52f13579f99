/**
 Writing the model's results into a corpus (`add_results` in atap_wrapper.py): for every
 level, the most likely cluster of each document becomes a meta column named
 `topsbm_lvl_{level}_cluster`; and the per-topic document distributions of one level
 (`topic_dist_of`).
 */
module Results {
  import opened Graphs
  import opened Names

  /** numpy's `argmax` over a non-empty vector: the first index of a largest entry. */
  function ArgMax(xs: seq<real>): (r: nat)
    requires |xs| > 0
    ensures r < |xs|
    ensures forall i | 0 <= i < |xs| :: xs[i] <= xs[r]
    ensures forall i | 0 <= i < r :: xs[i] < xs[r]
  {
    if |xs| == 1 then 0
    else
      var k := ArgMax(xs[..|xs| - 1]);
      if xs[|xs| - 1] > xs[k] then |xs| - 1 else k
  }

  /** The memberships of document `d` in every group: column `d` of the matrix. */
  function Column(m: Matrix, d: nat): (col: seq<real>)
    requires Shaped(m) && d < m.cols
    ensures |col| == |m.rows|
  {
    seq(|m.rows|, g requires 0 <= g < |m.rows| => m.rows[g][d])
  }

  /** `np.argmax(doc_memberships.T, axis=1)`: for each document, its first most likely group. */
  function MembershipVector(m: Matrix): (v: seq<nat>)
    requires Shaped(m) && |m.rows| > 0
    ensures |v| == m.cols
    ensures forall d | 0 <= d < m.cols ::
      && v[d] < |m.rows|
      && (forall g | 0 <= g < |m.rows| :: m.rows[g][d] <= m.rows[v[d]][d])
      && (forall g | 0 <= g < v[d] :: m.rows[g][d] < m.rows[v[d]][d])
  {
    var v := seq(m.cols, d requires 0 <= d < m.cols => ArgMax(Column(m, d)));
    forall d | 0 <= d < m.cols
      ensures forall g | 0 <= g < |m.rows| :: m.rows[g][d] <= m.rows[v[d]][d]
      ensures forall g | 0 <= g < v[d] :: m.rows[g][d] < m.rows[v[d]][d]
    {
      var col := Column(m, d);
      assert v[d] == ArgMax(col);
      assert forall g | 0 <= g < |m.rows| :: col[g] == m.rows[g][d];
    }
    v
  }

  /** `f"topsbm_lvl_{level}_cluster"` */
  function MetaName(level: nat): string {
    "topsbm_lvl_" + Dec(level) + "_cluster"
  }

  /** Different levels get different meta names, so no level's column replaces another's. */
  lemma MetaNamesDistinct(l: nat, l': nat)
    requires MetaName(l) == MetaName(l')
    ensures l == l'
  {
    var a, b := MetaName(l), MetaName(l');
    assert Dec(l) == a[11..|a| - 8];
    assert Dec(l') == b[11..|b| - 8];
    DecInjective(l, l');
  }

  datatype Meta = Meta(name: string, values: seq<nat>)

  /** What `add_results` hands the corpus: the meta columns in level order, and the `meta`
      list of the `topsbm` attribute. */
  datatype Added = Added(metas: seq<Meta>, attributeMeta: seq<string>)

  datatype AddError = NotFitted   // "Your model hasn't been fitted yet. Call .fit() on the model."

  /** `add_results(model, corpus)`, with `fitted` for `model.g is not None` and `docMemberships`
      the document membership matrix of every level. */
  method AddResults(fitted: bool, docMemberships: seq<Matrix>) returns (r: Result<Added, AddError>)
    requires forall l | 0 <= l < |docMemberships| :: Shaped(docMemberships[l]) && |docMemberships[l].rows| > 0
    ensures r.Err? <==> !fitted
    ensures r.Ok? ==> |r.value.metas| == |docMemberships|
    ensures r.Ok? ==> forall l | 0 <= l < |docMemberships| ::
      r.value.metas[l] == Meta(MetaName(l), MembershipVector(docMemberships[l]))
    ensures r.Ok? ==> r.value.attributeMeta == seq(|docMemberships|, l requires 0 <= l < |docMemberships| => MetaName(l))
  {
    if !fitted {
      return Err(NotFitted);
    }
    var metas: seq<Meta> := [];
    var names: seq<string> := [];
    var level := 0;
    while level < |docMemberships|
      invariant 0 <= level <= |docMemberships|
      invariant |metas| == level && |names| == level
      invariant forall l | 0 <= l < level :: metas[l] == Meta(MetaName(l), MembershipVector(docMemberships[l]))
      invariant forall l | 0 <= l < level :: names[l] == MetaName(l)
    {
      var membershipVector := MembershipVector(docMemberships[level]);
      var name := MetaName(level);
      metas := metas + [Meta(name, membershipVector)];
      names := names + [name];
      level := level + 1;
    }
    r := Ok(Added(metas, names));
  }

  /** The distribution of every topic over the documents: row `i` of `p_tw_d`. */
  function TopicDists(p: Matrix): map<nat, seq<real>> {
    map i | 0 <= i < |p.rows| :: p.rows[i]
  }

  /** `topic_dist_of(model, level)`, with `p` the level's `p_tw_d` (topics by documents). */
  method TopicDistOf(p: Matrix) returns (topicDists: map<nat, seq<real>>)
    ensures topicDists == TopicDists(p)
  {
    topicDists := map[];
    var topic := 0;
    while topic < |p.rows|
      invariant 0 <= topic <= |p.rows|
      invariant topicDists == map i | 0 <= i < topic :: p.rows[i]
    {
      topicDists := topicDists[topic := p.rows[topic]];
      topic := topic + 1;
    }
  }

  /** One entry per topic, and reading the entries back in topic order gives the matrix rows. */
  lemma TopicDistsRows(p: Matrix)
    ensures forall i: nat :: i in TopicDists(p) <==> i < |p.rows|
    ensures seq(|p.rows|, i requires 0 <= i < |p.rows| => TopicDists(p)[i]) == p.rows
  {
  }
}
