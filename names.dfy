/**
 Node names as the two builders spell them, and the `startswith` tests they use to
 recognise the level of an edge's source. Python's `str(k)` of a non-negative int is
 its decimal form without leading zeros, written here as `Dec(k)`.
 */
module Names {
  import opened Graphs

  predicate IsDigit(ch: char) {
    '0' <= ch <= '9'
  }

  predicate AllDigits(s: string) {
    forall i | 0 <= i < |s| :: IsDigit(s[i])
  }

  function Digit(d: nat): (ch: char)
    requires d < 10
    ensures IsDigit(ch)
  {
    (48 + d) as char
  }

  /** `str(n)` */
  function Dec(n: nat): (s: string)
    ensures |s| >= 1 && AllDigits(s)
    ensures n >= 10 ==> |s| >= 2
  {
    if n < 10 then [Digit(n)] else Dec(n / 10) + [Digit(n % 10)]
  }

  /** Python's `s.startswith(p)`. */
  predicate IsPrefix(p: string, s: string) {
    |p| <= |s| && s[..|p|] == p
  }

  lemma {:induction false} DecInjective(a: nat, b: nat)
    requires Dec(a) == Dec(b)
    ensures a == b
  {
    if a >= 10 && b >= 10 {
      var sa, sb := Dec(a), Dec(b);
      assert sa[|sa| - 1] == Digit(a % 10) && sb[|sb| - 1] == Digit(b % 10);
      assert Dec(a / 10) == sa[..|sa| - 1] == sb[..|sb| - 1] == Dec(b / 10);
      DecInjective(a / 10, b / 10);
    }
  }

  /** Only zero is written with a leading `0`. */
  lemma {:induction false} DecLeadingZero(n: nat)
    ensures Dec(n)[0] == '0' <==> n == 0
  {
    if n >= 10 {
      DecLeadingZero(n / 10);
      assert Dec(n)[0] == Dec(n / 10)[0];
    }
  }

  /** A digit string followed by `_` is a prefix of a digit string followed by `_` only when
      the two digit strings are the same: the `_` stops the comparison. */
  lemma DigitsThenUnderscore(h: string, x: string, y: string, t: string)
    requires AllDigits(x) && AllDigits(y)
    requires IsPrefix(h + x + "_", h + y + "_" + t)
    ensures x == y
  {
    var p, s, n := h + x + "_", h + y + "_" + t, |h|;
    assert s[..|p|] == p;
    // the first position where one digit string may end
    var m := if |x| < |y| then |x| else |y|;
    var a, b := p[n + m], s[n + m];
    assert a == b;
    assert |x| == |y|;
    forall i | 0 <= i < |x| ensures x[i] == y[i] {
      assert p[n + i] == x[i] && s[n + i] == y[i];
    }
  }

  // ---- atap_wrapper.py: "Level_{level}_{i}" ----

  /** `LEVEL_PREFIX.format(level=k)`, that is `"Level_{k}_"`. */
  function LevelPrefix(k: nat): string {
    "Level_" + Dec(k) + "_"
  }

  /** The graph key of a node: a leaf's own label, a cluster's `"Level_{k}_{i}"`. */
  function LevelName(n: Node): string {
    match n
    case Leaf(id) => id
    case Cluster(k, i) => LevelPrefix(k) + Dec(i)
  }

  /** A cluster name starts with the prefix of level `l` exactly when the cluster is on level `l`. */
  lemma LevelPrefixTest(l: nat, k: nat, i: nat)
    ensures IsPrefix(LevelPrefix(l), LevelName(Cluster(k, i))) <==> k == l
  {
    var s := LevelName(Cluster(k, i));
    assert s == LevelPrefix(k) + Dec(i);
    if IsPrefix(LevelPrefix(l), s) {
      assert s == "Level_" + Dec(k) + "_" + Dec(i);
      DigitsThenUnderscore("Level_", Dec(l), Dec(k), Dec(i));
      DecInjective(l, k);
    }
    if k == l {
      assert s[..|LevelPrefix(l)|] == LevelPrefix(l);
    }
  }

  /** Cluster names are distinct: the naming scheme is injective. */
  lemma LevelNamesDistinct(k: nat, i: nat, k': nat, i': nat)
    requires LevelName(Cluster(k, i)) == LevelName(Cluster(k', i'))
    ensures k == k' && i == i'
  {
    LevelPrefixTest(k, k, i);
    LevelPrefixTest(k, k', i');
    var n := |LevelPrefix(k)|;
    assert Dec(i) == LevelName(Cluster(k, i))[n..] == LevelName(Cluster(k', i'))[n..] == Dec(i');
    DecInjective(i, i');
  }

  /** Without its trailing `_` the prefix of level 1 would also match the clusters of level 10. */
  lemma UnderscoreNeeded()
    ensures IsPrefix("Level_" + Dec(1), LevelName(Cluster(10, 0)))
  {
    assert Dec(10) == Dec(1) + [Digit(0)];
    assert LevelName(Cluster(10, 0)) == "Level_" + Dec(1) + [Digit(0)] + "_" + Dec(0);
  }

  // ---- wrapper2.py: "L{layer}_{i}" ----

  function LayerPrefix(k: nat): string {
    "L" + Dec(k) + "_"
  }

  function LayerName(n: Node): string {
    match n
    case Leaf(id) => id
    case Cluster(k, i) => LayerPrefix(k) + Dec(i)
  }

  /** `src.startswith(f"L{l_tmp}_")` on a cluster is a test of its layer. */
  lemma LayerPrefixTest(l: nat, k: nat, i: nat)
    ensures IsPrefix(LayerPrefix(l), LayerName(Cluster(k, i))) <==> k == l
  {
    var s := LayerName(Cluster(k, i));
    if IsPrefix(LayerPrefix(l), s) {
      assert s == "L" + Dec(k) + "_" + Dec(i);
      DigitsThenUnderscore("L", Dec(l), Dec(k), Dec(i));
      DecInjective(l, k);
    }
    if k == l {
      assert s[..|LayerPrefix(l)|] == LayerPrefix(l);
    }
  }

  /** `src.startswith("L0")`, the layer-1 test, has no trailing `_` and still picks out layer 0,
      because no other layer number starts with the digit 0. */
  lemma LayerZeroTest(k: nat, i: nat)
    ensures IsPrefix("L" + Dec(0), LayerName(Cluster(k, i))) <==> k == 0
  {
    var s := LayerName(Cluster(k, i));
    assert s == "L" + Dec(k) + "_" + Dec(i);
    assert s[1] == Dec(k)[0];
    DecLeadingZero(k);
    assert "L" + Dec(0) == ['L', '0'];
    if k == 0 {
      assert s[..2] == ['L', '0'];
    }
  }
}
