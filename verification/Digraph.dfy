/** Finite directed graphs on strings: walks, cycles, linear extensions, and the greedy order
    that always takes the greatest available node. */
module Digraph {
  import opened Seqs
  import opened StringOrder

  /** Every node mapped to the set of its direct successors. */
  type Graph = map<string, set<string>>

  ghost predicate Closed(g: Graph) {
    forall u, v :: u in g && v in g[u] ==> v in g
  }

  predicate Edge(g: Graph, u: string, v: string) {
    u in g && v in g[u]
  }

  ghost predicate Walk(g: Graph, w: seq<string>) {
    |w| > 0 && forall i :: 0 <= i < |w| - 1 ==> Edge(g, w[i], w[i + 1])
  }

  ghost predicate Cycle(g: Graph, w: seq<string>) {
    Walk(g, w) && |w| > 1 && w[0] == w[|w| - 1]
  }

  ghost predicate Cyclic(g: Graph) {
    exists w :: Cycle(g, w)
  }

  function Preds(g: Graph, x: string): set<string> {
    set u | u in g && x in g[u]
  }

  /** s lists every node once, and every edge leads from an earlier to a later position. */
  ghost predicate LinearExtension(g: Graph, s: seq<string>) {
    NoDup(s) && Elems(s) == g.Keys &&
    forall i, j :: 0 <= i < |s| && 0 <= j < |s| && Edge(g, s[i], s[j]) ==> i < j
  }

  ghost predicate GreatestLinearExtension(g: Graph, s: seq<string>) {
    LinearExtension(g, s) && forall t :: LinearExtension(g, t) ==> t == s || ListLess(t, s)
  }

  /** A certificate of acyclicity on a successor-closed set: ranks strictly decrease along edges. */
  ghost predicate Ranked(g: Graph, rank: map<string, int>, done: set<string>) {
    rank.Keys == done <= g.Keys &&
    (forall u :: u in done ==> 0 <= rank[u] < |done|) &&
    (forall u, v :: u in done && v in g[u] ==> v in done && rank[v] < rank[u])
  }

  lemma WalkTail(g: Graph, w: seq<string>)
    requires Walk(g, w) && |w| > 1
    ensures Walk(g, w[1..])
  {
    forall i | 0 <= i < |w[1..]| - 1 ensures Edge(g, w[1..][i], w[1..][i + 1]) {
      assert Edge(g, w[i + 1], w[i + 2]);
    }
  }

  lemma WalkPrefix(g: Graph, w: seq<string>)
    requires Walk(g, w) && |w| > 1
    ensures Walk(g, w[..|w| - 1])
  {
    var p := w[..|w| - 1];
    forall i | 0 <= i < |p| - 1 ensures Edge(g, p[i], p[i + 1]) {
      assert Edge(g, w[i], w[i + 1]);
    }
  }

  lemma {:induction false} RankDecreases(g: Graph, rank: map<string, int>, w: seq<string>)
    requires Ranked(g, rank, g.Keys) && Walk(g, w) && |w| > 1
    ensures w[0] in g && w[|w| - 1] in g && rank[w[|w| - 1]] < rank[w[0]]
  {
    assert Edge(g, w[0], w[1]);
    if |w| > 2 {
      WalkTail(g, w);
      RankDecreases(g, rank, w[1..]);
    }
  }

  lemma RankedIsAcyclic(g: Graph, rank: map<string, int>)
    requires Ranked(g, rank, g.Keys)
    ensures !Cyclic(g)
  {
    forall w ensures !Cycle(g, w) {
      if Cycle(g, w) {
        RankDecreases(g, rank, w);
      }
    }
  }

  /** A linear extension exists only in an acyclic graph. */
  lemma {:induction false} ExtensionFollowsWalk(g: Graph, s: seq<string>, w: seq<string>)
    requires LinearExtension(g, s) && Closed(g) && Walk(g, w) && |w| > 1
    ensures Before(s, w[0], w[|w| - 1])
  {
    assert Edge(g, w[0], w[1]);
    assert w[0] in Elems(s) && w[1] in Elems(s);
    var i :| 0 <= i < |s| && s[i] == w[0];
    var j :| 0 <= j < |s| && s[j] == w[1];
    assert Edge(g, s[i], s[j]);
    if |w| > 2 {
      WalkTail(g, w);
      ExtensionFollowsWalk(g, s, w[1..]);
      var a, b :| 0 <= a < b < |s| && s[a] == w[1] && s[b] == w[|w| - 1];
      assert a == j;
    }
  }

  lemma ExtensionImpliesAcyclic(g: Graph, s: seq<string>)
    requires LinearExtension(g, s) && Closed(g)
    ensures !Cyclic(g)
  {
    forall w ensures !Cycle(g, w) {
      if Cycle(g, w) {
        ExtensionFollowsWalk(g, s, w);
      }
    }
  }

  /** The nodes outside done all of whose predecessors are in done. */
  predicate Available(g: Graph, done: set<string>, x: string) {
    x in g && x !in done && Preds(g, x) <= done
  }

  /** Every element of s is the greatest node available after the elements before it. */
  ghost predicate Greedy(g: Graph, s: seq<string>) {
    forall i :: 0 <= i < |s| ==> GreedyAt(g, s, i)
  }

  ghost predicate GreedyAt(g: Graph, s: seq<string>, i: int)
    requires 0 <= i < |s|
  {
    Available(g, Elems(s[..i]), s[i]) &&
    forall y :: Available(g, Elems(s[..i]), y) ==> y == s[i] || Less(y, s[i])
  }

  lemma GreedyExtend(g: Graph, s: seq<string>, x: string)
    requires Greedy(g, s)
    requires Available(g, Elems(s), x)
    requires forall y :: Available(g, Elems(s), y) ==> y == x || Less(y, x)
    ensures Greedy(g, s + [x])
  {
    forall i | 0 <= i < |s + [x]| ensures GreedyAt(g, s + [x], i) {
      if i < |s| {
        assert GreedyAt(g, s, i);
        assert (s + [x])[..i] == s[..i];
      } else {
        assert (s + [x])[..i] == s;
      }
    }
  }

  lemma GreedyIsExtension(g: Graph, s: seq<string>)
    requires Greedy(g, s) && Elems(s) == g.Keys
    ensures LinearExtension(g, s)
  {
    forall i, j | 0 <= i < j < |s| ensures s[i] != s[j] {
      assert GreedyAt(g, s, j);
      assert s[..j][i] == s[i];
    }
    forall i, j | 0 <= i < |s| && 0 <= j < |s| && Edge(g, s[i], s[j]) ensures i < j {
      assert GreedyAt(g, s, j);
      assert s[i] in Preds(g, s[j]);
      assert s[i] in Elems(s[..j]);
    }
  }

  /** Any linear extension offers, at the first place where it leaves the greedy order, an available node. */
  lemma ExtensionTakesAvailable(g: Graph, t: seq<string>, i: int)
    requires LinearExtension(g, t) && 0 <= i < |t|
    ensures Available(g, Elems(t[..i]), t[i])
  {
    assert t[i] in Elems(t);
    forall u | u in Preds(g, t[i]) ensures u in Elems(t[..i]) {
      assert u in Elems(t);
      var k :| 0 <= k < |t| && t[k] == u;
      assert Edge(g, t[k], t[i]);
      assert t[..i][k] == u;
    }
  }

  /** The greedy order is the greatest of all linear extensions. */
  lemma GreedyIsGreatest(g: Graph, s: seq<string>)
    requires Greedy(g, s) && Elems(s) == g.Keys
    ensures GreatestLinearExtension(g, s)
  {
    GreedyIsExtension(g, s);
    forall t | LinearExtension(g, t) ensures t == s || ListLess(t, s) {
      SameElemsSameLength(s, t);
      if t != s {
        var i := FirstDifference(t, s);
        ExtensionTakesAvailable(g, t, i);
        assert GreedyAt(g, s, i);
      }
    }
  }

  lemma FirstDifference(s: seq<string>, t: seq<string>) returns (i: int)
    requires |s| == |t| && s != t
    ensures 0 <= i < |s| && s[..i] == t[..i] && s[i] != t[i]
  {
    i := 0;
    while s[i] == t[i]
      invariant 0 <= i < |s| && s[..i] == t[..i]
      decreases |s| - i
    {
      i := i + 1;
    }
  }

  /** At most one order is greatest, so it cannot depend on the iteration order of a hash table. */
  lemma GreatestIsUnique(g: Graph, s: seq<string>, t: seq<string>)
    requires GreatestLinearExtension(g, s) && GreatestLinearExtension(g, t)
    ensures s == t
  {
    if s != t {
      ListAsymmetric(s, t);
    }
  }
}
