/** mergeVectors (src/core/handler/TextBasedHandler.cpp): merging two lists without reordering either. */
module ListMerge {
  import opened Seqs
  import opened StringOrder
  import opened Digraph
  import opened DependencyGraphs

  /** y directly follows x in u, within the first n steps. */
  predicate StepIn(u: seq<string>, n: nat, x: string, y: string) {
    exists i :: 0 <= i < n && i + 1 < |u| && u[i] == x && u[i + 1] == y
  }

  predicate Step(u: seq<string>, x: string, y: string) {
    StepIn(u, |u|, x, y)
  }

  ghost predicate NoSharedStep(u: seq<string>, v: seq<string>) {
    forall x, y :: !(Step(u, x, y) && Step(v, x, y))
  }

  ghost predicate NoInversion(u: seq<string>, v: seq<string>) {
    forall x, y :: !(Before(u, x, y) && Before(v, y, x))
  }

  /** Exactly the pairs of lists that mergeVectors merges. */
  ghost predicate Mergeable(a: seq<string>, b: seq<string>) {
    NoInversion(Dedup(a), Dedup(b)) && NoSharedStep(Dedup(a), Dedup(b))
  }

  /** r has the elements of both lists, each once, and keeps the order of each list. */
  ghost predicate CommonOrder(a: seq<string>, b: seq<string>, r: seq<string>) {
    NoDup(r) && Elems(r) == Elems(a) + Elems(b) &&
    Restrict(r, Elems(a)) == Dedup(a) && Restrict(r, Elems(b)) == Dedup(b)
  }

  ghost predicate GreatestCommonOrder(a: seq<string>, b: seq<string>, r: seq<string>) {
    CommonOrder(a, b, r) && forall t :: CommonOrder(a, b, t) ==> t == r || ListLess(t, r)
  }

  /** The graph of both chains. */
  ghost function ChainGraph(u: seq<string>, v: seq<string>): Graph {
    map x | x in Elems(u) + Elems(v) :: set y | y in Elems(u) + Elems(v) && (Step(u, x, y) || Step(v, x, y))
  }

  lemma ChainEdge(u: seq<string>, v: seq<string>, x: string, y: string)
    ensures Edge(ChainGraph(u, v), x, y) <==> Step(u, x, y) || Step(v, x, y)
  {
  }

  lemma ChainSymmetric(u: seq<string>, v: seq<string>)
    ensures ChainGraph(u, v) == ChainGraph(v, u)
  {
    var g, h := ChainGraph(u, v), ChainGraph(v, u);
    forall x | x in g ensures g[x] == h[x] {
      forall y ensures y in g[x] <==> y in h[x] {
        ChainEdge(u, v, x, y);
        ChainEdge(v, u, x, y);
      }
    }
  }

  // ---------- no inversion means no cycle ----------

  ghost predicate AtOrBefore(u: seq<string>, x: string, y: string) {
    (x == y && x in u) || Before(u, x, y)
  }

  /** y is reached from x along u, or along u and then along v. */
  ghost predicate Through(u: seq<string>, v: seq<string>, x: string, y: string) {
    Before(u, x, y) || exists c :: Turn(u, v, x, c, y)
  }

  ghost predicate Turn(u: seq<string>, v: seq<string>, x: string, c: string, y: string) {
    AtOrBefore(u, x, c) && AtOrBefore(v, c, y) && (x != c || c != y)
  }

  lemma BeforeTransitive(u: seq<string>, x: string, y: string, z: string)
    requires NoDup(u) && AtOrBefore(u, x, y) && AtOrBefore(u, y, z)
    ensures AtOrBefore(u, x, z)
    ensures x != y || y != z ==> Before(u, x, z)
  {
    if x != y && y != z {
      var i, j :| 0 <= i < j < |u| && u[i] == x && u[j] == y;
      var k, l :| 0 <= k < l < |u| && u[k] == y && u[l] == z;
      assert j == k;
    }
  }

  lemma BeforeIrreflexive(u: seq<string>, x: string)
    requires NoDup(u)
    ensures !Before(u, x, x)
  {
  }

  lemma StepIsBefore(u: seq<string>, x: string, y: string)
    requires Step(u, x, y)
    ensures Before(u, x, y) && x in u && y in u
  {
  }

  /** Extending a normalised path by one more step keeps it normalised: two turns cancel out. */
  lemma ThroughStep(u: seq<string>, v: seq<string>, x: string, y: string, z: string)
    requires NoDup(u) && NoDup(v) && NoInversion(u, v)
    requires Through(u, v, x, y) || Through(v, u, x, y)
    requires Step(u, y, z)
    ensures Through(u, v, x, z) || Through(v, u, x, z)
  {
    StepIsBefore(u, y, z);
    if Before(u, x, y) {
      BeforeTransitive(u, x, y, z);
    } else if Before(v, x, y) {
      assert Turn(v, u, x, y, z);
    } else if c :| Turn(u, v, x, c, y) {
      // back to u at y: c and y are common, so u orders them as v does
      CommonAgree(u, v, c, y);
      BeforeTransitive(u, x, c, y);
      BeforeTransitive(u, x, y, z);
    } else {
      var c :| Turn(v, u, x, c, y);
      BeforeTransitive(u, c, y, z);
      assert AtOrBefore(u, c, z) && c != z by { BeforeIrreflexive(u, c); }
      assert Turn(v, u, x, c, z);
    }
  }

  lemma CommonAgree(u: seq<string>, v: seq<string>, c: string, y: string)
    requires NoDup(u) && NoDup(v) && NoInversion(u, v)
    requires c in u && y in u && AtOrBefore(v, c, y)
    ensures AtOrBefore(u, c, y)
  {
    if c != y {
      var i :| 0 <= i < |u| && u[i] == c;
      var j :| 0 <= j < |u| && u[j] == y;
      assert !(Before(u, y, c) && Before(v, c, y));
      assert i < j;
    }
  }

  lemma {:induction false} WalkIsThrough(u: seq<string>, v: seq<string>, w: seq<string>)
    requires NoDup(u) && NoDup(v) && NoInversion(u, v)
    requires Walk(ChainGraph(u, v), w) && |w| > 1
    ensures Through(u, v, w[0], w[|w| - 1]) || Through(v, u, w[0], w[|w| - 1])
  {
    var n := |w| - 1;
    assert Edge(ChainGraph(u, v), w[n - 1], w[n]);
    ChainEdge(u, v, w[n - 1], w[n]);
    if n == 1 {
      if Step(u, w[0], w[1]) { StepIsBefore(u, w[0], w[1]); } else { StepIsBefore(v, w[0], w[1]); }
    } else {
      WalkPrefix(ChainGraph(u, v), w);
      WalkIsThrough(u, v, w[..n]);
      if Step(u, w[n - 1], w[n]) {
        ThroughStep(u, v, w[0], w[n - 1], w[n]);
      } else {
        ThroughStep(v, u, w[0], w[n - 1], w[n]);
      }
    }
  }

  lemma NotThroughItself(u: seq<string>, v: seq<string>, x: string)
    requires NoDup(u) && NoDup(v) && NoInversion(u, v)
    ensures !Through(u, v, x, x)
  {
    BeforeIrreflexive(u, x);
    forall c ensures !Turn(u, v, x, c, x) {
      assert !(Before(u, x, c) && Before(v, c, x));
    }
  }

  lemma NoInversionAcyclic(u: seq<string>, v: seq<string>)
    requires NoDup(u) && NoDup(v) && NoInversion(u, v)
    ensures !Cyclic(ChainGraph(u, v))
  {
    forall w ensures !Cycle(ChainGraph(u, v), w) {
      if Cycle(ChainGraph(u, v), w) {
        WalkIsThrough(u, v, w);
        NotThroughItself(u, v, w[0]);
        NotThroughItself(v, u, w[0]);
      }
    }
  }

  // ---------- linear extensions of the chains are the common orders ----------

  lemma ExtensionKeepsChain(u: seq<string>, v: seq<string>, r: seq<string>)
    requires NoDup(u) && LinearExtension(ChainGraph(u, v), r)
    ensures Restrict(r, Elems(u)) == u
  {
    var g, p := ChainGraph(u, v), Restrict(r, Elems(u));
    RestrictElems(r, Elems(u));
    assert forall x :: x in u ==> x in Elems(r);
    forall i | 0 <= i < |u| - 1 ensures Before(p, u[i], u[i + 1]) {
      assert Step(u, u[i], u[i + 1]);
      ChainEdge(u, v, u[i], u[i + 1]);
      assert u[i] in Elems(r) && u[i + 1] in Elems(r);
      var a :| 0 <= a < |r| && r[a] == u[i];
      var b :| 0 <= b < |r| && r[b] == u[i + 1];
      assert Edge(g, r[a], r[b]);
      BeforeInRestrict(r, Elems(u), u[i], u[i + 1]);
    }
    SameOrderSameSeq(u, p);
  }

  lemma {:induction false} RestrictKeepsOrder(s: seq<string>, keep: set<string>, x: string, y: string)
    requires NoDup(s) && Before(Restrict(s, keep), x, y)
    ensures Before(s, x, y)
  {
    var p, z := s[..|s| - 1], s[|s| - 1];
    RestrictElems(p, keep);
    assert s == p + [z];
    if Before(Restrict(p, keep), x, y) {
      RestrictKeepsOrder(p, keep, x, y);
      var i, j :| 0 <= i < j < |p| && p[i] == x && p[j] == y;
      assert s[i] == x && s[j] == y;
    } else {
      var r := Restrict(s, keep);
      var i, j :| 0 <= i < j < |r| && r[i] == x && r[j] == y;
      assert z in keep && r == Restrict(p, keep) + [z];
      assert j == |r| - 1;
      assert x in Restrict(p, keep);
      var k :| 0 <= k < |p| && p[k] == x;
      assert s[k] == x && s[|s| - 1] == y;
    }
  }

  lemma ChainStepOrdered(u: seq<string>, r: seq<string>, keep: set<string>, i: int, j: int)
    requires NoDup(r) && Restrict(r, keep) == u
    requires 0 <= i < |r| && 0 <= j < |r| && Step(u, r[i], r[j])
    ensures i < j
  {
    StepIsBefore(u, r[i], r[j]);
    RestrictKeepsOrder(r, keep, r[i], r[j]);
    var a, b :| 0 <= a < b < |r| && r[a] == r[i] && r[b] == r[j];
    assert a == i && b == j;
  }

  lemma ExtensionIsCommonOrder(a: seq<string>, b: seq<string>, r: seq<string>)
    requires LinearExtension(ChainGraph(Dedup(a), Dedup(b)), r)
    ensures CommonOrder(a, b, r)
  {
    var u, v := Dedup(a), Dedup(b);
    DedupElems(a);
    DedupElems(b);
    ExtensionKeepsChain(u, v, r);
    ChainSymmetric(u, v);
    ExtensionKeepsChain(v, u, r);
  }

  lemma CommonOrderIsExtension(a: seq<string>, b: seq<string>, r: seq<string>)
    requires CommonOrder(a, b, r)
    ensures LinearExtension(ChainGraph(Dedup(a), Dedup(b)), r)
  {
    var u, v := Dedup(a), Dedup(b);
    DedupElems(a);
    DedupElems(b);
    forall i, j | 0 <= i < |r| && 0 <= j < |r| && Edge(ChainGraph(u, v), r[i], r[j]) ensures i < j {
      ChainEdge(u, v, r[i], r[j]);
      if Step(u, r[i], r[j]) {
        ChainStepOrdered(u, r, Elems(a), i, j);
      } else {
        ChainStepOrdered(v, r, Elems(b), i, j);
      }
    }
  }

  lemma GreatestExtensionIsGreatestOrder(a: seq<string>, b: seq<string>, r: seq<string>)
    requires GreatestLinearExtension(ChainGraph(Dedup(a), Dedup(b)), r)
    ensures GreatestCommonOrder(a, b, r)
  {
    ExtensionIsCommonOrder(a, b, r);
    forall t | CommonOrder(a, b, t) ensures t == r || ListLess(t, r) {
      CommonOrderIsExtension(a, b, t);
    }
  }

  lemma InversionForbidsOrder(a: seq<string>, b: seq<string>, r: seq<string>)
    requires CommonOrder(a, b, r)
    ensures NoInversion(Dedup(a), Dedup(b))
  {
    forall x, y | Before(Dedup(a), x, y) ensures !Before(Dedup(b), y, x) {
      RestrictKeepsOrder(r, Elems(a), x, y);
      if Before(Dedup(b), y, x) {
        RestrictKeepsOrder(r, Elems(b), y, x);
        BeforeTransitive(r, x, y, x);
        BeforeIrreflexive(r, x);
      }
    }
  }

  // ---------- recorded in-degrees ----------

  /** 1 if one of the first n steps of u leads to x. */
  ghost function Into(u: seq<string>, n: nat, x: string): nat {
    if exists j :: 0 < j <= n && j < |u| && u[j] == x then 1 else 0
  }

  /** g and deg hold exactly the first m steps of u and the first n steps of v. */
  ghost predicate Built(g: Graph, deg: map<string, int>, u: seq<string>, m: nat, v: seq<string>, n: nat) {
    g.Keys == deg.Keys == Elems(u) + Elems(v) &&
    (forall x, y :: Edge(g, x, y) <==> StepIn(u, m, x, y) || StepIn(v, n, x, y)) &&
    (forall x :: x in g ==> deg[x] == Into(u, m, x) + Into(v, n, x))
  }

  ghost function StepsTo(u: seq<string>, x: string): set<string> {
    set y | y in Elems(u) && Step(u, y, x)
  }

  lemma StepsToSize(u: seq<string>, x: string)
    requires NoDup(u)
    ensures |StepsTo(u, x)| == Into(u, |u|, x)
  {
    if j :| 0 < j < |u| && u[j] == x {
      assert u[j - 1] in Elems(u) && u[(j - 1) + 1] == x;
      assert Step(u, u[j - 1], x);
      assert StepsTo(u, x) == {u[j - 1]};
    } else {
      assert StepsTo(u, x) == {};
    }
  }

  lemma BuiltGraph(g: Graph, deg: map<string, int>, u: seq<string>, v: seq<string>)
    requires Built(g, deg, u, |u|, v, |v|)
    ensures g == ChainGraph(u, v)
  {
    forall x | x in g ensures g[x] == ChainGraph(u, v)[x] {
      forall y ensures y in g[x] <==> y in ChainGraph(u, v)[x] {
        assert Edge(g, x, y) <==> Step(u, x, y) || Step(v, x, y);
        ChainEdge(u, v, x, y);
      }
    }
  }

  /** A node is recorded with one in-degree too many for each step into it that the chains share. */
  lemma DegreeGap(g: Graph, deg: map<string, int>, u: seq<string>, v: seq<string>, x: string)
    requires NoDup(u) && NoDup(v) && Built(g, deg, u, |u|, v, |v|) && x in g
    ensures deg[x] - |Preds(g, x)| == |StepsTo(u, x) * StepsTo(v, x)|
  {
    PredsBuilt(g, deg, u, v, x);
    StepsToSize(u, x);
    StepsToSize(v, x);
  }

  lemma SharedStep(u: seq<string>, v: seq<string>, x: string, y: string)
    ensures x in StepsTo(u, y) * StepsTo(v, y) <==> Step(u, x, y) && Step(v, x, y)
  {
  }

  /** Degrees are exact unless the two chains share a step: the trap of addEdge. */
  lemma ExactIffNoSharedStep(g: Graph, deg: map<string, int>, u: seq<string>, v: seq<string>)
    requires NoDup(u) && NoDup(v) && Built(g, deg, u, |u|, v, |v|)
    ensures ExactDegrees(g, deg) <==> NoSharedStep(u, v)
  {
    if y :| y in g && |Preds(g, y)| != deg[y] {
      DegreeGap(g, deg, u, v, y);
      var x :| x in StepsTo(u, y) * StepsTo(v, y);
      SharedStep(u, v, x, y);
    } else {
      forall x, y ensures !(Step(u, x, y) && Step(v, x, y)) {
        SharedStep(u, v, x, y);
        if Step(u, x, y) {
          assert y in Elems(u);
          DegreeGap(g, deg, u, v, y);
        }
      }
    }
  }

  lemma PredsBuilt(g: Graph, deg: map<string, int>, u: seq<string>, v: seq<string>, x: string)
    requires Built(g, deg, u, |u|, v, |v|)
    ensures Preds(g, x) == StepsTo(u, x) + StepsTo(v, x)
  {
    forall y ensures y in Preds(g, x) <==> y in StepsTo(u, x) + StepsTo(v, x) {
      assert y in Preds(g, x) <==> Edge(g, y, x);
      assert Edge(g, y, x) <==> Step(u, y, x) || Step(v, y, x);
    }
  }

  // ---------- the operation ----------

  method AddNodes(graph: DependencyGraph, u: seq<string>, ghost keys: set<string>)
    requires graph.Valid() && graph.adjacencyList.Keys == keys
    requires forall x :: x in keys ==> graph.adjacencyList[x] == {} && graph.inDegree[x] == 0
    modifies graph
    ensures graph.Valid() && graph.adjacencyList.Keys == keys + Elems(u)
    ensures forall x :: x in graph.adjacencyList ==> graph.adjacencyList[x] == {} && graph.inDegree[x] == 0
  {
    for i := 0 to |u|
      invariant graph.Valid() && graph.adjacencyList.Keys == keys + Elems(u[..i])
      invariant forall x :: x in graph.adjacencyList ==> graph.adjacencyList[x] == {} && graph.inDegree[x] == 0
    {
      assert u[..i + 1] == u[..i] + [u[i]];
      var _ := graph.AddNode(u[i]);
    }
    assert u[..|u|] == u;
  }

  lemma StepInNext(u: seq<string>, m: nat, x: string, y: string)
    requires m + 1 < |u|
    ensures StepIn(u, m + 1, x, y) <==> StepIn(u, m, x, y) || (u[m] == x && u[m + 1] == y)
  {
  }

  lemma IntoNext(u: seq<string>, m: nat, x: string)
    requires NoDup(u) && m + 1 < |u|
    ensures Into(u, m + 1, x) == Into(u, m, x) + if x == u[m + 1] then 1 else 0
  {
  }

  lemma BuiltStep(g: Graph, deg: map<string, int>, u: seq<string>, m: nat, v: seq<string>, n: nat)
    requires NoDup(u) && Built(g, deg, u, m, v, n) && m + 1 < |u|
    ensures u[m] in g && u[m + 1] in g
    ensures Built(g[u[m] := g[u[m]] + {u[m + 1]}], deg[u[m + 1] := deg[u[m + 1]] + 1], u, m + 1, v, n)
  {
    assert u[m] in Elems(u) && u[m + 1] in Elems(u);
    var g' := g[u[m] := g[u[m]] + {u[m + 1]}];
    forall x, y ensures Edge(g', x, y) <==> StepIn(u, m + 1, x, y) || StepIn(v, n, x, y) {
      StepInNext(u, m, x, y);
      assert Edge(g', x, y) <==> Edge(g, x, y) || (u[m] == x && u[m + 1] == y);
    }
    forall x ensures Into(u, m + 1, x) == Into(u, m, x) + if x == u[m + 1] then 1 else 0 {
      IntoNext(u, m, x);
    }
  }

  lemma BuiltSwap(g: Graph, deg: map<string, int>, u: seq<string>, m: nat, v: seq<string>, n: nat)
    requires Built(g, deg, u, m, v, n)
    ensures Built(g, deg, v, n, u, m)
  {
  }

  /** Adds the edge between every two neighbours of u (lines 273-281 and 284-292).
      The calls of addEdge cannot fail: both ends are nodes already. */
  method AddChain(graph: DependencyGraph, u: seq<string>, ghost v: seq<string>, ghost n: nat)
    requires graph.Valid() && NoDup(u) && Built(graph.adjacencyList, graph.inDegree, u, 0, v, n)
    modifies graph
    ensures graph.Valid() && Built(graph.adjacencyList, graph.inDegree, u, |u|, v, n)
  {
    var i := 0;
    while i + 1 < |u|
      invariant 0 <= i <= |u| && graph.Valid()
      invariant Built(graph.adjacencyList, graph.inDegree, u, i, v, n)
    {
      BuiltStep(graph.adjacencyList, graph.inDegree, u, i, v, n);
      var added := graph.AddEdge(u[i], u[i + 1]);
      assert added;
      i := i + 1;
    }
    BuiltEnd(graph.adjacencyList, graph.inDegree, u, i, v, n);
  }

  lemma BuiltEnd(g: Graph, deg: map<string, int>, u: seq<string>, m: nat, v: seq<string>, n: nat)
    requires Built(g, deg, u, m, v, n) && m + 1 >= |u|
    ensures Built(g, deg, u, |u|, v, n)
  {
    assert forall x, y :: StepIn(u, m, x, y) <==> StepIn(u, |u|, x, y);
    assert forall x :: Into(u, m, x) == Into(u, |u|, x);
  }

  lemma BuiltEmpty(g: Graph, deg: map<string, int>, u: seq<string>, v: seq<string>)
    requires g.Keys == deg.Keys == Elems(u) + Elems(v)
    requires forall x :: x in g ==> g[x] == {} && deg[x] == 0
    ensures Built(g, deg, u, 0, v, 0)
  {
  }

  lemma MergeOutcome(g: Graph, deg: map<string, int>, a: seq<string>, b: seq<string>)
    requires Built(g, deg, Dedup(a), |Dedup(a)|, Dedup(b), |Dedup(b)|)
    ensures NoInversion(Dedup(a), Dedup(b)) ==> !Cyclic(g)
    ensures ExactDegrees(g, deg) <==> NoSharedStep(Dedup(a), Dedup(b))
  {
    DedupElems(a);
    DedupElems(b);
    BuiltGraph(g, deg, Dedup(a), Dedup(b));
    ExactIffNoSharedStep(g, deg, Dedup(a), Dedup(b));
    if NoInversion(Dedup(a), Dedup(b)) {
      NoInversionAcyclic(Dedup(a), Dedup(b));
    }
  }

  lemma EmptyMerge()
    ensures Mergeable([], []) && GreatestCommonOrder([], [], [])
  {
    forall t | CommonOrder([], [], t) ensures t == [] {
      ElemsSize(t);
      assert Elems<string>([]) == {};
    }
  }

  /** Nodes of both lists, then the edges of both chains (lines 262-292). */
  method BuildGraph(u: seq<string>, v: seq<string>) returns (graph: DependencyGraph)
    requires NoDup(u) && NoDup(v)
    ensures fresh(graph) && graph.Valid()
    ensures Built(graph.adjacencyList, graph.inDegree, u, |u|, v, |v|)
  {
    graph := new DependencyGraph();
    AddNodes(graph, u, {});
    AddNodes(graph, v, Elems(u));
    BuiltEmpty(graph.adjacencyList, graph.inDegree, u, v);
    AddChain(graph, u, v, 0);
    BuiltSwap(graph.adjacencyList, graph.inDegree, u, |u|, v, 0);
    AddChain(graph, v, u, |u|);
    BuiltSwap(graph.adjacencyList, graph.inDegree, v, |v|, u, |u|);
  }

  lemma ExtensionOutcome(g: Graph, deg: map<string, int>, a: seq<string>, b: seq<string>, r: seq<string>)
    requires Built(g, deg, Dedup(a), |Dedup(a)|, Dedup(b), |Dedup(b)|) && GreatestLinearExtension(g, r)
    ensures GreatestCommonOrder(a, b, r) && NoInversion(Dedup(a), Dedup(b))
  {
    BuiltGraph(g, deg, Dedup(a), Dedup(b));
    GreatestExtensionIsGreatestOrder(a, b, r);
    InversionForbidsOrder(a, b, r);
  }

  /** Succeeds exactly on mergeable lists, and then returns the greatest common order. */
  method MergeVectors(vec1: seq<string>, vec2: seq<string>) returns (ok: bool, result: seq<string>)
    ensures ok <==> Mergeable(vec1, vec2)
    ensures ok ==> GreatestCommonOrder(vec1, vec2, result)
    ensures !ok ==> result == []
  {
    if vec1 == [] && vec2 == [] {
      EmptyMerge();
      return true, [];
    }
    var unique1 := KeepFirst(vec1);
    var unique2 := KeepFirst(vec2);
    DedupElems(vec1);
    DedupElems(vec2);
    var graph := BuildGraph(unique1, unique2);
    MergeOutcome(graph.adjacencyList, graph.inDegree, vec1, vec2);
    ok, result := graph.TopologicalSort();
    if ok {
      ExtensionOutcome(graph.adjacencyList, graph.inDegree, vec1, vec2, result);
    } else {
      result := [];
    }
  }

  // ---------- what callers may rely on ----------

  /** Swapping the sides changes neither the verdict nor the merged list. */
  lemma MergeIsSymmetric(a: seq<string>, b: seq<string>, ok: bool, r: seq<string>, ok': bool, r': seq<string>)
    requires ok <==> Mergeable(a, b)
    requires ok ==> GreatestCommonOrder(a, b, r)
    requires !ok ==> r == []
    requires ok' <==> Mergeable(b, a)
    requires ok' ==> GreatestCommonOrder(b, a, r')
    requires !ok' ==> r' == []
    ensures ok == ok' && r == r'
  {
    if ok {
      assert CommonOrder(a, b, r') && CommonOrder(b, a, r);
      if r != r' {
        ListAsymmetric(r, r');
      }
    }
  }

  /** When the lists can be put in a common order, the merge fails only if they share a step. */
  lemma OrderedListsMergeIffNoSharedStep(a: seq<string>, b: seq<string>, r: seq<string>)
    requires CommonOrder(a, b, r)
    ensures Mergeable(a, b) <==> NoSharedStep(Dedup(a), Dedup(b))
  {
    InversionForbidsOrder(a, b, r);
  }

  /** So a list of two or more distinct entries is never merged with itself,
      although the list itself is a common order. */
  lemma SameListIsRefused(a: seq<string>)
    requires |Dedup(a)| >= 2
    ensures CommonOrder(a, a, Dedup(a)) && !Mergeable(a, a)
  {
    DedupElems(a);
    RestrictAll(Dedup(a), Elems(a));
    var u := Dedup(a);
    assert Step(u, u[0], u[1]);
  }

  /** Two entries that nothing orders come out with the greater one first. */
  lemma UnorderedEntries(ok: bool, r: seq<string>)
    requires ok <==> Mergeable(["a"], ["b"])
    requires ok ==> GreatestCommonOrder(["a"], ["b"], r)
    ensures ok && r == ["b", "a"]
  {
    assert ["a"][..0] == [] && Dedup(["a"]) == ["a"] && Dedup(["b"]) == ["b"];
    TheOtherOrder();
    assert "a" in r && "b" in r;
    TwoEntries(r);
    if r == ["a", "b"] {
      LessIff("a", "b");
      assert SmallerAt("a", "b", 0);
      assert r[..0] == ["b", "a"][..0];
      assert ListLess(r, ["b", "a"]);
      ListAsymmetric(r, ["b", "a"]);
    }
  }

  lemma TheOtherOrder()
    ensures CommonOrder(["a"], ["b"], ["b", "a"])
  {
    var s := ["b", "a"];
    assert s[..1] == ["b"] && s[..1][..0] == [] && ["a"][..0] == [] && ["b"][..0] == [];
    assert Restrict(["b"], Elems(["a"])) == [] && Restrict(["b"], Elems(["b"])) == ["b"];
    assert Elems(s) == {"a", "b"};
  }

  lemma TwoEntries(r: seq<string>)
    requires NoDup(r) && Elems(r) == {"a", "b"}
    ensures r == ["a", "b"] || r == ["b", "a"]
  {
    ElemsSize(r);
    assert r[0] in Elems(r) && r[1] in Elems(r);
  }
}
