/** GraphMatcher::topDownMatch (src/core/semantic/GraphMatcher.cpp): matching nodes by signature. */
module TopDownMatch {
  import opened Seqs
  import opened TreeMergeSpec

  datatype Vertex = Vertex(id: Id, sig: Sig, needToMerge: bool, synthetic: bool)

  /** Only these nodes take part in the matching. */
  predicate Relevant(v: Vertex) {
    v.needToMerge && !v.synthetic
  }

  /** The index that the first two loops build: the last relevant vertex with a signature wins. */
  ghost predicate LastWith(graph: seq<Vertex>, sig: Sig, id: Id) {
    exists k :: LastAt(graph, sig, id, k)
  }

  ghost predicate LastAt(graph: seq<Vertex>, sig: Sig, id: Id, k: int) {
    0 <= k < |graph| && graph[k].sig == sig && graph[k].id == id && Relevant(graph[k]) &&
    forall m :: k < m < |graph| && Relevant(graph[m]) ==> graph[m].sig != sig
  }

  ghost predicate Indexes(graph: seq<Vertex>, index: map<Sig, Id>) {
    (forall sig :: sig in index ==> LastWith(graph, sig, index[sig])) &&
    (forall k :: 0 <= k < |graph| && Relevant(graph[k]) ==> graph[k].sig in index)
  }

  /** Lines 23-30 and 31-36. */
  method IndexBySignature(graph: seq<Vertex>) returns (index: map<Sig, Id>)
    ensures Indexes(graph, index)
  {
    index := map[];
    for i := 0 to |graph|
      invariant Indexes(graph[..i], index)
    {
      ghost var before := index;
      if Relevant(graph[i]) {
        index := index[graph[i].sig := graph[i].id];
      }
      IndexStep(graph, i, before, index);
    }
    assert graph[..|graph|] == graph;
  }

  lemma IndexStep(graph: seq<Vertex>, i: nat, before: map<Sig, Id>, index: map<Sig, Id>)
    requires i < |graph| && Indexes(graph[..i], before)
    requires index == if Relevant(graph[i]) then before[graph[i].sig := graph[i].id] else before
    ensures Indexes(graph[..i + 1], index)
  {
    var p, q := graph[..i], graph[..i + 1];
    forall sig | sig in index ensures LastWith(q, sig, index[sig]) {
      if Relevant(graph[i]) && sig == graph[i].sig {
        assert LastAt(q, sig, index[sig], i);
      } else {
        assert LastWith(p, sig, before[sig]);
        var k :| LastAt(p, sig, before[sig], k);
        assert LastAt(q, sig, index[sig], k);
      }
    }
    forall k | 0 <= k < |q| && Relevant(q[k]) ensures q[k].sig in index {
      if k < i {
        assert p[k] == q[k];
      }
    }
  }

  /** No two vertices share an identity. */
  ghost predicate DistinctIds(graph: seq<Vertex>) {
    forall i, j :: 0 <= i < j < |graph| ==> graph[i].id != graph[j].id
  }

  /** In an index of a graph with distinct identities, different signatures lead to different nodes. */
  lemma IndexInjective(graph: seq<Vertex>, index: map<Sig, Id>, s: Sig, t: Sig)
    requires Indexes(graph, index) && DistinctIds(graph) && s in index && t in index && index[s] == index[t]
    ensures s == t
  {
    assert LastWith(graph, s, index[s]) && LastWith(graph, t, index[t]);
    var k :| LastAt(graph, s, index[s], k);
    var l :| LastAt(graph, t, index[t], l);
    assert k == l;
  }

  ghost predicate Injective(index: map<Sig, Id>) {
    forall s, t :: s in index && t in index && index[s] == index[t] ==> s == t
  }

  /** Nodes are matched exactly with the node of the other side that has their signature. */
  ghost predicate Matches(base: map<Sig, Id>, rev: map<Sig, Id>, m: Matching, sigs: set<Sig>) {
    (forall s :: s in sigs && s in base && s in rev ==>
      base[s] in m.left && m.left[base[s]] == rev[s] && rev[s] in m.right && m.right[rev[s]] == base[s]) &&
    (forall b :: b in m.left ==> exists s :: s in sigs && s in base && s in rev && base[s] == b) &&
    (forall r :: r in m.right ==> exists s :: s in sigs && s in base && s in rev && rev[s] == r)
  }

  /** ids lists, once each, the nodes of one side whose signature the other side lacks. */
  ghost predicate Unmatched(one: map<Sig, Id>, other: map<Sig, Id>, ids: seq<Id>, sigs: set<Sig>) {
    (forall s :: s in sigs && s in one && s !in other ==> one[s] in ids) &&
    (forall x :: x in ids ==> exists s :: s in sigs && s in one && s !in other && one[s] == x) &&
    NoDup(ids)
  }

  lemma MatchesStep(base: map<Sig, Id>, rev: map<Sig, Id>, m: Matching, sigs: set<Sig>, s: Sig)
    requires Injective(base) && Injective(rev) && Matches(base, rev, m, sigs) && s in base && s in rev && s !in sigs
    ensures Matches(base, rev, m.(left := m.left[base[s] := rev[s]], right := m.right[rev[s] := base[s]]), sigs + {s})
  {
  }

  lemma MatchesSkip(base: map<Sig, Id>, rev: map<Sig, Id>, m: Matching, sigs: set<Sig>, s: Sig)
    requires Matches(base, rev, m, sigs) && s !in rev
    ensures Matches(base, rev, m, sigs + {s})
  {
  }

  lemma UnmatchedStep(one: map<Sig, Id>, other: map<Sig, Id>, ids: seq<Id>, sigs: set<Sig>, s: Sig)
    requires Injective(one) && Unmatched(one, other, ids, sigs) && s in one && s !in sigs
    ensures Unmatched(one, other, if s in other then ids else ids + [one[s]], sigs + {s})
  {
    if s !in other {
      var all := ids + [one[s]];
      assert one[s] !in ids;
      forall x | x in all ensures exists t :: t in sigs + {s} && t in one && t !in other && one[t] == x {
        if x in ids {
          var t :| t in sigs && t in one && t !in other && one[t] == x;
          assert t in sigs + {s};
        } else {
          assert s in sigs + {s};
        }
      }
      assert all[|ids|] == one[s];
    }
  }

  /** Lines 37-45: every indexed base node is matched, and its partner struck off, or is possibly deleted. */
  method MatchBase(base: map<Sig, Id>, rev: map<Sig, Id>) returns (m: Matching, rest: map<Sig, Id>, deleted: seq<Id>)
    requires Injective(base) && Injective(rev)
    ensures Matches(base, rev, m, base.Keys) && Unmatched(base, rev, deleted, base.Keys) && m.added == []
    ensures rest == map s | s in rev && s !in base :: rev[s]
  {
    m, rest, deleted := Matching(map[], map[], []), rev, [];
    var todo := base.Keys;
    ghost var done: set<Sig> := {};
    while todo != {}
      invariant todo <= base.Keys && done == base.Keys - todo
      invariant Matches(base, rev, m, done) && Unmatched(base, rev, deleted, done) && m.added == []
      invariant forall s :: s in rest <==> s in rev && s !in done
      invariant forall s :: s in rest ==> rest[s] == rev[s]
      decreases todo
    {
      var s :| s in todo;
      UnmatchedStep(base, rev, deleted, done, s);
      if s in rest {
        MatchesStep(base, rev, m, done, s);
        m := m.(left := m.left[base[s] := rest[s]], right := m.right[rest[s] := base[s]]);
        rest := map t | t in rest && t != s :: rest[t];
      } else {
        MatchesSkip(base, rev, m, done, s);
        deleted := deleted + [base[s]];
      }
      todo, done := todo - {s}, done + {s};
    }
    assert done == base.Keys;
  }

  /** Lines 47-49: what is left of the revision is possibly added. */
  method CollectAdded(rev: map<Sig, Id>, base: map<Sig, Id>, rest: map<Sig, Id>) returns (added: seq<Id>)
    requires Injective(rev) && rest == map s | s in rev && s !in base :: rev[s]
    ensures Unmatched(rev, base, added, rev.Keys)
  {
    added := [];
    var todo := rest.Keys;
    ghost var done := rev.Keys * base.Keys;
    assert Unmatched(rev, base, added, done);
    while todo != {}
      invariant todo <= rest.Keys && done == rev.Keys - todo
      invariant Unmatched(rev, base, added, done)
      decreases todo
    {
      var s :| s in todo;
      UnmatchedStep(rev, base, added, done, s);
      added := added + [rest[s]];
      todo, done := todo - {s}, done + {s};
    }
    assert done == rev.Keys;
  }

  lemma IndexIsInjective(graph: seq<Vertex>, index: map<Sig, Id>)
    requires Indexes(graph, index) && DistinctIds(graph)
    ensures Injective(index)
  {
    forall s, t | s in index && t in index && index[s] == index[t] ensures s == t {
      IndexInjective(graph, index, s, t);
    }
  }

  /** The matching is one-to-one, and together with the deleted and added nodes it accounts for every indexed
      node exactly once. Nodes that share their signature with a later node of their graph are in none of them. */
  method Match(baseGraph: seq<Vertex>, revGraph: seq<Vertex>)
    returns (m: Matching, deleted: seq<Id>, base: map<Sig, Id>, rev: map<Sig, Id>)
    requires DistinctIds(baseGraph) && DistinctIds(revGraph)
    ensures Indexes(baseGraph, base) && Indexes(revGraph, rev)
    ensures Matches(base, rev, m, base.Keys)
    ensures Unmatched(base, rev, deleted, base.Keys) && Unmatched(rev, base, m.added, rev.Keys)
    ensures forall ids, nodes :: Holds(baseGraph, revGraph, ids, nodes) ==> OneToOne(m, ids, nodes)
    ensures forall b :: b in m.left || b in deleted ==> ToMerge(baseGraph, b)
    ensures forall r :: r in m.right || r in m.added ==> ToMerge(revGraph, r)
  {
    base := IndexBySignature(baseGraph);
    rev := IndexBySignature(revGraph);
    IndexIsInjective(baseGraph, base);
    IndexIsInjective(revGraph, rev);
    var rest;
    m, rest, deleted := MatchBase(base, rev);
    var added := CollectAdded(rev, base, rest);
    m := m.(added := added);
    forall ids, nodes | Holds(baseGraph, revGraph, ids, nodes) ensures OneToOne(m, ids, nodes) {
      MatchIsOneToOne(baseGraph, revGraph, base, rev, m, ids, nodes);
    }
    OnlyToMerge(baseGraph, base);
    OnlyToMerge(revGraph, rev);
  }

  /** A node of the graph that is marked for merging and is not synthetic. */
  ghost predicate ToMerge(graph: seq<Vertex>, id: Id) {
    exists k :: 0 <= k < |graph| && graph[k].id == id && graph[k].needToMerge && !graph[k].synthetic
  }

  lemma OnlyToMerge(graph: seq<Vertex>, index: map<Sig, Id>)
    requires Indexes(graph, index)
    ensures forall s :: s in index ==> ToMerge(graph, index[s])
  {
    forall s | s in index ensures ToMerge(graph, index[s]) {
      assert LastWith(graph, s, index[s]);
      var k :| LastAt(graph, s, index[s], k);
    }
  }

  /** The base nodes, and the nodes of the revision with their signatures, are those of the graphs. */
  ghost predicate Holds(baseGraph: seq<Vertex>, revGraph: seq<Vertex>, ids: set<Id>, nodes: Revision) {
    (forall k :: 0 <= k < |baseGraph| ==> baseGraph[k].id in ids) &&
    (forall k :: 0 <= k < |revGraph| ==> revGraph[k].id in nodes && nodes[revGraph[k].id].sig == revGraph[k].sig)
  }

  /** So the result is what the tree merge needs of a matching. */
  lemma MatchIsOneToOne(baseGraph: seq<Vertex>, revGraph: seq<Vertex>, base: map<Sig, Id>, rev: map<Sig, Id>,
                        m: Matching, ids: set<Id>, nodes: Revision)
    requires DistinctIds(baseGraph) && DistinctIds(revGraph) && Indexes(baseGraph, base) && Indexes(revGraph, rev)
    requires Matches(base, rev, m, base.Keys) && Unmatched(rev, base, m.added, rev.Keys)
    requires Holds(baseGraph, revGraph, ids, nodes)
    ensures OneToOne(m, ids, nodes)
  {
    IndexIsInjective(baseGraph, base);
    IndexIsInjective(revGraph, rev);
    forall s | s in base ensures base[s] in ids {
      assert LastWith(baseGraph, s, base[s]);
    }
    forall s | s in rev ensures rev[s] in nodes && nodes[rev[s]].sig == s {
      assert LastWith(revGraph, s, rev[s]);
    }
    PairsOneToOne(base, rev, m, ids, nodes);
  }

  lemma PairsOneToOne(base: map<Sig, Id>, rev: map<Sig, Id>, m: Matching, ids: set<Id>, nodes: Revision)
    requires Injective(base) && Injective(rev)
    requires Matches(base, rev, m, base.Keys) && Unmatched(rev, base, m.added, rev.Keys)
    requires forall s :: s in base ==> base[s] in ids
    requires forall s :: s in rev ==> rev[s] in nodes && nodes[rev[s]].sig == s
    ensures OneToOne(m, ids, nodes)
  {
    forall r | r in m.added ensures r in nodes && r !in m.right {
      var s :| s in rev.Keys && s in rev && s !in base && rev[s] == r;
    }
  }

  /** Without signature clashes nothing is lost: every relevant node is matched, deleted or added. */
  lemma NothingLost(graph: seq<Vertex>, index: map<Sig, Id>, k: nat)
    requires Indexes(graph, index) && k < |graph| && Relevant(graph[k])
    requires forall i, j :: 0 <= i < j < |graph| && Relevant(graph[i]) && Relevant(graph[j]) ==>
      graph[i].sig != graph[j].sig
    ensures graph[k].sig in index && index[graph[k].sig] == graph[k].id
  {
    var s := graph[k].sig;
    assert LastWith(graph, s, index[s]);
    var l :| LastAt(graph, s, index[s], l);
    assert l == k;
  }
}
