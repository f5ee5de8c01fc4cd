/** The DependencyGraph class of include/mergebot/utils/stringop.h. */
module DependencyGraphs {
  import opened Seqs
  import opened StringOrder
  import opened Digraph

  /** The recorded in-degree of every node is its number of distinct predecessors.
      addEdge breaks this when it adds an edge that is already there. */
  ghost predicate ExactDegrees(g: Graph, inDegree: map<string, int>)
    requires g.Keys == inDegree.Keys
  {
    forall x :: x in g ==> inDegree[x] == |Preds(g, x)|
  }

  /** No recorded in-degree is below the number of distinct predecessors. */
  ghost predicate WellCounted(g: Graph, inDegree: map<string, int>) {
    g.Keys == inDegree.Keys && Closed(g) &&
    forall x :: x in g ==> inDegree[x] >= |Preds(g, x)|
  }

  lemma WellCountedNode(g: Graph, inDegree: map<string, int>, node: string)
    requires WellCounted(g, inDegree) && node !in g
    ensures WellCounted(g[node := {}], inDegree[node := 0])
  {
    var g' := g[node := {}];
    assert Preds(g', node) == {};
    assert forall x :: x in g ==> Preds(g', x) == Preds(g, x);
  }

  lemma WellCountedEdge(g: Graph, inDegree: map<string, int>, from: string, to: string)
    requires WellCounted(g, inDegree) && from in g && to in g
    ensures WellCounted(g[from := g[from] + {to}], inDegree[to := inDegree[to] + 1])
  {
    var g' := g[from := g[from] + {to}];
    forall x | x in g' ensures inDegree[to := inDegree[to] + 1][x] >= |Preds(g', x)| {
      if x == to {
        assert Preds(g', x) == Preds(g, x) + {from};
      } else {
        assert Preds(g', x) == Preds(g, x);
      }
    }
  }

  class DependencyGraph {
    var adjacencyList: Graph
    var inDegree: map<string, int>
    var visited: set<string>

    ghost predicate Valid()
      reads this
    {
      WellCounted(adjacencyList, inDegree)
    }

    constructor ()
      ensures Valid() && adjacencyList == map[] && inDegree == map[]
    {
      adjacencyList, inDegree, visited := map[], map[], {};
    }

    method AddNode(node: string) returns (added: bool)
      requires Valid()
      modifies this
      ensures Valid()
      ensures added <==> node !in old(adjacencyList)
      ensures added ==> adjacencyList == old(adjacencyList)[node := {}] && inDegree == old(inDegree)[node := 0]
      ensures !added ==> adjacencyList == old(adjacencyList) && inDegree == old(inDegree)
    {
      if node !in adjacencyList {
        WellCountedNode(adjacencyList, inDegree, node);
        adjacencyList := adjacencyList[node := {}];
        inDegree := inDegree[node := 0];
        return true;
      }
      return false;
    }

    method AddEdge(from: string, to: string) returns (added: bool)
      requires Valid()
      modifies this
      ensures Valid()
      ensures added <==> from in old(adjacencyList) && to in old(adjacencyList)
      ensures added ==> adjacencyList == old(adjacencyList)[from := old(adjacencyList)[from] + {to}]
      ensures added ==> inDegree == old(inDegree)[to := old(inDegree)[to] + 1]
      ensures !added ==> adjacencyList == old(adjacencyList) && inDegree == old(inDegree)
    {
      if from !in adjacencyList || to !in adjacencyList {
        return false;
      }
      var edges, degrees := adjacencyList[from := adjacencyList[from] + {to}], inDegree[to := inDegree[to] + 1];
      assert WellCounted(edges, degrees) by {
        WellCountedEdge(adjacencyList, inDegree, from, to);
      }
      adjacencyList, inDegree := edges, degrees;
      return true;
    }

    /** Depth-first search from node. stack is the search path as a walk; rank certifies that
        the finished nodes (visited, not on the path) are acyclic and closed under successors. */
    method HasCycleDFS(node: string, path: set<string>, ghost stack: seq<string>, ghost rank: map<string, int>)
      returns (found: bool, path': set<string>, ghost rank': map<string, int>)
      requires Valid() && node in adjacencyList && node !in visited
      requires SearchState(adjacencyList, visited, path, rank)
      requires Elems(stack) == path && Walk(adjacencyList, stack + [node])
      modifies this`visited
      ensures found ==> Cyclic(adjacencyList)
      ensures !found ==> path' == path && node in visited && old(visited) <= visited
      ensures !found ==> SearchState(adjacencyList, visited, path, rank')
      decreases adjacencyList.Keys - visited, 0
    {
      visited := visited + {node};
      path' := path + {node};
      assert visited - path' == old(visited) - path;
      assert Elems(stack + [node]) == path';
      found, path', rank' := ScanNeighbors(node, path', stack, rank);
      if found {
        return;
      }
      FinishNode(adjacencyList, visited, path', rank', node);
      rank' := rank'[node := |visited - path'|];
      path' := path' - {node};
      assert path' == path;
    }

    /** The neighbour loop of HasCycleDFS (lines 352-361). */
    method ScanNeighbors(node: string, path: set<string>, ghost stack: seq<string>, ghost rank: map<string, int>)
      returns (found: bool, path': set<string>, ghost rank': map<string, int>)
      requires Valid() && node in adjacencyList && node in path
      requires SearchState(adjacencyList, visited, path, rank)
      requires Elems(stack + [node]) == path && Walk(adjacencyList, stack + [node])
      modifies this`visited
      ensures found ==> Cyclic(adjacencyList)
      ensures !found ==> path' == path && old(visited) <= visited
      ensures !found ==> SearchState(adjacencyList, visited, path, rank')
      ensures !found ==> forall v :: v in adjacencyList[node] ==> v in visited && v !in path
      decreases adjacencyList.Keys - visited, 1
    {
      path', rank' := path, rank;
      var todo := adjacencyList[node];
      while todo != {}
        invariant todo <= adjacencyList[node] && path' == path && old(visited) <= visited
        invariant SearchState(adjacencyList, visited, path, rank')
        invariant forall v :: v in adjacencyList[node] && v !in todo ==> v in visited && v !in path
        decreases todo
      {
        var neighbor :| neighbor in todo;
        todo := todo - {neighbor};
        StackEdge(adjacencyList, stack, node, neighbor);
        if neighbor in path' {
          StackCycle(adjacencyList, stack + [node], neighbor);
          return true, path', rank';
        }
        if neighbor !in visited {
          found, path', rank' := HasCycleDFS(neighbor, path', stack + [node], rank');
          if found {
            return;
          }
        }
      }
      found := false;
    }

    method HasCycle() returns (found: bool, ghost rank: map<string, int>)
      requires Valid()
      modifies this`visited
      ensures found <==> Cyclic(adjacencyList)
      ensures !found ==> Ranked(adjacencyList, rank, adjacencyList.Keys)
    {
      visited := {};
      var path: set<string> := {};
      rank := map[];
      var todo := adjacencyList.Keys;
      while todo != {}
        invariant todo <= adjacencyList.Keys && path == {}
        invariant forall v :: v in adjacencyList && v !in todo ==> v in visited
        invariant SearchState(adjacencyList, visited, path, rank)
        decreases todo
      {
        var node :| node in todo;
        todo := todo - {node};
        if node !in visited {
          found, path, rank := HasCycleDFS(node, path, [], rank);
          if found {
            return true, rank;
          }
        }
      }
      assert visited - path == adjacencyList.Keys;
      RankedIsAcyclic(adjacencyList, rank);
      return false, rank;
    }

    /** Kahn's algorithm with a max-heap. */
    method TopologicalSort() returns (ok: bool, result: seq<string>)
      requires Valid()
      modifies this`visited
      ensures ok <==> !Cyclic(adjacencyList) && ExactDegrees(adjacencyList, inDegree)
      ensures ok ==> GreatestLinearExtension(adjacencyList, result)
    {
      result := [];
      ghost var rank;
      var cyclic;
      cyclic, rank := HasCycle();
      if cyclic {
        return false, result;
      }
      result := Kahn(adjacencyList, inDegree, rank);
      ok := |result| == |adjacencyList|;
    }
  }

  /** The heap loop of topologicalSort (lines 408-429). */
  method Kahn(g: Graph, inDegree: map<string, int>, ghost rank: map<string, int>) returns (result: seq<string>)
    requires WellCounted(g, inDegree) && Ranked(g, rank, g.Keys)
    ensures |result| == |g| <==> ExactDegrees(g, inDegree)
    ensures |result| == |g| ==> GreatestLinearExtension(g, result)
  {
    result := [];
    var temp := inDegree;
    var pq := InitialHeap(g, temp);
    InitialState(g, inDegree, pq);
    while pq != multiset{}
      invariant KahnState(g, inDegree, pq, temp, result)
      decreases |g| - |result|
    {
      TopExists(pq);
      var current :| IsTop(pq, current);
      ghost var heap, start := pq, temp;
      SuccessorsPending(g, inDegree, pq, temp, result, current);
      pq, temp := Relax(g, pq, temp, Elems(result), current);
      KahnStep(g, inDegree, heap, start, pq, result, current);
      result := result + [current];
    }
    KahnDone(g, inDegree, temp, result, rank);
  }

  ghost predicate KahnState(g: Graph, inDegree: map<string, int>, pq: multiset<string>, temp: map<string, int>,
                            result: seq<string>)
  {
    g.Keys == inDegree.Keys == temp.Keys && Elems(result) <= g.Keys && NoDup(result) &&
    Heap(g, pq, temp, Elems(result)) && Counts(g, inDegree, temp, Elems(result)) &&
    (ExactDegrees(g, inDegree) ==> Greedy(g, result))
  }

  lemma AtMostAll(g: Graph, s: seq<string>)
    requires NoDup(s) && Elems(s) <= g.Keys
    ensures |s| <= |g|
  {
    ElemsSize(s);
    SubsetSize(Elems(s), g.Keys);
  }

  lemma AppendFresh(s: seq<string>, x: string)
    requires NoDup(s) && x !in s
    ensures NoDup(s + [x]) && Elems(s + [x]) == Elems(s) + {x}
  {
  }

  lemma SuccessorsPending(g: Graph, inDegree: map<string, int>, heap: multiset<string>, temp: map<string, int>,
                          result: seq<string>, current: string)
    requires g.Keys == inDegree.Keys == temp.Keys && Closed(g)
    requires KahnState(g, inDegree, heap, temp, result) && IsTop(heap, current)
    ensures current in g && current !in Elems(result) && temp[current] == 0
    ensures forall v :: v in g[current] ==> v in g && temp[v] > 0 && v !in Elems(result)
  {
    assert heap[current] == 1;
    forall v | v in g[current] ensures v in g && temp[v] > 0 && v !in Elems(result) {
      NotYetZero(g, inDegree, temp, Elems(result), current, v);
    }
  }

  lemma KahnStep(g: Graph, inDegree: map<string, int>, heap: multiset<string>, start: map<string, int>,
                 pq: multiset<string>, result: seq<string>, current: string)
    requires g.Keys == inDegree.Keys == start.Keys && Closed(g)
    requires KahnState(g, inDegree, heap, start, result) && IsTop(heap, current)
    requires current in g && Heap(g, pq, Decremented(g, start, current), Elems(result) + {current})
    ensures KahnState(g, inDegree, pq, Decremented(g, start, current), result + [current])
    ensures |result| < |g|
  {
    SuccessorsPending(g, inDegree, heap, start, result, current);
    AppendFresh(result, current);
    AtMostAll(g, result + [current]);
    forall x | x in g ensures CountAt(g, inDegree, Decremented(g, start, current), Elems(result) + {current}, x) {
      CountStep(g, inDegree, start, Elems(result), current, x);
    }
    if ExactDegrees(g, inDegree) {
      TopIsGreedy(g, inDegree, heap, start, result, current);
    }
  }

  lemma KahnDone(g: Graph, inDegree: map<string, int>, temp: map<string, int>, result: seq<string>, rank: map<string,
                 int>)
    requires g.Keys == inDegree.Keys == temp.Keys
    requires KahnState(g, inDegree, multiset{}, temp, result) && Ranked(g, rank, g.Keys)
    ensures |result| == |g| <==> ExactDegrees(g, inDegree)
    ensures |result| == |g| ==> GreatestLinearExtension(g, result)
  {
    ElemsSize(result);
    if |result| == |g| {
      SubsetSameSize(Elems(result), g.Keys);
      AllDoneIsExact(g, inDegree, temp);
      GreedyIsGreatest(g, result);
    } else if ExactDegrees(g, inDegree) {
      var heap: multiset<string> := multiset{};
      forall x | x in g && x !in Elems(result) ensures temp[x] != 0 {
        assert heap[x] == 0;
      }
      NoneLeft(g, inDegree, temp, Elems(result), rank);
    }
  }

  /** The scan for nodes with in-degree 0 (lines 411-416). */
  method InitialHeap(g: Graph, temp: map<string, int>) returns (pq: multiset<string>)
    requires temp.Keys == g.Keys
    ensures Heap(g, pq, temp, {})
  {
    pq := multiset{};
    var todo := g.Keys;
    while todo != {}
      invariant todo <= g.Keys
      invariant forall x :: pq[x] == if x in g && x !in todo && temp[x] == 0 then 1 else 0
      decreases todo
    {
      var node :| node in todo;
      todo := todo - {node};
      if temp[node] == 0 {
        pq := pq + multiset{node};
      }
    }
  }

  /** One turn of Kahn's loop (lines 419-428): current leaves the heap, its successors lose one. */
  method Relax(g: Graph, heap: multiset<string>, start: map<string, int>, ghost done: set<string>, current: string)
    returns (pq: multiset<string>, temp: map<string, int>)
    requires start.Keys == g.Keys && Heap(g, heap, start, done) && current in heap
    requires forall v :: v in g[current] ==> v in g && start[v] > 0 && v !in done
    ensures temp.Keys == g.Keys && temp == Decremented(g, start, current)
    ensures Heap(g, pq, temp, done + {current})
  {
    assert heap[current] == 1;
    pq, temp := heap - multiset{current}, start;
    var neighbors := g[current];
    while neighbors != {}
      invariant neighbors <= g[current]
      invariant temp.Keys == g.Keys
      invariant forall x :: x in g && (x !in g[current] || x in neighbors) ==> temp[x] == start[x]
      invariant forall x :: x in g && x in g[current] && x !in neighbors ==> temp[x] == start[x] - 1
      invariant Heap(g, pq, temp, done + {current})
      decreases neighbors
    {
      var neighbor :| neighbor in neighbors;
      neighbors := neighbors - {neighbor};
      temp := temp[neighbor := temp[neighbor] - 1];
      if temp[neighbor] == 0 {
        pq := pq + multiset{neighbor};
      }
    }
  }

  /** The counters after current is finished. */
  ghost function Decremented(g: Graph, temp: map<string, int>, current: string): map<string, int>
    requires temp.Keys == g.Keys && current in g
  {
    map x | x in g :: if x in g[current] then temp[x] - 1 else temp[x]
  }

  ghost predicate SearchState(g: Graph, visited: set<string>, path: set<string>, rank: map<string, int>) {
    path <= visited <= g.Keys && Ranked(g, rank, visited - path)
  }

  lemma FinishNode(g: Graph, visited: set<string>, path: set<string>, rank: map<string, int>, node: string)
    requires SearchState(g, visited, path, rank) && node in path
    requires forall v :: v in g[node] ==> v in visited && v !in path
    ensures SearchState(g, visited, path - {node}, rank[node := |visited - path|])
  {
    var done := visited - path;
    assert visited - (path - {node}) == done + {node};
  }

  lemma StackEdge(g: Graph, stack: seq<string>, node: string, neighbor: string)
    requires Closed(g) && Walk(g, stack + [node]) && node in g && neighbor in g[node]
    ensures Walk(g, stack + [node] + [neighbor])
  {
    var w, w' := stack + [node], stack + [node] + [neighbor];
    forall i | 0 <= i < |w'| - 1 ensures Edge(g, w'[i], w'[i + 1]) {
      if i < |w| - 1 {
        assert Edge(g, w[i], w[i + 1]);
      }
    }
  }

  lemma StackCycle(g: Graph, stack: seq<string>, neighbor: string)
    requires Walk(g, stack + [neighbor]) && neighbor in stack
    ensures Cyclic(g)
  {
    var k :| 0 <= k < |stack| && stack[k] == neighbor;
    var w := stack + [neighbor];
    var c := w[k..];
    forall i | 0 <= i < |c| - 1 ensures Edge(g, c[i], c[i + 1]) {
      assert Edge(g, w[k + i], w[k + i + 1]);
    }
    assert Cycle(g, c);
  }

  /** The heap holds, once each, the unfinished nodes whose counter has reached zero. */
  ghost predicate Heap(g: Graph, pq: multiset<string>, temp: map<string, int>, done: set<string>)
    requires temp.Keys == g.Keys
  {
    forall x :: pq[x] == if x in g && x !in done && temp[x] == 0 then 1 else 0
  }

  /** The counter of x has lost one for each finished predecessor; a finished node is at zero. */
  ghost predicate CountAt(g: Graph, inDegree: map<string, int>, temp: map<string, int>, done: set<string>, x: string)
    requires g.Keys == inDegree.Keys == temp.Keys && x in g
  {
    temp[x] == inDegree[x] - |Preds(g, x) * done| && inDegree[x] >= |Preds(g, x)| && (x in done ==> temp[x] == 0)
  }

  ghost predicate Counts(g: Graph, inDegree: map<string, int>, temp: map<string, int>, done: set<string>)
    requires g.Keys == inDegree.Keys == temp.Keys
  {
    forall x :: x in g ==> CountAt(g, inDegree, temp, done, x)
  }

  lemma InitialState(g: Graph, inDegree: map<string, int>, pq: multiset<string>)
    requires g.Keys == inDegree.Keys && forall x :: x in g ==> inDegree[x] >= |Preds(g, x)|
    requires Heap(g, pq, inDegree, {})
    ensures KahnState(g, inDegree, pq, inDegree, [])
  {
    assert Elems<string>([]) == {};
    assert forall x :: x in g ==> Preds(g, x) * {} == {};
  }

  lemma SubsetSameSize(a: set<string>, b: set<string>)
    requires a <= b && |a| == |b|
    ensures a == b
  {
    assert |b - a| == |b| - |a|;
  }

  lemma SubsetSize(a: set<string>, b: set<string>)
    requires a <= b
    ensures |a| <= |b|
  {
    assert |b - a| == |b| - |a|;
  }

  /** With exact degrees, a counter is zero exactly when all predecessors are finished. */
  lemma ZeroIffAvailable(g: Graph, inDegree: map<string, int>, temp: map<string, int>, done: set<string>, x: string)
    requires g.Keys == inDegree.Keys == temp.Keys && x in g
    requires Counts(g, inDegree, temp, done) && ExactDegrees(g, inDegree)
    ensures temp[x] == 0 <==> Preds(g, x) <= done
  {
    SubsetSize(Preds(g, x) * done, Preds(g, x));
    if temp[x] == 0 {
      SubsetSameSize(Preds(g, x) * done, Preds(g, x));
    }
    if Preds(g, x) <= done {
      assert Preds(g, x) * done == Preds(g, x);
    }
  }

  lemma TopIsGreedy(g: Graph, inDegree: map<string, int>, pq: multiset<string>, temp: map<string, int>,
                    result: seq<string>, current: string)
    requires g.Keys == inDegree.Keys == temp.Keys && Elems(result) <= g.Keys
    requires Heap(g, pq, temp, Elems(result)) && Counts(g, inDegree, temp, Elems(result))
    requires ExactDegrees(g, inDegree) && Greedy(g, result) && IsTop(pq, current)
    ensures Greedy(g, result + [current])
  {
    forall y | y in g ensures temp[y] == 0 <==> Preds(g, y) <= Elems(result) {
      ZeroIffAvailable(g, inDegree, temp, Elems(result), y);
    }
    assert pq[current] == 1;
    forall y | Available(g, Elems(result), y) ensures y == current || Less(y, current) {
      assert pq[y] == 1;
    }
    GreedyExtend(g, result, current);
  }

  /** A successor of the node being finished still has a positive counter. */
  lemma NotYetZero(g: Graph, inDegree: map<string, int>, temp: map<string, int>, done: set<string>,
                   current: string, neighbor: string)
    requires g.Keys == inDegree.Keys == temp.Keys && Closed(g)
    requires Counts(g, inDegree, temp, done)
    requires current in g && current !in done && neighbor in g[current]
    ensures neighbor in g && temp[neighbor] > 0 && neighbor !in done
  {
    var p := Preds(g, neighbor);
    assert current in p && current !in p * done;
    SubsetSize(p * done + {current}, p);
  }

  lemma CountStep(g: Graph, inDegree: map<string, int>, start: map<string, int>,
                  done: set<string>, current: string, x: string)
    requires g.Keys == inDegree.Keys == start.Keys && Closed(g)
    requires Counts(g, inDegree, start, done) && current in g && current !in done && start[current] == 0
    requires x in g
    ensures CountAt(g, inDegree, Decremented(g, start, current), done + {current}, x)
  {
    assert CountAt(g, inDegree, start, done, x);
    var p := Preds(g, x);
    if x in g[current] {
      NotYetZero(g, inDegree, start, done, current, x);
      assert current in p;
      assert p * (done + {current}) == p * done + {current};
    } else {
      assert p * (done + {current}) == p * done;
    }
  }

  lemma AllDoneIsExact(g: Graph, inDegree: map<string, int>, temp: map<string, int>)
    requires g.Keys == inDegree.Keys == temp.Keys
    requires Counts(g, inDegree, temp, g.Keys)
    ensures ExactDegrees(g, inDegree)
  {
    forall x | x in g ensures inDegree[x] == |Preds(g, x)| {
      assert Preds(g, x) * g.Keys == Preds(g, x);
    }
  }

  /** In an acyclic graph with exact degrees, an empty heap means that every node is finished:
      an unfinished node of maximal rank would have only finished predecessors. */
  lemma NoneLeft(g: Graph, inDegree: map<string, int>, temp: map<string, int>, done: set<string>, rank: map<string,
                 int>)
    requires g.Keys == inDegree.Keys == temp.Keys && done <= g.Keys
    requires Counts(g, inDegree, temp, done) && forall x :: x in g && x !in done ==> temp[x] != 0
    requires ExactDegrees(g, inDegree) && Ranked(g, rank, g.Keys)
    ensures done == g.Keys
  {
    if z :| z in g.Keys && z !in done {
      var left := set x | x in g && x !in done;
      assert z in left;
      var x := MaxRank(rank, left);
      forall u | u in Preds(g, x) ensures u in done {
        assert rank[x] < rank[u];
      }
      ZeroIffAvailable(g, inDegree, temp, done, x);
    }
  }

  lemma {:induction false} MaxRank(rank: map<string, int>, s: set<string>) returns (x: string)
    requires s != {} && s <= rank.Keys
    ensures x in s && forall y :: y in s ==> rank[y] <= rank[x]
    decreases |s|
  {
    x :| x in s;
    if s != {x} {
      var rest := s - {x};
      assert s == rest + {x};
      var y := MaxRank(rank, rest);
      if rank[y] > rank[x] {
        x := y;
      }
    }
  }
}
