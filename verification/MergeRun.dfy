/** The calls of mergeSemanticNode in a run of GraphMerger (src/core/semantic/GraphMerger.cpp), and what has become of
    the base nodes when the run comes to a call. */
module MergeRun {
  import opened Seqs
  import opened TreeMergeSpec

  // ---------- the calls ----------

  /** Where a call stands in the run: the number of its translation unit, then on every level that of the child. */
  type Path = seq<nat>

  /** Calls come in the order of their paths, a caller before those it calls. */
  predicate Before(q: Path, p: Path) {
    p != [] && (q == [] || q[0] < p[0] || (q[0] == p[0] && Before(q[1..], p[1..])))
  }

  /** The call after p, and all that p calls, on the same level. */
  function Next(p: Path): Path
    requires p != []
  {
    p[..|p| - 1] + [p[|p| - 1] + 1]
  }

  /** The children over which the merge of b loops: those of its match on the leading side. */
  function ChildrenOf(w: World, b: Id): seq<Id> {
    if b in w.start && Matched(w, b) && !w.start[b].terminal then w.Lead()[w.LeadMatching().left[b]].children else []
  }

  /** The child of the leading side for which the call at p is made, if it is not for a translation unit. */
  ghost function ChildAt(w: World, p: Path): Option<Id>
    decreases |p|, 0
  {
    if |p| < 2 then None
    else
      match CallAt(w, p[..|p| - 1])
      case None => None
      case Some(b) => if p[|p| - 1] < |ChildrenOf(w, b)| then Some(ChildrenOf(w, b)[p[|p| - 1]]) else None
  }

  /** The base node on which mergeSemanticNode is called at p. It is the one for which the child was found in the table;
      below it the run goes on with the children of that node's match, not with those of the child. */
  ghost function CallAt(w: World, p: Path): (b: Option<Id>)
    ensures b.Some? ==> p != []
    decreases |p|, 1
  {
    if |p| == 1 then if p[0] < |w.units| then Some(w.units[p[0]]) else None
    else
      match ChildAt(w, p)
      case None => None
      case Some(c) => StandsFor(w, c)
  }

  /** The base node that is rewritten by the call at p: a node that one side deleted is not. */
  ghost function MergedAt(w: World, p: Path): Option<Id> {
    match CallAt(w, p)
    case None => None
    case Some(b) => if b in w.start && Matched(w, b) then Some(b) else None
  }

  // ---------- where the run has come ----------

  /** x is rewritten before the run comes to p. */
  ghost predicate Done(w: World, p: Path, x: Id) {
    exists q :: Before(q, p) && MergedAt(w, q) == Some(x)
  }

  ghost function TextAt(w: World, p: Path, x: Id): Text
    requires x in w.start
  {
    if Done(w, p, x) && Matched(w, x) then FinalText(w, x) else w.start[x].text
  }

  /** At p, a lookup by a signature may find x: it is where the table looks, and it compares equal then. */
  ghost predicate HitAt(w: World, side: Side, p: Path, sig: Sig, x: Id) {
    x in w.Table(side).left && x in w.start &&
    w.Bucket(side, StoredSig(w, x)) == w.Bucket(side, sig) && w.signature(x, TextAt(w, p, x)) == sig
  }

  /** The lookups of the call at p, by the signature its node has at the start, may find another node. */
  ghost predicate Strays(w: World, p: Path, b: Id) {
    b in w.start && exists side, x :: x != b && HitAt(w, side, p, StoredSig(w, b), x)
  }

  /** The call at p is the first for its node, and its lookups can find nothing but that node. */
  ghost predicate Smooth(w: World, p: Path) {
    match CallAt(w, p)
    case None => true
    case Some(b) => !Done(w, p, b) && !Strays(w, p, b)
  }

  ghost predicate SmoothBefore(w: World, p: Path) {
    forall q {:trigger Smooth(w, q)} :: Before(q, p) ==> Smooth(w, q)
  }

  // ---------- what the nodes are then ----------

  /** What the lookup of the parent in filterAddedNodes may find, when the children of p have been merged. */
  ghost predicate Finds(w: World, side: Side, p: Path, found: Option<Id>)
    requires MergedAt(w, p).Some?
  {
    var b := MergedAt(w, p).value;
    match found
    case Some(x) => HitAt(w, side, p + [|ChildrenOf(w, b)|], FinalSig(w, b), x)
    case None => forall x :: !HitAt(w, side, p + [|ChildrenOf(w, b)|], FinalSig(w, b), x)
  }

  /** A list of children that the call at p may produce. */
  ghost predicate Listed(w: World, p: Path, list: seq<Ref>)
    requires MergedAt(w, p).Some?
  {
    exists l, f :: Finds(w, Leading, p, l) && Finds(w, Following, p, f) &&
      list == MergedChildren(w, w.LeadMatching().left[MergedAt(w, p).value], l, f)
  }

  /** The fields of a surviving node when its children come to be merged. */
  function MergedFields(w: World, b: Id): BaseNode
    requires b in w.start && Matched(w, b)
  {
    var o, t, n := w.ours[w.ourMatching.left[b]], w.theirs[w.theirMatching.left[b]], w.start[b];
    BaseNode(n.terminal, FinalText(w, b), o.eol, o.access, if n.terminal then n.firstEol else t.firstEol, n.children)
  }

  /** Line breaks behind the node: those of the child for which it was merged, for translation units ours. */
  ghost function EolAt(w: World, p: Path): int
    requires MergedAt(w, p).Some?
  {
    match ChildAt(w, p)
    case None => MergedFields(w, MergedAt(w, p).value).eol
    case Some(c) => if c in w.Lead() then w.Lead()[c].eol else 0
  }

  /** The node is what the call at p makes of its base node. */
  ghost predicate IsMerged(w: World, p: Path, node: BaseNode)
    requires MergedAt(w, p).Some?
  {
    var fields := MergedFields(w, MergedAt(w, p).value);
    node == fields.(eol := EolAt(w, p), children := node.children) &&
    if node.terminal then node.children == fields.children else Listed(w, p, node.children)
  }

  /** When the run comes to p, the calls above p have merged the fields of their nodes, all other calls have ended. */
  ghost predicate NodeIs(w: World, p: Path, x: Id, node: BaseNode)
    requires x in w.start
  {
    (!Done(w, p, x) ==> node == w.start[x]) &&
    forall q :: Before(q, p) && MergedAt(w, q) == Some(x) ==>
      if q <= p then node == MergedFields(w, x) else IsMerged(w, q, node)
  }

  /** The base graph as it is when a run, in which all calls so far were smooth, comes to p. */
  ghost predicate Reached(w: World, base: map<Id, BaseNode>, p: Path) {
    base.Keys == w.start.Keys && SmoothBefore(w, p) &&
    forall x {:trigger NodeIs(w, p, x, base[x])} :: x in w.start ==> NodeIs(w, p, x, base[x])
  }

  // ---------- the order of calls ----------

  lemma {:induction false} NotBeforeItself(p: Path)
    ensures !Before(p, p)
  {
    if p != [] {
      NotBeforeItself(p[1..]);
    }
  }

  lemma {:induction false} OneIsBefore(q: Path, p: Path)
    ensures q == p || Before(q, p) || Before(p, q)
  {
    if q != [] && p != [] && q[0] == p[0] {
      OneIsBefore(q[1..], p[1..]);
      assert q == [q[0]] + q[1..] && p == [p[0]] + p[1..];
    }
  }

  lemma {:induction false} BeforeChild(q: Path, p: Path, i: nat)
    ensures Before(q, p + [i]) <==> Before(q, p) || q == p || (p < q && q[|p|] < i)
  {
    var c := p + [i];
    if q != [] {
      assert q == [q[0]] + q[1..];
      if p == [] {
        assert c[1..] == [];
      } else if q[0] == p[0] {
        assert p == [p[0]] + p[1..] && c[1..] == p[1..] + [i];
        BeforeChild(q[1..], p[1..], i);
      }
    }
  }

  lemma BeforeNext(q: Path, p: Path)
    requires p != []
    ensures Before(q, Next(p)) <==> Before(q, p) || p <= q
  {
    var r, i := p[..|p| - 1], p[|p| - 1];
    assert p == r + [i];
    BeforeChild(q, r, i);
    BeforeChild(q, r, i + 1);
    assert p <= q <==> r < q && q[|r|] == i;
  }

  // ---------- from call to call ----------

  /** Before the first call nothing has happened. */
  lemma StartOfRun(w: World)
    ensures Reached(w, w.start, [0]) && forall x :: !Done(w, [0], x)
  {
    forall q | Before(q, [0]) ensures q == [] {
      BeforeChild(q, [], 0);
      assert [] + [0] == [0];
    }
    forall x | x in w.start ensures NodeIs(w, [0], x, w.start[x]) {
      assert !Done(w, [0], x);
    }
  }

  /** The number of turns of the loop over children in the call at p. */
  ghost function Turns(w: World, p: Path): nat {
    match CallAt(w, p)
    case None => 0
    case Some(b) => |ChildrenOf(w, b)|
  }

  /** No calls below p beyond those of its children. */
  lemma {:induction false} NoFurtherCalls(w: World, p: Path, q: Path)
    requires p != [] && p < q && Turns(w, p) <= q[|p|]
    ensures CallAt(w, q) == None
    decreases |q|
  {
    var parent := q[..|q| - 1];
    if parent == p {
      assert ChildAt(w, q) == None;
    } else {
      assert p < parent && parent[|p|] == q[|p|];
      NoFurtherCalls(w, p, parent);
    }
  }

  /** Between p and its first child, only p itself is added to what is done. */
  lemma DoneInside(w: World, p: Path, x: Id)
    ensures Done(w, p + [0], x) <==> Done(w, p, x) || MergedAt(w, p) == Some(x)
  {
    BeforeChild(p, p, 0);
    forall q ensures Before(q, p + [0]) <==> Before(q, p) || q == p {
      BeforeChild(q, p, 0);
    }
  }

  /** What is done behind the last child of p is what is done at the next call. */
  lemma DoneBehind(w: World, p: Path, q: Path)
    requires p != []
    ensures Before(q, p + [Turns(w, p)]) ==> Before(q, Next(p))
    ensures Before(q, Next(p)) && CallAt(w, q).Some? ==> Before(q, p + [Turns(w, p)])
  {
    BeforeNext(q, p);
    BeforeChild(q, p, Turns(w, p));
    if p < q && Turns(w, p) <= q[|p|] {
      NoFurtherCalls(w, p, q);
    }
  }

  lemma DoneNext(w: World, p: Path, x: Id)
    requires p != []
    ensures Done(w, Next(p), x) <==> Done(w, p + [Turns(w, p)], x)
  {
    forall q ensures (Before(q, Next(p)) && MergedAt(w, q) == Some(x)) <==>
      (Before(q, p + [Turns(w, p)]) && MergedAt(w, q) == Some(x)) {
      DoneBehind(w, p, q);
    }
  }

  lemma SmoothNext(w: World, p: Path)
    requires p != [] && SmoothBefore(w, p + [Turns(w, p)])
    ensures SmoothBefore(w, Next(p))
  {
    forall q | Before(q, Next(p)) ensures Smooth(w, q) {
      DoneBehind(w, p, q);
    }
  }

  /** A call that finds its node on both sides first rewrites its fields. */
  lemma EnterCall(w: World, base: map<Id, BaseNode>, p: Path, b: Id)
    requires Reached(w, base, p) && MergedAt(w, p) == Some(b) && Smooth(w, p)
    ensures Reached(w, base[b := MergedFields(w, b)], p + [0])
  {
    forall q | Before(q, p + [0]) ensures Smooth(w, q) {
      BeforeChild(q, p, 0);
    }
    EnteredNode(w, p, b);
    forall x | x in w.start && x != b ensures NodeIs(w, p + [0], x, base[x]) {
      assert NodeIs(w, p, x, base[x]);
      InsideNode(w, p, x, base[x]);
    }
    Replaced(w, base, p + [0], b, MergedFields(w, b));
  }

  lemma EnteredNode(w: World, p: Path, b: Id)
    requires MergedAt(w, p) == Some(b) && Smooth(w, p)
    ensures NodeIs(w, p + [0], b, MergedFields(w, b))
  {
    DoneInside(w, p, b);
    forall q | Before(q, p + [0]) && MergedAt(w, q) == Some(b) ensures q <= p + [0] {
      BeforeChild(q, p, 0);
    }
  }

  lemma PrefixOfChild(q: Path, p: Path, i: nat)
    requires q != p + [i]
    ensures q <= p + [i] <==> q <= p
  {
    if q <= p + [i] {
      assert |q| <= |p|;
      assert q == (p + [i])[..|q|] == p[..|q|];
    }
  }

  /** No other call before the end of the one at p rewrites its node. */
  lemma OnlyCall(w: World, p: Path, q: Path, n: nat)
    requires SmoothBefore(w, p + [n]) && MergedAt(w, p).Some? && MergedAt(w, q) == MergedAt(w, p) && Before(q, p + [n])
    ensures q == p
  {
    BeforeChild(p, p, n);
    OneIsBefore(q, p);
    assert Smooth(w, p) && Smooth(w, q);
    if Before(p, q) {
      assert Done(w, q, MergedAt(w, q).value);
    }
  }

  /** When all children are merged, the call completes its node and ends. */
  lemma LeaveCall(w: World, base: map<Id, BaseNode>, p: Path, b: Id, node: BaseNode)
    requires p != [] && MergedAt(w, p) == Some(b) && Reached(w, base, p + [Turns(w, p)]) && IsMerged(w, p, node)
    ensures Reached(w, base[b := node], Next(p))
  {
    SmoothNext(w, p);
    CompletedNode(w, p, b, node);
    forall x | x in w.start && x != b ensures NodeIs(w, Next(p), x, base[x]) {
      assert NodeIs(w, p + [Turns(w, p)], x, base[x]);
      OtherNode(w, p, x, base[x]);
    }
    Replaced(w, base, Next(p), b, node);
  }

  lemma Replaced(w: World, base: map<Id, BaseNode>, p: Path, b: Id, node: BaseNode)
    requires base.Keys == w.start.Keys && SmoothBefore(w, p) && b in w.start && NodeIs(w, p, b, node)
    requires forall x :: x in w.start && x != b ==> NodeIs(w, p, x, base[x])
    ensures Reached(w, base[b := node], p)
  {
  }

  lemma CompletedNode(w: World, p: Path, b: Id, node: BaseNode)
    requires p != [] && MergedAt(w, p) == Some(b) && SmoothBefore(w, p + [Turns(w, p)]) && IsMerged(w, p, node)
    ensures NodeIs(w, Next(p), b, node)
  {
    BeforeNext(p, p);
    assert Done(w, Next(p), b);
    forall q | Before(q, Next(p)) && MergedAt(w, q) == Some(b) ensures q == p {
      DoneBehind(w, p, q);
      OnlyCall(w, p, q, Turns(w, p));
    }
    assert p[|p| - 1] != Next(p)[|p| - 1];
  }

  lemma OtherNode(w: World, p: Path, x: Id, node: BaseNode)
    requires p != [] && x in w.start && MergedAt(w, p) != Some(x) && NodeIs(w, p + [Turns(w, p)], x, node)
    ensures NodeIs(w, Next(p), x, node)
  {
    DoneNext(w, p, x);
    forall q | Before(q, Next(p)) && MergedAt(w, q) == Some(x)
      ensures if q <= Next(p) then node == MergedFields(w, x) else IsMerged(w, q, node)
    {
      DoneBehind(w, p, q);
      SamePrefixes(q, p, Turns(w, p));
    }
  }

  lemma SamePrefixes(q: Path, p: Path, n: nat)
    requires p != [] && q != p && Before(q, p + [n]) && Before(q, Next(p))
    ensures q <= p + [n] <==> q <= Next(p)
  {
    NotBeforeItself(p + [n]);
    NotBeforeItself(Next(p));
    PrefixOfChild(q, p, n);
    var r := p[..|p| - 1];
    assert p == r + [p[|p| - 1]];
    PrefixOfChild(q, r, p[|p| - 1]);
    PrefixOfChild(q, r, p[|p| - 1] + 1);
  }

  /** Where no node is rewritten, nothing happens. */
  lemma SkipCall(w: World, base: map<Id, BaseNode>, p: Path)
    requires p != [] && MergedAt(w, p) == None && Reached(w, base, p) && Smooth(w, p)
    ensures Reached(w, base, Next(p))
  {
    assert Turns(w, p) == 0;
    forall q | Before(q, p + [0]) ensures Smooth(w, q) {
      BeforeChild(q, p, 0);
    }
    SmoothNext(w, p);
    forall x | x in w.start ensures NodeIs(w, Next(p), x, base[x]) {
      assert NodeIs(w, p, x, base[x]);
      InsideNode(w, p, x, base[x]);
      OtherNode(w, p, x, base[x]);
    }
  }

  /** At the first child of p, what p does not rewrite is as it was at p. */
  lemma InsideNode(w: World, p: Path, x: Id, node: BaseNode)
    requires x in w.start && MergedAt(w, p) != Some(x) && NodeIs(w, p, x, node)
    ensures NodeIs(w, p + [0], x, node)
  {
    DoneInside(w, p, x);
    forall q | Before(q, p + [0]) && MergedAt(w, q) == Some(x)
      ensures if q <= p + [0] then node == MergedFields(w, x) else IsMerged(w, q, node)
    {
      BeforeChild(q, p, 0);
      NotBeforeItself(p + [0]);
      PrefixOfChild(q, p, 0);
    }
  }

  lemma CalledIsBase(w: World, p: Path)
    requires WellFormed(w) && CallAt(w, p).Some?
    ensures CallAt(w, p).value in w.start
  {
    SidesOf(w, Leading);
  }

  lemma DoneAtFirst(w: World, p: Path)
    ensures forall x: Id :: Done(w, p + [0], x) <==> Done(w, p, x) || MergedAt(w, p) == Some(x)
  {
    forall x: Id ensures Done(w, p + [0], x) <==> Done(w, p, x) || MergedAt(w, p) == Some(x) {
      DoneInside(w, p, x);
    }
  }

  lemma DoneAtNext(w: World, p: Path)
    requires p != []
    ensures forall x :: Done(w, Next(p), x) <==> Done(w, p + [Turns(w, p)], x)
  {
    forall x ensures Done(w, Next(p), x) <==> Done(w, p + [Turns(w, p)], x) {
      DoneNext(w, p, x);
    }
  }

  lemma NothingDone(w: World, p: Path)
    requires p != [] && MergedAt(w, p) == None
    ensures forall x :: Done(w, Next(p), x) <==> Done(w, p, x)
  {
    assert Turns(w, p) == 0;
    DoneAtFirst(w, p);
    DoneAtNext(w, p);
  }

  /** While the children of p are merged, its node has its merged fields. */
  lemma CallersFields(w: World, base: map<Id, BaseNode>, p: Path, b: Id)
    requires Reached(w, base, p + [Turns(w, p)]) && MergedAt(w, p) == Some(b)
    ensures b in base && base[b] == MergedFields(w, b)
  {
    BeforeChild(p, p, Turns(w, p));
    assert NodeIs(w, p + [Turns(w, p)], b, base[b]);
  }

  /** The texts in a state are those that the calls before have given. So a lookup in it finds what HitAt says. */
  lemma LookupsInState(w: World, base: map<Id, BaseNode>, p: Path, side: Side, sig: Sig, x: Id)
    requires Reached(w, base, p)
    ensures Hit(w, side, base, sig, x) <==> HitAt(w, side, p, sig, x)
  {
    if x in w.start {
      TextReached(w, base, p, x);
    }
  }

  lemma TextReached(w: World, base: map<Id, BaseNode>, p: Path, x: Id)
    requires Reached(w, base, p) && x in w.start
    ensures base[x].text == TextAt(w, p, x)
  {
    assert NodeIs(w, p, x, base[x]);
    if Done(w, p, x) {
      var q :| Before(q, p) && MergedAt(w, q) == Some(x);
    }
  }

  /** A second call for a node looks it up by its new signature, and finds it again if and only if that kept its bucket.
      It then merges the new text once more; see MergedAgainReverts. */
  lemma SecondCall(w: World, base: map<Id, BaseNode>, p: Path, b: Id, side: Side)
    requires WellFormed(w) && Reached(w, base, p) && CallAt(w, p) == Some(b) && Done(w, p, b)
    ensures b in base && Matched(w, b) && base[b].text == FinalText(w, b)
    ensures Hit(w, side, base, w.signature(b, base[b].text), b) <==> KeepsBucket(w, side, b)
  {
    TextReached(w, base, p, b);
  }

  // ---------- no node is merged twice ----------

  /** The node of the leading side that the run visits at p. */
  ghost function VisitedAt(w: World, p: Path): Option<Id> {
    if |p| != 1 then ChildAt(w, p)
    else if p[0] < |w.units| && w.units[p[0]] in w.LeadMatching().left then Some(w.LeadMatching().left[w.units[p[0]]])
    else None
  }

  ghost predicate Visited(w: World, c: Id) {
    exists p :: VisitedAt(w, p) == Some(c)
  }

  /** Translation units are matched with nodes that have no parent. */
  ghost predicate Rooted(w: World) {
    forall u :: u in w.units && u in w.LeadMatching().left ==>
      w.LeadMatching().left[u] in w.Lead() && w.Lead()[w.LeadMatching().left[u]].parent.None?
  }

  ghost predicate OnceOnly(w: World) {
    forall p, q :: MergedAt(w, p).Some? && MergedAt(w, p) == MergedAt(w, q) ==> p == q
  }

  /** No two different nodes that the run visits stand for one base node, wherever they are. */
  ghost predicate NoTwins(w: World) {
    forall c, d :: Visited(w, c) && Visited(w, d) ==> !Twins(w, c, d)
  }

  lemma VisitStands(w: World, p: Path)
    requires WellFormed(w) && VisitedAt(w, p).Some?
    ensures VisitedAt(w, p).value in w.Lead() && StandsFor(w, VisitedAt(w, p).value) == CallAt(w, p)
  {
    SidesOf(w, Leading);
    if |p| == 1 {
      OwnKey(w, VisitedAt(w, p).value);
    } else {
      ChildOf(w, p);
    }
  }

  /** A child that is visited is a child of the match of the node that the caller merges. */
  lemma ChildOf(w: World, p: Path)
    requires WellFormed(w) && ChildAt(w, p).Some?
    ensures |p| >= 2 && MergedAt(w, p[..|p| - 1]).Some? && ChildAt(w, p).value in w.Lead()
    ensures w.Lead()[ChildAt(w, p).value].parent == Some(w.LeadMatching().left[MergedAt(w, p[..|p| - 1]).value])
  {
    assert Linked(w.Lead()) by { SidesOf(w, Leading); }
    var b := CallAt(w, p[..|p| - 1]).value;
    assert ChildrenOf(w, b)[p[|p| - 1]] in ChildrenOf(w, b);
    LinkedChild(w.Lead(), w.LeadMatching().left[b], ChildAt(w, p).value);
  }

  lemma LinkedChild(rev: Revision, o: Id, c: Id)
    requires Linked(rev) && o in rev && c in rev[o].children
    ensures c in rev && rev[c].parent == Some(o)
  {
  }

  lemma VisitIff(w: World, p: Path, b: Id)
    requires WellFormed(w)
    ensures MergedAt(w, p) == Some(b) <==>
      VisitedAt(w, p).Some? && StandsFor(w, VisitedAt(w, p).value) == Some(b) && Survives(w, b)
  {
    SidesOf(w, Leading);
    if VisitedAt(w, p).Some? {
      VisitStands(w, p);
    }
    SurvivorMatched(w, b);
  }

  lemma SurvivorMatched(w: World, b: Id)
    requires WellFormed(w)
    ensures Survives(w, b) <==> b in w.start && Matched(w, b)
  {
  }

  /** If two calls merge one node, two different nodes were visited for it, or for a node above. */
  lemma {:induction false} TwinsOf(w: World, p: Path, q: Path) returns (c: Id, d: Id)
    requires WellFormed(w) && Rooted(w) && p != q && MergedAt(w, p).Some? && MergedAt(w, p) == MergedAt(w, q)
    ensures Visited(w, c) && Visited(w, d) && Twins(w, c, d)
    decreases |p|
  {
    var b := MergedAt(w, p).value;
    VisitIff(w, p, b);
    VisitIff(w, q, b);
    c, d := VisitedAt(w, p).value, VisitedAt(w, q).value;
    if c == d {
      SameNode(w, p, q);
      c, d := TwinsOf(w, p[..|p| - 1], q[..|q| - 1]);
    }
  }

  /** One node is visited by two calls only if its parent is. */
  lemma SameNode(w: World, p: Path, q: Path)
    requires WellFormed(w) && Rooted(w) && p != q && VisitedAt(w, p).Some? && VisitedAt(w, p) == VisitedAt(w, q)
    ensures |p| >= 2 && |q| >= 2 && p[..|p| - 1] != q[..|q| - 1]
    ensures MergedAt(w, p[..|p| - 1]).Some? && MergedAt(w, p[..|p| - 1]) == MergedAt(w, q[..|q| - 1])
  {
    if |p| == 1 && |q| == 1 {
      SameUnit(w, p, q);
    } else {
      if |p| != 1 {
        ChildOf(w, p);
      }
      if |q| != 1 {
        ChildOf(w, q);
      }
      assert |p| != 1 && |q| != 1;
      SameParent(w, MergedAt(w, p[..|p| - 1]).value, MergedAt(w, q[..|q| - 1]).value);
      ChildrenDiffer(w, MergedAt(w, p[..|p| - 1]).value);
      if p[..|p| - 1] == q[..|q| - 1] {
        SameTurn(w, p, q, MergedAt(w, p[..|p| - 1]).value);
      }
    }
  }

  lemma SameUnit(w: World, p: Path, q: Path)
    requires WellFormed(w) && |p| == |q| == 1 && VisitedAt(w, p).Some? && VisitedAt(w, p) == VisitedAt(w, q)
    ensures p == q
  {
    SameParent(w, w.units[p[0]], w.units[q[0]]);
    assert p == [p[0]] && q == [q[0]];
  }

  lemma SameParent(w: World, a: Id, b: Id)
    requires WellFormed(w) && a in w.LeadMatching().left && b in w.LeadMatching().left
    ensures w.LeadMatching().left[a] == w.LeadMatching().left[b] ==> a == b
  {
  }

  lemma ChildrenDiffer(w: World, b: Id)
    requires WellFormed(w)
    ensures NoDup(ChildrenOf(w, b))
  {
    assert Linked(w.Lead()) by { SidesOf(w, Leading); }
  }

  lemma SameTurn(w: World, p: Path, q: Path, b: Id)
    requires |p| >= 2 && |q| >= 2 && CallAt(w, p[..|p| - 1]) == Some(b) && NoDup(ChildrenOf(w, b))
    requires ChildAt(w, p).Some? && ChildAt(w, p) == ChildAt(w, q) && p[..|p| - 1] == q[..|q| - 1]
    ensures p == q
  {
    ChildIs(w, p, b);
    ChildIs(w, q, b);
    assert p[|p| - 1] == q[|q| - 1];
    assert p == p[..|p| - 1] + [p[|p| - 1]] && q == q[..|q| - 1] + [q[|q| - 1]];
  }

  lemma ChildIs(w: World, p: Path, b: Id)
    requires |p| >= 2 && CallAt(w, p[..|p| - 1]) == Some(b) && ChildAt(w, p).Some?
    ensures p[|p| - 1] < |ChildrenOf(w, b)| && ChildAt(w, p).value == ChildrenOf(w, b)[p[|p| - 1]]
  {
  }

  /** In every run, no base node is merged twice if and only if no two different nodes that are visited are twins. */
  lemma OnceIff(w: World)
    requires WellFormed(w) && Rooted(w)
    ensures OnceOnly(w) <==> NoTwins(w)
  {
    if c: Id, d: Id :| Visited(w, c) && Visited(w, d) && Twins(w, c, d) {
      var p: Path :| VisitedAt(w, p) == Some(c);
      var q: Path :| VisitedAt(w, q) == Some(d);
      VisitIff(w, p, StandsFor(w, c).value);
      VisitIff(w, q, StandsFor(w, c).value);
    } else if p: Path, q: Path :| MergedAt(w, p).Some? && MergedAt(w, p) == MergedAt(w, q) && p != q {
      var c, d := TwinsOf(w, p, q);
    }
  }

  // ---------- whole runs ----------

  /** No lookup of a node that has not been rewritten may find another. */
  ghost predicate NoStrays(w: World) {
    forall p :: CallAt(w, p).Some? ==> !Strays(w, p, CallAt(w, p).value)
  }

  ghost predicate AllSmooth(w: World) {
    forall p :: Smooth(w, p)
  }

  lemma AllSmoothIff(w: World)
    ensures AllSmooth(w) <==> OnceOnly(w) && NoStrays(w)
  {
    if AllSmooth(w) {
      forall p, q | MergedAt(w, p).Some? && MergedAt(w, p) == MergedAt(w, q) ensures p == q {
        assert Smooth(w, p) && Smooth(w, q);
        OneIsBefore(p, q);
      }
      forall p | CallAt(w, p).Some? ensures !Strays(w, p, CallAt(w, p).value) {
        assert Smooth(w, p);
      }
    }
    if OnceOnly(w) && NoStrays(w) {
      forall p ensures Smooth(w, p) {
        if CallAt(w, p).Some? {
          FirstCall(w, p);
        }
      }
    }
  }

  lemma FirstCall(w: World, p: Path)
    requires OnceOnly(w) && CallAt(w, p).Some?
    ensures !Done(w, p, CallAt(w, p).value)
  {
    var b := CallAt(w, p).value;
    if Done(w, p, b) {
      var q :| Before(q, p) && MergedAt(w, q) == Some(b);
      assert MergedAt(w, p) == Some(b);
      NotBeforeItself(p);
    }
  }

  /** Where no node has or gets the signature of another in its bucket, no lookup goes astray. */
  lemma NoClashNoStrays(w: World)
    requires NoClash(w, Leading) && NoClash(w, Following)
    ensures NoStrays(w)
  {
    forall p | CallAt(w, p).Some? ensures !Strays(w, p, CallAt(w, p).value) {
      var b := CallAt(w, p).value;
      if Strays(w, p, b) {
        var side, x :| x != b && HitAt(w, side, p, StoredSig(w, b), x);
        assert Clash(w, side, x, b);
      }
    }
  }

  /** So without clashes all calls are smooth if and only if the run visits no twins. */
  lemma SmoothIff(w: World)
    requires WellFormed(w) && Rooted(w) && NoClash(w, Leading) && NoClash(w, Following)
    ensures AllSmooth(w) <==> NoTwins(w)
  {
    AllSmoothIff(w);
    OnceIff(w);
    NoClashNoStrays(w);
  }

  /** There are no calls behind the last translation unit. */
  lemma EndOfRun(w: World, p: Path)
    requires CallAt(w, p).Some?
    ensures Before(p, [|w.units|])
    decreases |p|
  {
    if |p| == 1 {
      assert Before(p, [|w.units|]);
    } else {
      EndOfRun(w, p[..|p| - 1]);
      assert p[..|p| - 1][0] == p[0];
    }
  }

  lemma AllSmoothAtEnd(w: World)
    ensures SmoothBefore(w, [|w.units|]) <==> AllSmooth(w)
  {
    if SmoothBefore(w, [|w.units|]) {
      forall p ensures Smooth(w, p) {
        if CallAt(w, p).Some? {
          EndOfRun(w, p);
        }
      }
    }
  }

  /** After a run of smooth calls every node that was called for, and survives, is what its only call makes of it, and
      all others are as they were. */
  lemma EndState(w: World, base: map<Id, BaseNode>)
    requires Reached(w, base, [|w.units|])
    ensures OnceOnly(w) && base.Keys == w.start.Keys
    ensures forall p :: MergedAt(w, p).Some? ==> IsMerged(w, p, base[MergedAt(w, p).value])
    ensures forall x :: x in base && (forall p :: MergedAt(w, p) != Some(x)) ==> base[x] == w.start[x]
  {
    AllSmoothAtEnd(w);
    AllSmoothIff(w);
    forall p | MergedAt(w, p).Some? ensures IsMerged(w, p, base[MergedAt(w, p).value]) {
      EndOfRun(w, p);
      assert p != [];
      assert NodeIs(w, [|w.units|], MergedAt(w, p).value, base[MergedAt(w, p).value]);
    }
    forall x | x in base && forall p :: MergedAt(w, p) != Some(x) ensures base[x] == w.start[x] {
      assert NodeIs(w, [|w.units|], x, base[x]);
    }
  }

  /** In that state every text is settled between base, ours and theirs. The access is ours; the line breaks before the
      first child are theirs; those behind the node are those of the child it was merged for, or ours for a unit. */
  lemma EndTexts(w: World, base: map<Id, BaseNode>, p: Path, b: Id)
    requires WellFormed(w) && Reached(w, base, [|w.units|]) && MergedAt(w, p) == Some(b)
    ensures b in base
    ensures AllSettled(w, base[b].text, OurText(w, b), w.start[b].text, TheirText(w, b), w.start[b].terminal)
    ensures base[b].terminal == w.start[b].terminal && base[b].access == w.ours[w.ourMatching.left[b]].access
    ensures base[b].firstEol ==
      if base[b].terminal then w.start[b].firstEol else w.theirs[w.theirMatching.left[b]].firstEol
    ensures |p| == 1 ==> base[b].eol == w.ours[w.ourMatching.left[b]].eol
    ensures |p| > 1 ==> ChildAt(w, p).Some? && ChildAt(w, p).value in w.Lead()
    ensures |p| > 1 ==> base[b].eol == w.Lead()[ChildAt(w, p).value].eol
    ensures base[b].terminal ==> base[b].children == w.start[b].children
  {
    EndState(w, base);
    assert IsMerged(w, p, base[b]);
    FinalTextSettled(w, b);
    if |p| > 1 {
      ChildOf(w, p);
    }
  }

  /** Whatever base nodes a merged node lists as children were merged by its calls. */
  lemma ListedAreMerged(w: World, p: Path, list: seq<Ref>, x: Id) returns (i: nat)
    requires WellFormed(w) && MergedAt(w, p).Some? && !w.start[MergedAt(w, p).value].terminal
    requires Listed(w, p, list) && Base(x) in list
    ensures i < Turns(w, p) && MergedAt(w, p + [i]) == Some(x)
  {
    var b := MergedAt(w, p).value;
    var o := w.LeadMatching().left[b];
    var l, f :| Finds(w, Leading, p, l) && Finds(w, Following, p, f) && list == MergedChildren(w, o, l, f);
    assert Stays(w, o, Base(x)) by {
      MergedChildrenContent(w, o, l, f);
    }
    i := SurvivorCall(w, p, b, x);
  }

  lemma SurvivorCall(w: World, p: Path, b: Id, x: Id) returns (i: nat)
    requires WellFormed(w) && MergedAt(w, p) == Some(b) && !w.start[b].terminal
    requires Stays(w, w.LeadMatching().left[b], Base(x))
    ensures i < Turns(w, p) && MergedAt(w, p + [i]) == Some(x)
  {
    i := TurnFor(w, b, x);
    CallOfChild(w, p, b, i);
    assert b in w.start && x in w.start && Matched(w, x) by {
      SurvivorMatched(w, x);
    }
  }

  /** The turn of the loop over children in which x is merged. */
  lemma TurnFor(w: World, b: Id, x: Id) returns (i: nat)
    requires b in w.start && Matched(w, b) && !w.start[b].terminal && Stays(w, w.LeadMatching().left[b], Base(x))
    ensures i < |ChildrenOf(w, b)| && StandsFor(w, ChildrenOf(w, b)[i]) == Some(x) && Survives(w, x)
  {
    var children := ChildrenOf(w, b);
    var c :| c in children && StandsFor(w, c) == Some(x);
    i :| 0 <= i < |children| && children[i] == c;
  }

  lemma CallOfChild(w: World, p: Path, b: Id, i: nat)
    requires p != [] && CallAt(w, p) == Some(b) && i < |ChildrenOf(w, b)|
    ensures ChildAt(w, p + [i]) == Some(ChildrenOf(w, b)[i]) && CallAt(w, p + [i]) == StandsFor(w, ChildrenOf(w, b)[i])
    ensures Next(p + [i]) == p + [i + 1]
  {
    assert (p + [i])[..|p + [i]| - 1] == p;
  }

  lemma NoTwinsAmongChildren(w: World, p: Path, b: Id)
    requires WellFormed(w) && OnceOnly(w) && MergedAt(w, p) == Some(b)
    ensures TwinFree(w, ChildrenOf(w, b))
  {
    var children := ChildrenOf(w, b);
    forall i, j | 0 <= i < j < |children| ensures !Twins(w, children[i], children[j]) {
      assert (p + [i])[|p|] != (p + [j])[|p|];
      if Twins(w, children[i], children[j]) {
        TwinCalls(w, p, b, i, j);
      }
    }
  }

  lemma TwinCalls(w: World, p: Path, b: Id, i: nat, j: nat)
    requires WellFormed(w) && MergedAt(w, p) == Some(b) && i < |ChildrenOf(w, b)| && j < |ChildrenOf(w, b)|
    requires Twins(w, ChildrenOf(w, b)[i], ChildrenOf(w, b)[j])
    ensures MergedAt(w, p + [i]).Some? && MergedAt(w, p + [i]) == MergedAt(w, p + [j])
  {
    CallOfChild(w, p, b, i);
    CallOfChild(w, p, b, j);
    SurvivorMatched(w, StandsFor(w, ChildrenOf(w, b)[i]).value);
  }

  /** After a run of smooth calls, every merged composite node lists no child twice, and what it lists is what the two
      lookups of it bring about. */
  lemma MergedContent(w: World, base: map<Id, BaseNode>, p: Path, b: Id) returns (l: Option<Id>, f: Option<Id>)
    requires WellFormed(w) && Reached(w, base, [|w.units|]) && MergedAt(w, p) == Some(b) && !w.start[b].terminal
    ensures b in base && Finds(w, Leading, p, l) && Finds(w, Following, p, f)
    ensures NoDup(base[b].children) && HasContent(w, w.LeadMatching().left[b], l, f, base[b].children)
  {
    EndState(w, base);
    NoTwinsAmongChildren(w, p, b);
    assert IsMerged(w, p, base[b]) && !base[b].terminal;
    l, f :| Finds(w, Leading, p, l) && Finds(w, Following, p, f) &&
      base[b].children == MergedChildren(w, w.LeadMatching().left[b], l, f);
    MergedChildrenContent(w, w.LeadMatching().left[b], l, f);
  }

  // ---------- what the lookup of a parent finds ----------

  /** Another node that has the new signature of the parent when its children have been merged. */
  ghost predicate Rival(w: World, side: Side, p: Path, x: Id)
    requires MergedAt(w, p).Some?
  {
    var b := MergedAt(w, p).value;
    x != b && HitAt(w, side, p + [|ChildrenOf(w, b)|], FinalSig(w, b), x)
  }

  lemma FindsParent(w: World, side: Side, p: Path, b: Id)
    requires MergedAt(w, p) == Some(b)
    ensures HitAt(w, side, p + [|ChildrenOf(w, b)|], FinalSig(w, b), b) <==> KeepsBucket(w, side, b)
  {
    BeforeChild(p, p, |ChildrenOf(w, b)|);
    assert Done(w, p + [|ChildrenOf(w, b)|], b);
  }

  /** The lookup finds the parent for sure if and only if it stays in its bucket and has no rival. */
  lemma LookupIff(w: World, side: Side, p: Path, b: Id)
    requires MergedAt(w, p) == Some(b)
    ensures (forall found :: Finds(w, side, p, found) ==> found == Some(b)) <==>
      KeepsBucket(w, side, b) && forall x :: !Rival(w, side, p, x)
  {
    FindsParent(w, side, p, b);
    if x :| Rival(w, side, p, x) {
      assert Finds(w, side, p, Some(x));
    } else if !KeepsBucket(w, side, b) {
      forall x ensures !HitAt(w, side, p + [|ChildrenOf(w, b)|], FinalSig(w, b), x) {
        assert !Rival(w, side, p, x);
      }
      assert Finds(w, side, p, None);
    } else {
      forall found | Finds(w, side, p, found) ensures found == Some(b) {
        if found.Some? {
          assert !Rival(w, side, p, found.value);
        }
      }
    }
  }
}
