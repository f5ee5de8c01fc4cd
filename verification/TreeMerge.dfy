/** GraphMerger: the recursive merge that rewrites base nodes in place. */
module TreeMerge {
  import opened Seqs
  import opened TreeMergeSpec
  import opened MergeRun

  // ---------- the loops of the merge of children ----------

  /** The second loop of filterAddedNodes and the sort (lines 583-596), for what the lookup of the parent found. */
  method CollectAdded(rev: Revision, m: Matching, found: Option<Id>) returns (nodes: seq<Id>)
    ensures nodes == AddedNodes(rev, m, found)
  {
    nodes := [];
    for i := 0 to |m.added|
      invariant nodes == Filtered(rev, m, found, m.added[..i])
    {
      assert m.added[..i + 1][..i] == m.added[..i];
      if AddedBelow(rev, m, found, m.added[i]) {
        nodes := nodes + [m.added[i]];
      }
    }
    assert m.added[..|m.added|] == m.added;
    nodes := SortById(nodes);
  }

  /** One turn of removeDuplicates: remove_if and erase. */
  function Without(rev: Revision, nodes: seq<Id>, other: Revision, l: Id): seq<Id> {
    if nodes == [] then []
    else
      var r := nodes[|nodes| - 1];
      var rest := Without(rev, nodes[..|nodes| - 1], other, l);
      if SharesSignature(rev, r, other, [l]) then rest else rest + [r]
  }

  lemma {:induction false} WithoutStep(rev: Revision, nodes: seq<Id>, other: Revision, others: seq<Id>, l: Id)
    ensures Without(rev, Fresh(rev, nodes, other, others), other, l) == Fresh(rev, nodes, other, others + [l])
  {
    if nodes != [] {
      var r := nodes[|nodes| - 1];
      WithoutStep(rev, nodes[..|nodes| - 1], other, others, l);
      SharedByEither(rev, r, other, others, l);
      var rest := Fresh(rev, nodes[..|nodes| - 1], other, others);
      assert (rest + [r])[..|rest|] == rest;
    }
  }

  lemma SharedByEither(rev: Revision, r: Id, other: Revision, others: seq<Id>, l: Id)
    ensures SharesSignature(rev, r, other, others + [l]) <==>
            SharesSignature(rev, r, other, others) || SharesSignature(rev, r, other, [l])
  {
    var all := others + [l];
    if SharesSignature(rev, r, other, others) {
      var k :| 0 <= k < |others| && r in rev && others[k] in other && other[others[k]].sig == rev[r].sig;
      assert all[k] == others[k];
    }
    if SharesSignature(rev, r, other, [l]) {
      assert all[|others|] == l;
    }
  }

  lemma {:induction false} FreshOfNone(rev: Revision, nodes: seq<Id>, other: Revision)
    ensures Fresh(rev, nodes, other, []) == nodes
  {
    if nodes != [] {
      FreshOfNone(rev, nodes[..|nodes| - 1], other);
      assert nodes == nodes[..|nodes| - 1] + [nodes[|nodes| - 1]];
    }
  }

  /** removeDuplicates (lines 601-614). */
  method RemoveDuplicates(rev: Revision, nodes: seq<Id>, other: Revision, others: seq<Id>) returns (kept: seq<Id>)
    ensures kept == Fresh(rev, nodes, other, others)
    ensures forall r :: r in kept <==> r in nodes && !HasEqual(rev, r, other, others)
  {
    kept := nodes;
    FreshOfNone(rev, nodes, other);
    for i := 0 to |others|
      invariant kept == Fresh(rev, nodes, other, others[..i])
    {
      WithoutStep(rev, nodes, other, others[..i], others[i]);
      assert others[..i + 1] == others[..i] + [others[i]];
      kept := Without(rev, kept, other, others[i]);
    }
    assert others[..|others|] == others;
    FreshElements(rev, nodes, other, others);
  }

  /** One of the others has the signature of r. */
  ghost predicate HasEqual(rev: Revision, r: Id, other: Revision, others: seq<Id>) {
    exists l :: l in others && l in other && r in rev && other[l].sig == rev[r].sig
  }

  lemma {:induction false} FreshElements(rev: Revision, nodes: seq<Id>, other: Revision, others: seq<Id>)
    ensures forall r :: r in Fresh(rev, nodes, other, others) <==> r in nodes && !HasEqual(rev, r, other, others)
  {
    if nodes != [] {
      var init, last := nodes[..|nodes| - 1], nodes[|nodes| - 1];
      FreshElements(rev, init, other, others);
      if last in rev {
        ShareIff(rev, last, other, others);
      }
      assert nodes == init + [last];
    }
  }

  /** getNeighbors (lines 616-650). */
  method GetNeighbors(rev: Revision, id: Id) returns (n: Option<Neighbors>)
    ensures n == NeighborsOf(rev, id)
  {
    if id !in rev || rev[id].parent.None? || rev[id].parent.value !in rev {
      return None;
    }
    var siblings := rev[rev[id].parent.value].children;
    var pos := FirstSibling(rev, siblings, rev[id].sig);
    if pos == |siblings| {
      return None;
    }
    var prev := SearchBackward(rev, siblings, pos);
    var next := SearchForward(rev, siblings, pos);
    return Some(Neighbors(prev, next));
  }

  /** Lines 628-635. */
  method SearchBackward(rev: Revision, siblings: seq<Id>, pos: nat) returns (prev: Option<Id>)
    requires pos < |siblings|
    ensures prev == PrevSibling(rev, siblings, pos)
  {
    var before := pos;
    while before != 0
      invariant 0 <= before <= pos
      invariant PrevSibling(rev, siblings, before) == PrevSibling(rev, siblings, pos)
    {
      before := before - 1;
      if !IsOrphan(rev, siblings[before]) {
        return Some(siblings[before]);
      }
    }
    return None;
  }

  /** Lines 637-644. */
  method SearchForward(rev: Revision, siblings: seq<Id>, pos: nat) returns (next: Option<Id>)
    requires pos < |siblings|
    ensures next == NextSibling(rev, siblings, pos)
  {
    var after := pos;
    while after != |siblings| - 1
      invariant pos <= after < |siblings|
      invariant NextSibling(rev, siblings, after) == NextSibling(rev, siblings, pos)
      decreases |siblings| - after
    {
      after := after + 1;
      if !IsOrphan(rev, siblings[after]) {
        return Some(siblings[after]);
      }
    }
    return None;
  }

  // ---------- the merger ----------

  /** Listed base nodes have been merged. */
  ghost predicate Current(w: World, base: map<Id, BaseNode>, items: seq<Ref>) {
    forall r :: r in items && r.Base? ==>
      r.id in base && r.id in w.start && Matched(w, r.id) && base[r.id].text == FinalText(w, r.id)
  }

  /** When the children have been merged, the base nodes for which they stand have their new texts. */
  lemma KeptAreCurrent(w: World, base: map<Id, BaseNode>, p: Path, b: Id)
    requires WellFormed(w) && MergedAt(w, p) == Some(b) && !w.start[b].terminal && Reached(w, base, p + [Turns(w, p)])
    ensures Current(w, base, Survivors(w, ChildrenOf(w, b)))
  {
    var e := p + [Turns(w, p)];
    forall r | r in Survivors(w, ChildrenOf(w, b)) && r.Base?
      ensures r.id in base && r.id in w.start && Matched(w, r.id) && base[r.id].text == FinalText(w, r.id)
    {
      SurvivorsContent(w, w.LeadMatching().left[b], r);
      var i := SurvivorCall(w, p, b, r.id);
      BeforeChild(p + [i], p, Turns(w, p));
      assert Done(w, e, r.id);
      TextReached(w, base, e, r.id);
    }
  }

  /** How a call of mergeSemanticNode ends. It stops where a node is called for a second time, or where a lookup may
      find another node than the one called for. */
  datatype Outcome = Merged | GivenUp | Stopped

  class GraphMerger {
    const w: World
    var base: map<Id, BaseNode>
    /** The nodes rewritten so far. The source does not know them; they are kept to notice a second call. */
    var merged: set<Id>

    /** The run has come to p, and its calls so far were smooth. */
    ghost predicate At(p: Path)
      reads this
    {
      Reached(w, base, p) && Remembers(p)
    }

    ghost predicate Remembers(p: Path)
      reads this
    {
      forall x :: x in merged <==> Done(w, p, x)
    }

    /** The call at p has rewritten b; the line breaks behind it are still ours, until the caller sets them. */
    ghost predicate Ended(p: Path, b: Id)
      reads this
    {
      MergedAt(w, p) == Some(b) && b in base && base[b].eol == MergedFields(w, b).eol &&
      Reached(w, base[b := base[b].(eol := EolAt(w, p))], Next(p)) && Remembers(Next(p))
    }

    constructor (w: World)
      ensures this.w == w && base == w.start && At([0])
    {
      this.w, this.base, this.merged := w, w.start, {};
      StartOfRun(w);
    }

    /** left.find: any key that compares equal now, in the bucket of the signature. */
    method Find(side: Side, sig: Sig) returns (found: Option<Id>)
      ensures match found
        case Some(x) => Hit(w, side, base, sig, x)
        case None => forall x :: !Hit(w, side, base, sig, x)
    {
      if x :| x in w.Table(side).left && Hit(w, side, base, sig, x) {
        return Some(x);
      }
      return None;
    }

    /** right.find: the key with the signature of c. */
    method FindKey(c: Id) returns (key: Option<Id>)
      requires WellFormed(w)
      ensures key == KeyOf(w, c)
    {
      if r :| r in w.LeadMatching().right && IsKey(w, c, r) {
        assert KeyOf(w, c) == Some(r) by {
          OneKey(w, c, r);
        }
        return Some(r);
      }
      return None;
    }

    /** No lookup by the signature that b has now can find another node. */
    predicate FindsOnly(side: Side, b: Id)
      requires b in base
      reads this
    {
      forall x :: x in w.Table(side).left && Hit(w, side, base, w.signature(b, base[b].text), x) ==> x == b
    }

    lemma FindsOnlyIff(p: Path, b: Id)
      requires Reached(w, base, p) && b in w.start && !Done(w, p, b)
      ensures b in base && base[b] == w.start[b]
      ensures FindsOnly(Leading, b) && FindsOnly(Following, b) <==> !Strays(w, p, b)
    {
      assert NodeIs(w, p, b, base[b]);
      forall side, x ensures Hit(w, side, base, StoredSig(w, b), x) <==> HitAt(w, side, p, StoredSig(w, b), x) {
        LookupsInState(w, base, p, side, StoredSig(w, b), x);
      }
      if side, x :| x != b && HitAt(w, side, p, StoredSig(w, b), x) {
        assert Hit(w, side, base, StoredSig(w, b), x);
        assert side == Leading || side == Following;
      } else {
        assert w.signature(b, base[b].text) == StoredSig(w, b);
        assert FindsOnly(Leading, b) && FindsOnly(Following, b);
      }
    }

    /** mergeSemanticNode (lines 94-266), called at p. A node that one side deleted is given up; otherwise it is
        rewritten in place, and so are the nodes called for below it. */
    method MergeSemanticNode(b: Id, ghost p: Path) returns (outcome: Outcome, ghost at: Path)
      requires WellFormed(w) && At(p) && CallAt(w, p) == Some(b)
      modifies this
      ensures old(merged) <= merged
      ensures match outcome
        case Merged => Ended(p, b)
        case GivenUp => MergedAt(w, p) == None && At(Next(p))
        case Stopped => At(at) && !Smooth(w, at)
      decreases w.start.Keys - merged, 2
    {
      CalledIsBase(w, p);
      at := p;
      if b in merged {
        return Stopped, p;
      }
      FindsOnlyIff(p, b);
      if !FindsOnly(Leading, b) || !FindsOnly(Following, b) {
        return Stopped, p;
      }
      var alive := OnBothSides(b, p);
      SurvivorMatched(w, b);
      if !alive {
        SkipCall(w, base, p);
        NothingDone(w, p);
        return GivenUp, p;
      }
      if base[b].terminal {
        MergeTerminal(b, p);
        return Merged, p;
      }
      outcome, at := MergeComposite(b, p);
    }

    /** Lines 95-105: both lookups succeed. */
    method OnBothSides(b: Id, ghost p: Path) returns (alive: bool)
      requires At(p) && b in w.start && b in base && !Done(w, p, b) && FindsOnly(Leading, b) && FindsOnly(Following, b)
      ensures alive <==> Survives(w, b)
    {
      assert NodeIs(w, p, b, base[b]);
      var lead := Find(Leading, w.signature(b, base[b].text));
      var follow := Find(Following, w.signature(b, base[b].text));
      assert b in w.LeadMatching().left ==> Hit(w, Leading, base, StoredSig(w, b), b);
      assert b in w.FollowMatching().left ==> Hit(w, Following, base, StoredSig(w, b), b);
      return lead.Some? && follow.Some?;
    }

    /** Lines 106-214 for a terminal node, or lines 216-251 for a composite one: everything but the children. */
    method MergeFields(b: Id, ghost p: Path)
      requires At(p) && MergedAt(w, p) == Some(b) && Smooth(w, p)
      modifies this
      ensures At(p + [0]) && base == old(base)[b := MergedFields(w, b)] && merged == old(merged) + {b}
    {
      assert NodeIs(w, p, b, base[b]);
      var our, their, node := w.ours[w.ourMatching.left[b]], w.theirs[w.theirMatching.left[b]], base[b];
      var text := MergeTexts(w, our.text, node.text, their.text, node.terminal);
      node := node.(text := text, eol := our.eol, access := our.access);
      if !node.terminal {
        node := node.(firstEol := their.firstEol);
      }
      EnterCall(w, base, p, b);
      DoneAtFirst(w, p);
      base, merged := base[b := node], merged + {b};
    }

    method MergeTerminal(b: Id, ghost p: Path)
      requires At(p) && MergedAt(w, p) == Some(b) && Smooth(w, p) && w.start[b].terminal
      modifies this
      ensures old(merged) <= merged && Ended(p, b)
    {
      MergeFields(b, p);
      assert Turns(w, p) == 0;
      LeaveCall(w, base, p, b, base[b].(eol := EolAt(w, p)));
      DoneAtNext(w, p);
    }

    /** Lines 215-259: a composite node. */
    method MergeComposite(b: Id, ghost p: Path) returns (outcome: Outcome, ghost at: Path)
      requires WellFormed(w) && At(p) && MergedAt(w, p) == Some(b) && Smooth(w, p) && !w.start[b].terminal
      modifies this
      ensures old(merged) <= merged
      ensures outcome == Merged || outcome == Stopped
      ensures outcome == Merged ==> Ended(p, b)
      ensures outcome == Stopped ==> At(at) && !Smooth(w, at)
      decreases w.start.Keys - merged, 1
    {
      NotYetMerged(p, b);
      MergeFields(b, p);
      var children, complete;
      complete, children, at := DirectMergeChildren(b, p);
      if !complete {
        return Stopped, at;
      }
      TakeChildren(b, p, children);
      outcome := Merged;
    }

    method TakeChildren(b: Id, ghost p: Path, children: seq<Ref>)
      requires At(p + [Turns(w, p)]) && MergedAt(w, p) == Some(b) && !w.start[b].terminal && Listed(w, p, children)
      modifies this`base
      ensures Ended(p, b)
    {
      ChildrenDone(w, base, p, b, children);
      DoneAtNext(w, p);
      base := base[b := base[b].(children := children)];
    }

    lemma NotYetMerged(p: Path, b: Id)
      requires At(p) && MergedAt(w, p) == Some(b) && Smooth(w, p)
      ensures b in w.start && b !in merged
    {
    }

    /** directMergeChildrenInOurOrder (lines 488-570), or InTheirOrder (lines 405-480): the leading side's children
        in their order, each replaced by the base node it stands for; then the nodes only the other side added. */
    method DirectMergeChildren(b: Id, ghost p: Path) returns (complete: bool, children: seq<Ref>, ghost at: Path)
      requires WellFormed(w) && At(p + [0]) && MergedAt(w, p) == Some(b) && !w.start[b].terminal
      modifies this
      ensures old(merged) <= merged
      ensures complete ==> At(p + [Turns(w, p)]) && Listed(w, p, children)
      ensures !complete ==> At(at) && !Smooth(w, at)
      decreases w.start.Keys - merged, 5
    {
      var kept;
      complete, kept, at := MergeLeadChildren(b, p);
      if complete {
        children := MergeFollowers(b, p, kept);
      } else {
        children := [];
      }
    }

    /** The first loop (lines 500-521, or 418-437). A child that is gone on one side leaves nothing. */
    method MergeLeadChildren(b: Id, ghost p: Path) returns (complete: bool, kept: seq<Ref>, ghost at: Path)
      requires WellFormed(w) && At(p + [0]) && MergedAt(w, p) == Some(b)
      modifies this
      ensures old(merged) <= merged
      ensures complete ==> At(p + [Turns(w, p)]) && kept == Survivors(w, ChildrenOf(w, b))
      ensures !complete ==> At(at) && !Smooth(w, at)
      decreases w.start.Keys - merged, 4
    {
      var children := ChildrenOf(w, b);
      kept, at := [], p;
      for i := 0 to |children|
        invariant old(merged) <= merged
        invariant At(p + [i]) && kept == Survivors(w, children[..i])
      {
        CallOfChild(w, p, b, i);
        var item;
        complete, item, at := MergeChild(children[i], p + [i]);
        if !complete {
          return false, [], at;
        }
        SurvivorsStep(w, children, i);
        kept := kept + item;
      }
      assert children[..|children|] == children;
      complete := true;
    }

    /** One turn of the first loop (lines 500-515). */
    method MergeChild(c: Id, ghost p: Path) returns (complete: bool, item: seq<Ref>, ghost at: Path)
      requires WellFormed(w) && At(p) && ChildAt(w, p) == Some(c)
      modifies this
      ensures old(merged) <= merged
      ensures complete ==> At(Next(p)) && item == SurvivorOf(w, c)
      ensures !complete ==> At(at) && !Smooth(w, at)
      decreases w.start.Keys - merged, 3
    {
      ChildOf(w, p);
      var key := FindKey(c);
      if key.None? {
        SkipCall(w, base, p);
        NothingDone(w, p);
        return true, [Lead(c)], p;
      }
      var baseChild := w.LeadMatching().right[key.value];
      SurvivorMatched(w, baseChild);
      var outcome;
      outcome, at := MergeSemanticNode(baseChild, p);
      match outcome
      case Stopped => return false, [], at;
      case GivenUp => return true, [], at;
      case Merged =>
        TakeLineBreaks(baseChild, c, p);
        return true, [Base(baseChild)], at;
    }

    method TakeLineBreaks(b: Id, c: Id, ghost p: Path)
      requires Ended(p, b) && ChildAt(w, p) == Some(c) && c in w.Lead()
      modifies this`base
      ensures At(Next(p))
    {
      base := base[b := base[b].(eol := w.Lead()[c].eol)];
    }

    /** The second phase (lines 523-567, or 439-477). */
    method MergeFollowers(b: Id, ghost p: Path, kept: seq<Ref>) returns (children: seq<Ref>)
      requires WellFormed(w) && At(p + [Turns(w, p)]) && MergedAt(w, p) == Some(b) && !w.start[b].terminal
      requires kept == Survivors(w, ChildrenOf(w, b))
      ensures Listed(w, p, children)
    {
      var followers, leaders;
      ghost var l, f;
      followers, f := FilterAddedNodes(Following, b, p);
      leaders, l := FilterAddedNodes(Leading, b, p);
      var added := RemoveDuplicates(w.Follow(), followers, w.Lead(), leaders);
      KeptAreCurrent(w, base, p, b);
      children := InsertAdded(kept, added);
      assert children == MergedChildren(w, w.LeadMatching().left[b], l, f);
    }

    /** filterAddedNodes (lines 572-599): the parent is looked up by the signature it has now. */
    method FilterAddedNodes(side: Side, b: Id, ghost p: Path) returns (nodes: seq<Id>, ghost found: Option<Id>)
      requires At(p + [Turns(w, p)]) && MergedAt(w, p) == Some(b)
      ensures Finds(w, side, p, found) && nodes == AddedNodes(w.Rev(side), w.Table(side), found)
      ensures forall r :: r in nodes <==> r in w.Table(side).added && ParentEquals(w.Rev(side), w.Table(side), found, r)
    {
      CallersFields(w, base, p, b);
      var parent := Find(side, w.signature(b, base[b].text));
      forall x ensures Hit(w, side, base, FinalSig(w, b), x) <==> HitAt(w, side, p + [Turns(w, p)], FinalSig(w, b), x) {
        LookupsInState(w, base, p + [Turns(w, p)], side, FinalSig(w, b), x);
      }
      found := parent;
      nodes := CollectAdded(w.Rev(side), w.Table(side), parent);
      AddedElements(w.Rev(side), w.Table(side), found);
    }

    /** std::find_if over the merged list, by the signatures the nodes have now. */
    method FirstEqual(items: seq<Ref>, sig: Sig) returns (p: nat)
      requires Current(w, base, items)
      ensures p == FirstWithSig(w, items, sig)
    {
      p := 0;
      while p < |items| && SigNow(items[p]) != sig
        invariant p <= |items| && forall k :: 0 <= k < p ==> SigOf(w, items[k]) != sig
      {
        assert items[p] in items;
        p := p + 1;
      }
      if p < |items| {
        assert items[p] in items;
      }
    }

    function SigNow(r: Ref): Sig
      reads this
    {
      match r
      case Base(id) => if id in base then w.signature(id, base[id].text) else 0
      case Lead(id) => if id in w.Lead() then w.Lead()[id].sig else 0
      case Follow(id) => if id in w.Follow() then w.Follow()[id].sig else 0
    }

    /** The insertion loop (lines 529-567, and 445-477 with the sides exchanged). */
    method InsertAdded(items: seq<Ref>, ids: seq<Id>) returns (merged: seq<Ref>)
      requires Current(w, base, items)
      ensures merged == InsertFollowers(w, items, ids)
    {
      merged := items;
      for i := 0 to |ids|
        invariant merged == InsertFollowers(w, items, ids[..i])
        invariant Current(w, base, merged)
      {
        assert ids[..i + 1][..i] == ids[..i];
        merged := InsertOne(merged, ids[i]);
      }
      assert ids[..|ids|] == ids;
    }

    /** One turn of the insertion loop. */
    method InsertOne(items: seq<Ref>, id: Id) returns (merged: seq<Ref>)
      requires Current(w, base, items)
      ensures merged == InsertFollower(w, items, id) && Current(w, base, merged)
    {
      var at := FindPlace(items, id);
      merged := items[..at] + [Follow(id)] + items[at..];
    }

    /** Behind the previous sibling, else before the next one, else at the end. */
    method FindPlace(items: seq<Ref>, id: Id) returns (at: nat)
      requires Current(w, base, items)
      ensures at == Place(w, items, id)
    {
      var neighbors := GetNeighbors(w.Follow(), id);
      if neighbors.None? {
        return |items|;
      }
      if neighbors.value.prev.Some? {
        at := FirstEqual(items, SigIn(w.Follow(), neighbors.value.prev.value));
        if at != |items| {
          return at + 1;
        }
      }
      if neighbors.value.next.Some? {
        at := FirstEqual(items, SigIn(w.Follow(), neighbors.value.next.value));
        if at != |items| {
          return at;
        }
      }
      return |items|;
    }

    /** threeWayMerge (lines 72-92), without the printing: merges every translation unit. The run is complete if and
        only if all its calls are smooth; otherwise it stops at the first that is not. */
    method ThreeWayMerge() returns (complete: bool, files: seq<Id>, ghost at: Path)
      requires WellFormed(w) && At([0])
      modifies this
      ensures complete <==> AllSmooth(w)
      ensures complete ==> At([|w.units|]) && files == Surviving(w, w.units)
      ensures !complete ==> At(at) && !Smooth(w, at)
    {
      files, at := [], [];
      for k := 0 to |w.units|
        invariant At([k]) && files == Surviving(w, w.units[..k])
      {
        var file;
        complete, file, at := MergeUnit(k);
        if !complete {
          return false, files, at;
        }
        assert w.units[..k + 1][..k] == w.units[..k];
        files := files + file;
      }
      assert w.units[..|w.units|] == w.units;
      AllSmoothAtEnd(w);
      complete := true;
    }

    method MergeUnit(k: nat) returns (complete: bool, file: seq<Id>, ghost at: Path)
      requires WellFormed(w) && k < |w.units| && At([k])
      modifies this
      ensures complete ==> At([k + 1]) && file == if Survives(w, w.units[k]) then [w.units[k]] else []
      ensures !complete ==> At(at) && !Smooth(w, at)
    {
      var b := w.units[k];
      SurvivorMatched(w, b);
      assert Next([k]) == [k + 1];
      var outcome;
      outcome, at := MergeSemanticNode(b, [k]);
      match outcome
      case Stopped => return false, [], at;
      case GivenUp => return true, [], at;
      case Merged =>
        assert base[b := base[b].(eol := EolAt(w, [k]))] == base;
        return true, [b], at;
    }
  }

  lemma ChildrenDone(w: World, base: map<Id, BaseNode>, p: Path, b: Id, children: seq<Ref>)
    requires MergedAt(w, p) == Some(b) && !w.start[b].terminal
    requires Reached(w, base, p + [Turns(w, p)]) && Listed(w, p, children)
    ensures b in base && base[b].eol == MergedFields(w, b).eol
    ensures var after := base[b := base[b].(children := children)];
      Reached(w, after[b := after[b].(eol := EolAt(w, p))], Next(p))
  {
    CallersFields(w, base, p, b);
    var node := base[b].(children := children, eol := EolAt(w, p));
    LeaveCall(w, base, p, b, node);
    var after := base[b := base[b].(children := children)];
    assert after[b := after[b].(eol := EolAt(w, p))] == base[b := node];
  }

  lemma SurvivorsStep(w: World, children: seq<Id>, i: nat)
    requires i < |children|
    ensures Survivors(w, children[..i + 1]) == Survivors(w, children[..i]) + SurvivorOf(w, children[i])
  {
    assert children[..i + 1][..i] == children[..i];
  }

  /** The parent of r has the signature of the match of the node that was found. */
  ghost predicate ParentEquals(rev: Revision, m: Matching, found: Option<Id>, r: Id) {
    found.Some? && found.value in m.left && m.left[found.value] in rev && r in rev && rev[r].parent.Some? &&
    rev[r].parent.value in rev && rev[rev[r].parent.value].sig == rev[m.left[found.value]].sig
  }

  lemma AddedElements(rev: Revision, m: Matching, found: Option<Id>)
    ensures forall r :: r in AddedNodes(rev, m, found) <==> r in m.added && ParentEquals(rev, m, found, r)
  {
    FilteredElements(rev, m, found, m.added);
    SortElements(Filtered(rev, m, found, m.added));
  }

  lemma {:induction false} FilteredElements(rev: Revision, m: Matching, found: Option<Id>, added: seq<Id>)
    ensures forall r :: r in Filtered(rev, m, found, added) <==> r in added && ParentEquals(rev, m, found, r)
  {
    if added != [] {
      FilteredElements(rev, m, found, added[..|added| - 1]);
      assert added == added[..|added| - 1] + [added[|added| - 1]];
    }
  }

  lemma {:induction false} SortElements(s: seq<Id>)
    ensures forall x :: x in SortById(s) <==> x in s
  {
    if s != [] {
      SortElements(s[..|s| - 1]);
      InsertElements(SortById(s[..|s| - 1]), s[|s| - 1]);
      assert s == s[..|s| - 1] + [s[|s| - 1]];
    }
  }

  lemma {:induction false} InsertElements(s: seq<Id>, x: Id)
    ensures forall y :: y in InsertSorted(s, x) <==> y in s || y == x
  {
    if s != [] {
      InsertElements(s[..|s| - 1], x);
      assert s == s[..|s| - 1] + [s[|s| - 1]];
    }
  }

  /** The units that both sides kept, in their order. */
  lemma {:induction false} SurvivingUnits(w: World, units: seq<Id>, kept: set<Id>)
    requires forall u :: u in units ==> (u in kept <==> Survives(w, u))
    ensures Surviving(w, units) == Restrict(units, kept)
  {
    if units != [] {
      assert units == units[..|units| - 1] + [units[|units| - 1]];
      SurvivingUnits(w, units[..|units| - 1], kept);
    }
  }

  function Surviving(w: World, units: seq<Id>): seq<Id> {
    if units == [] then []
    else
      var rest, b := Surviving(w, units[..|units| - 1]), units[|units| - 1];
      rest + if Survives(w, b) then [b] else []
  }
}
