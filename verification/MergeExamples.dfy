/** Two ordinary inputs on which GraphMerger (src/core/semantic/GraphMerger.cpp) does not do what one expects. */
module MergeExamples {
  import opened Seqs
  import opened TreeMergeSpec
  import opened MergeRun

  function Node(sig: Sig, parent: Option<Id>, children: seq<Id>, terminal: bool, text: Text): RevNode {
    RevNode(sig, parent, children, false, terminal, text, 0, 0, 0)
  }

  function Named(name: string): Text {
    Text("", "", name, "", NoExtra)
  }

  /** Every base node is matched with the node of the same number. */
  function Same(ids: set<Id>, added: seq<Id>): Matching {
    Matching(map x | x in ids :: x, map x | x in ids :: x, added)
  }

  lemma SameIsOneToOne(ids: set<Id>, added: seq<Id>, rev: Revision)
    requires forall x :: x in ids ==> x in rev
    requires forall x, y :: x in ids && y in ids && rev[x].sig == rev[y].sig ==> x == y
    requires NoDup(added) && forall r :: r in added ==> r in rev && r !in ids
    ensures OneToOne(Same(ids, added), ids, rev)
  {
  }

  // ---------- a text copied into a namespace ----------

  function Theirs(): Revision {
    map[0 := Node(10, None, [1, 2], false, Named("")), 1 := Node(11, Some(0), [], false, Named("A")),
        2 := Node(12, Some(0), [], true, Named(""))]
  }

  function Ours(): Revision {
    map[0 := Node(10, None, [1, 2], false, Named("")), 1 := Node(11, Some(0), [3], false, Named("A")),
        2 := Node(12, Some(0), [], true, Named("")), 3 := Node(12, Some(1), [], true, Named(""))]
  }

  function Start(): map<Id, BaseNode> {
    map[0 := BaseNode(false, Named(""), 0, 0, 0, []), 1 := BaseNode(false, Named("A"), 0, 0, 0, []),
        2 := BaseNode(true, Named(""), 0, 0, 0, [])]
  }

  /** The base has a namespace 1 and a text 2. Ours copies the text into the namespace as node 3, theirs changes
      nothing. Equal texts have equal signatures, so that 3 is neither matched nor added. */
  function Copied(): World {
    World(Ours(), Theirs(), Same({0, 1, 2}, []), Same({0, 1, 2}, []), Start(), [0],
          (id, text) => 10 + id, sig => sig, sig => sig, OurOrder, (our, base, their) => our)
  }

  lemma OursLinked()
    ensures Linked(Ours())
  {
  }

  lemma TheirsLinked()
    ensures Linked(Theirs())
  {
  }

  lemma CopiedIsMatched()
    ensures Start().Keys == {0, 1, 2}
    ensures OneToOne(Same({0, 1, 2}, []), {0, 1, 2}, Ours()) && OneToOne(Same({0, 1, 2}, []), {0, 1, 2}, Theirs())
  {
    SameIsOneToOne({0, 1, 2}, [], Ours());
    SameIsOneToOne({0, 1, 2}, [], Theirs());
  }

  lemma CopiedIsRooted()
    ensures Rooted(Copied()) && forall u :: u in Copied().units ==> u in Start()
  {
  }

  lemma CopiedIsWellFormed()
    ensures WellFormed(Copied()) && Rooted(Copied())
  {
    OursLinked();
    TheirsLinked();
    CopiedIsMatched();
    CopiedIsRooted();
  }

  lemma CopiedNoClash(side: Side)
    ensures NoClash(Copied(), side)
  {
  }

  lemma CopiedStandFor()
    ensures StandsFor(Copied(), 1) == Some(1) && StandsFor(Copied(), 2) == Some(2) && StandsFor(Copied(), 3) == Some(2)
  {
    CopiedIsWellFormed();
    OneKey(Copied(), 1, 1);
    OneKey(Copied(), 2, 2);
    OneKey(Copied(), 3, 2);
  }

  lemma CopiedChildren()
    ensures ChildrenOf(Copied(), 0) == [1, 2] && ChildrenOf(Copied(), 1) == [3]
    ensures 2 in Copied().start && Matched(Copied(), 2)
  {
  }

  /** The run calls for the text in the namespace, and again behind it. */
  lemma CopiedCalls()
    ensures MergedAt(Copied(), [0, 0, 0]) == Some(2) && MergedAt(Copied(), [0, 1]) == Some(2)
  {
    var w := Copied();
    CopiedChildren();
    CopiedStandFor();
    CallOfChild(w, [0], 0, 0);
    CallOfChild(w, [0], 0, 1);
    assert [0] + [0] == [0, 0] && [0] + [1] == [0, 1];
    CallOfChild(w, [0, 0], 1, 0);
    assert [0, 0] + [0] == [0, 0, 0];
  }

  /** No lookup goes astray and no two siblings are twins. But a base node is merged twice and listed under two parents,
      and the copy is not listed at all. */
  lemma CopiedTextIsMergedTwice()
    ensures WellFormed(Copied()) && Rooted(Copied()) && NoClash(Copied(), Leading) && NoClash(Copied(), Following)
    ensures TwinFree(Copied(), [1, 2]) && TwinFree(Copied(), [3])
    ensures !OnceOnly(Copied()) && !AllSmooth(Copied())
    ensures Base(2) in Survivors(Copied(), [1, 2]) && Survivors(Copied(), [3]) == [Base(2)]
  {
    CopiedIsWellFormed();
    CopiedNoClash(Leading);
    CopiedNoClash(Following);
    CopiedListed();
    CopiedCalls();
    CalledTwice(Copied(), [0, 0, 0], [0, 1]);
  }

  lemma CalledTwice(w: World, p: Path, q: Path)
    requires p != q && MergedAt(w, p).Some? && MergedAt(w, p) == MergedAt(w, q)
    ensures !OnceOnly(w) && !AllSmooth(w)
  {
    AllSmoothIff(w);
  }

  lemma CopiedListed()
    ensures TwinFree(Copied(), [1, 2]) && TwinFree(Copied(), [3])
    ensures Base(2) in Survivors(Copied(), [1, 2]) && Survivors(Copied(), [3]) == [Base(2)]
  {
    CopiedChildren();
    CopiedStandFor();
    assert [1, 2][..1] == [1] && [3][..0] == [];
  }

  // ---------- a namespace renamed ----------

  function Renaming(): Revision {
    map[0 := Node(0, None, [1], false, Named("")), 1 := Node(2, Some(0), [], false, Named("B"))]
  }

  function Adding(): Revision {
    map[0 := Node(0, None, [1], false, Named("")), 1 := Node(1, Some(0), [2], false, Named("A")),
        2 := Node(3, Some(1), [], true, Named("f"))]
  }

  /** Ours renames the namespace A to B, theirs adds a function to it; the signature of a namespace is its name. */
  function Renamed(): World {
    World(Renaming(), Adding(), Same({0, 1}, []), Same({0, 1}, [2]),
          map[0 := BaseNode(false, Named(""), 0, 0, 0, []), 1 := BaseNode(false, Named("A"), 0, 0, 0, [])], [0],
          (id: Id, text: Text) => if id == 0 then 0 else if text.name == "A" then 1 else 2,
          sig => sig, sig => sig, OurOrder, (our, base, their) => our)
  }

  lemma RenamingLinked()
    ensures Linked(Renaming())
  {
  }

  lemma AddingLinked()
    ensures Linked(Adding())
  {
  }

  lemma RenamedIsMatched()
    ensures Renamed().start.Keys == {0, 1}
    ensures OneToOne(Same({0, 1}, []), {0, 1}, Renaming()) && OneToOne(Same({0, 1}, [2]), {0, 1}, Adding())
  {
    SameIsOneToOne({0, 1}, [], Renaming());
    SameIsOneToOne({0, 1}, [2], Adding());
  }

  lemma RenamedIsRooted()
    ensures Rooted(Renamed()) && forall u :: u in Renamed().units ==> u in Renamed().start
  {
  }

  lemma RenamedIsWellFormed()
    ensures WellFormed(Renamed()) && Rooted(Renamed())
  {
    RenamingLinked();
    AddingLinked();
    RenamedIsMatched();
    RenamedIsRooted();
  }

  lemma RenamedSignatures()
    ensures 0 in Renamed().start && Matched(Renamed(), 0) && 1 in Renamed().start && Matched(Renamed(), 1)
    ensures StoredSig(Renamed(), 0) == 0 && FinalSig(Renamed(), 0) == 0
    ensures StoredSig(Renamed(), 1) == 1 && FinalSig(Renamed(), 1) == 2
  {
    assert FinalText(Renamed(), 1).name == "B";
  }

  lemma RenamedNoClash(side: Side)
    ensures NoClash(Renamed(), side)
  {
    RenamedSignatures();
  }

  lemma RenamedNoTwins()
    ensures NoTwins(Renamed())
  {
    forall c, d ensures !Twins(Renamed(), c, d) {
      if StandsFor(Renamed(), c).Some? && StandsFor(Renamed(), d).Some? {
        var r, s := KeyOf(Renamed(), c).value, KeyOf(Renamed(), d).value;
        assert IsKey(Renamed(), c, r) && IsKey(Renamed(), d, s);
      }
    }
  }

  lemma RenamedStandsFor()
    ensures StandsFor(Renamed(), 1) == Some(1)
  {
    RenamedIsWellFormed();
    OneKey(Renamed(), 1, 1);
  }

  lemma RenamedChildren()
    ensures ChildrenOf(Renamed(), 0) == [1] && ChildrenOf(Renamed(), 1) == []
  {
  }

  lemma RenamedCalls()
    ensures MergedAt(Renamed(), [0, 0]) == Some(1) && ChildrenOf(Renamed(), 1) == []
  {
    RenamedSignatures();
    RenamedStandsFor();
    RenamedChildren();
    CallOfChild(Renamed(), [0], 0, 0);
    assert [0] + [0] == [0, 0];
  }

  lemma FunctionIsNew()
    ensures NewBelow(Renamed(), Some(1), Some(1), 2)
  {
    var w := Renamed();
    assert w.FollowMatching().added[0] == 2;
    assert AddedUnder(w.Follow(), w.FollowMatching(), 1, 2);
  }

  lemma NotFoundAgain(f: Option<Id>)
    requires MergedAt(Renamed(), [0, 0]).Some? && Finds(Renamed(), Following, [0, 0], f)
    ensures f != Some(1)
  {
    RenamedCalls();
    RenamedSignatures();
  }

  /** The run is smooth from beginning to end. Their function is new, and it is lost. */
  lemma RenamedNamespaceLosesFunction(base: map<Id, BaseNode>)
    requires Reached(Renamed(), base, [1])
    ensures AllSmooth(Renamed()) && NewBelow(Renamed(), Some(1), Some(1), 2) && 1 in base
    ensures Follow(2) !in base[1].children
  {
    var w := Renamed();
    RenamedIsWellFormed();
    RenamedIsSmooth();
    RenamedCalls();
    EndState(w, base);
    FunctionIsNew();
    var l, f :| Finds(w, Leading, [0, 0], l) && Finds(w, Following, [0, 0], f) &&
      base[1].children == MergedChildren(w, w.LeadMatching().left[1], l, f);
    NotFoundAgain(f);
    RenamedSignatures();
    ArrivesIff(w, 1, l, f, 2);
  }

  lemma RenamedIsSmooth()
    ensures AllSmooth(Renamed())
  {
    RenamedIsWellFormed();
    RenamedNoClash(Leading);
    RenamedNoClash(Following);
    RenamedNoTwins();
    SmoothIff(Renamed());
  }
}
