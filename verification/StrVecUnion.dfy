/** mergeStrVecByUnion of src/core/semantic/GraphMerger.cpp. */
module StrVecUnion {
  import opened Seqs

  // ---------- what the loops compute ----------

  /** The positions recorded before anything is inserted (lines 665-667). They are never updated. */
  function Fences(v1: seq<string>): map<string, nat> {
    if v1 == [] then map[] else Fences(v1[..|v1| - 1])[v1[|v1| - 1] := |v1| - 1]
  }

  /** The list so far, where the next strings go, and the strings waiting to go there. */
  datatype Woven = Woven(ret: seq<string>, pos: nat, tmp: seq<string>)

  function Insert(s: seq<string>, pos: nat, tmp: seq<string>): seq<string> {
    if pos <= |s| then s[..pos] + tmp + s[pos..] else s + tmp
  }

  function Weaving(fences: map<string, nat>, vec: seq<string>, start: seq<string>, startPos: nat): Woven {
    if vec == [] then Woven(start, startPos, [])
    else
      var x, w := vec[|vec| - 1], Weaving(fences, vec[..|vec| - 1], start, startPos);
      if x !in fences then w.(tmp := w.tmp + [x])
      else Woven(if w.tmp == [] then w.ret else Insert(w.ret, w.pos, w.tmp), fences[x] + 1, [])
  }

  /** After the loop over a vector, what is still waiting goes to the end. */
  function Ended(w: Woven): Woven {
    Woven(w.ret + w.tmp, w.pos, [])
  }

  function Union(v1: seq<string>, v2: seq<string>, v3: seq<string>): seq<string> {
    var second := Ended(Weaving(Fences(v1), v2, v1, 0));
    Dedup(Ended(Weaving(Fences(v1), v3, second.ret, second.pos)).ret)
  }

  // ---------- what that amounts to ----------

  ghost predicate LastIn(v: seq<string>, x: string, i: nat) {
    i < |v| && v[i] == x && forall j :: i < j < |v| ==> v[j] != x
  }

  /** What is recorded for a string is where it stands last. */
  lemma {:induction false} FencesInRange(v1: seq<string>)
    ensures Fences(v1).Keys == Elems(v1)
    ensures forall x :: x in Fences(v1) ==> Fences(v1)[x] < |v1| && v1[Fences(v1)[x]] == x
  {
    if v1 != [] {
      FencesInRange(v1[..|v1| - 1]);
      assert v1 == v1[..|v1| - 1] + [v1[|v1| - 1]];
    }
  }

  /** ret is v1 with other strings inserted anywhere, and has exactly the given elements. */
  ghost predicate Holds(ret: seq<string>, v1: seq<string>, elems: set<string>) {
    Restrict(ret, Elems(v1)) == v1 && Elems(ret) == elems && |ret| >= |v1|
  }

  lemma InsertHolds(ret: seq<string>, v1: seq<string>, elems: set<string>, pos: nat, tmp: seq<string>)
    requires Holds(ret, v1, elems) && pos <= |ret| && forall x :: x in tmp ==> x !in v1
    ensures Holds(ret[..pos] + tmp + ret[pos..], v1, elems + Elems(tmp))
  {
    var keep := Elems(v1);
    RestrictConcat(ret[..pos] + tmp, ret[pos..], keep);
    RestrictConcat(ret[..pos], tmp, keep);
    RestrictNone(tmp, keep);
    RestrictConcat(ret[..pos], ret[pos..], keep);
    assert ret == ret[..pos] + ret[pos..];
  }

  lemma InAlready(ret: seq<string>, v1: seq<string>, elems: set<string>, x: string)
    requires Holds(ret, v1, elems) && x in v1
    ensures x in elems
  {
    RestrictElems(ret, Elems(v1));
    assert x in Restrict(ret, Elems(v1));
  }

  /** The next insertion is in range, and nothing that waits is in v1. */
  ghost predicate Sound(w: Woven, v1: seq<string>, elems: set<string>) {
    w.pos <= |v1| && (forall x :: x in w.tmp ==> x !in v1) &&
    exists held :: Holds(w.ret, v1, held) && held + Elems(w.tmp) == elems
  }

  /** Although the recorded positions are never updated, every insertion is in range. */
  lemma {:induction false} WeavingHolds(v1: seq<string>, fences: map<string, nat>, vec: seq<string>,
                                        start: seq<string>, startPos: nat)
    requires fences.Keys == Elems(v1) && (forall x :: x in fences ==> fences[x] < |v1|)
    requires Holds(start, v1, Elems(start)) && startPos <= |v1|
    ensures Sound(Weaving(fences, vec, start, startPos), v1, Elems(start) + Elems(vec))
  {
    if vec == [] {
      assert Elems(start) + Elems<string>([]) == Elems(start);
      assert Holds(start, v1, Elems(start));
    } else {
      var init, x := vec[..|vec| - 1], vec[|vec| - 1];
      WeavingHolds(v1, fences, init, start, startPos);
      WeavingStep(v1, fences, Weaving(fences, init, start, startPos), x, Elems(start) + Elems(init));
      assert vec == init + [x];
      assert Elems(start) + Elems(vec) == Elems(start) + Elems(init) + {x};
    }
  }

  lemma WeavingStep(v1: seq<string>, fences: map<string, nat>, w: Woven, x: string, elems: set<string>)
    requires fences.Keys == Elems(v1) && (forall y :: y in fences ==> fences[y] < |v1|) && Sound(w, v1, elems)
    ensures var next := if x !in fences then w.(tmp := w.tmp + [x])
      else Woven(if w.tmp == [] then w.ret else Insert(w.ret, w.pos, w.tmp), fences[x] + 1, []);
      Sound(next, v1, elems + {x})
  {
    var held :| Holds(w.ret, v1, held) && held + Elems(w.tmp) == elems;
    if x !in fences {
      assert Elems(w.tmp + [x]) == Elems(w.tmp) + {x};
      assert held + Elems(w.tmp + [x]) == elems + {x};
    } else {
      var ret := if w.tmp == [] then w.ret else Insert(w.ret, w.pos, w.tmp);
      assert Holds(ret, v1, elems) by {
        InsertHolds(w.ret, v1, held, w.pos, w.tmp);
        assert w.tmp == [] ==> Elems(w.tmp) == {} && held == elems;
      }
      InAlready(ret, v1, elems, x);
      assert elems + {x} == elems && elems + Elems<string>([]) == elems;
    }
  }

  lemma EndedHolds(v1: seq<string>, w: Woven, elems: set<string>)
    requires Sound(w, v1, elems)
    ensures Holds(Ended(w).ret, v1, elems)
  {
    var held :| Holds(w.ret, v1, held) && held + Elems(w.tmp) == elems;
    InsertHolds(w.ret, v1, held, |w.ret|, w.tmp);
    assert w.ret[..|w.ret|] + w.tmp + w.ret[|w.ret|..] == w.ret + w.tmp;
  }

  /** The result has every string of the three vectors once, and keeps the order of the first vector. */
  lemma UnionContent(v1: seq<string>, v2: seq<string>, v3: seq<string>)
    ensures NoDup(Union(v1, v2, v3))
    ensures Elems(Union(v1, v2, v3)) == Elems(v1) + Elems(v2) + Elems(v3)
    ensures Restrict(Union(v1, v2, v3), Elems(v1)) == Dedup(v1)
  {
    FencesInRange(v1);
    RestrictAll(v1, Elems(v1));
    var first := Weaving(Fences(v1), v2, v1, 0);
    WeavingHolds(v1, Fences(v1), v2, v1, 0);
    EndedHolds(v1, first, Elems(v1) + Elems(v2));
    var second := Weaving(Fences(v1), v3, Ended(first).ret, first.pos);
    WeavingHolds(v1, Fences(v1), v3, Ended(first).ret, first.pos);
    EndedHolds(v1, second, Elems(v1) + Elems(v2) + Elems(v3));
    DedupElems(Ended(second).ret);
    RestrictDedup(Ended(second).ret, Elems(v1));
  }

  // ---------- where the strings go ----------

  lemma WeavingLast(fences: map<string, nat>, vec: seq<string>, x: string, start: seq<string>, startPos: nat)
    ensures Weaving(fences, vec + [x], start, startPos) ==
      var w := Weaving(fences, vec, start, startPos);
      if x !in fences then w.(tmp := w.tmp + [x])
      else Woven(if w.tmp == [] then w.ret else Insert(w.ret, w.pos, w.tmp), fences[x] + 1, [])
  {
    assert (vec + [x])[..|vec|] == vec;
  }

  lemma {:induction false} NewStringsWait(fences: map<string, nat>, vec: seq<string>, block: seq<string>,
                                          start: seq<string>, startPos: nat)
    requires Weaving(fences, vec, start, startPos).tmp == [] && forall x :: x in block ==> x !in fences
    ensures Weaving(fences, vec + block, start, startPos) == Weaving(fences, vec, start, startPos).(tmp := block)
  {
    if block == [] {
      assert vec + block == vec;
    } else {
      var init, x := block[..|block| - 1], block[|block| - 1];
      NewStringsWait(fences, vec, init, start, startPos);
      WeavingLast(fences, vec + init, x, start, startPos);
      assert vec + block == vec + init + [x] && init + [x] == block;
    }
  }

  lemma FenceIsLast(v1: seq<string>, x: string)
    requires x in v1
    ensures x in Fences(v1) && LastIn(v1, x, Fences(v1)[x])
  {
    FencesInRange(v1);
    assert x in Elems(v1);
  }

  /** Strings that are not in the first list, up to the next one that is, go together to the position behind the place
      in the first list of the shared string before them; or, if there is none, where the last loop left off. */
  lemma BlockIsInserted(v1: seq<string>, vec: seq<string>, block: seq<string>, x: string, start: seq<string>,
                        startPos: nat)
    requires x in v1 && forall y :: y in block ==> y !in v1
    requires var w := Weaving(Fences(v1), vec, start, startPos); w.tmp == [] && w.pos <= |w.ret|
    ensures var w := Weaving(Fences(v1), vec, start, startPos);
      var next := Weaving(Fences(v1), vec + block + [x], start, startPos);
      next.ret == w.ret[..w.pos] + block + w.ret[w.pos..] && next.tmp == [] && next.pos > 0 &&
      LastIn(v1, x, next.pos - 1)
  {
    FenceIsLast(v1, x);
    NewOnly(v1, block);
    var w := Weaving(Fences(v1), vec, start, startPos);
    NewStringsWait(Fences(v1), vec, block, start, startPos);
    WeavingLast(Fences(v1), vec + block, x, start, startPos);
    assert w.ret[..w.pos] + [] + w.ret[w.pos..] == w.ret;
  }

  lemma NewOnly(v1: seq<string>, block: seq<string>)
    requires forall y :: y in block ==> y !in v1
    ensures forall y :: y in block ==> y !in Fences(v1)
  {
    FencesInRange(v1);
  }

  lemma {:induction false} SharedStringsStay(v1: seq<string>, m: nat, start: seq<string>, startPos: nat)
    requires NoDup(v1) && m <= |v1|
    ensures Weaving(Fences(v1), v1[..m], start, startPos) == Woven(start, if m == 0 then startPos else m, [])
  {
    if m > 0 {
      SharedStringsStay(v1, m - 1, start, startPos);
      FencesInRange(v1);
      assert v1[..m] == v1[..m - 1] + [v1[m - 1]] && v1[m - 1] in Elems(v1);
      WeavingLast(Fences(v1), v1[..m - 1], v1[m - 1], start, startPos);
    }
  }

  /** Once nothing waits, further shared strings change nothing but the position. */
  lemma {:induction false} MoreSharedStrings(fences: map<string, nat>, vec: seq<string>, more: seq<string>,
                                             start: seq<string>, startPos: nat)
    requires Weaving(fences, vec, start, startPos).tmp == [] && forall x :: x in more ==> x in fences
    ensures Weaving(fences, vec + more, start, startPos).tmp == []
    ensures Weaving(fences, vec + more, start, startPos).ret == Weaving(fences, vec, start, startPos).ret
  {
    if more == [] {
      assert vec + more == vec;
    } else {
      var init, x := more[..|more| - 1], more[|more| - 1];
      MoreSharedStrings(fences, vec, init, start, startPos);
      WeavingLast(fences, vec + init, x, start, startPos);
      assert vec + more == vec + init + [x];
    }
  }

  /** Theirs alone inserts strings into a list that ours left as it was. They stay where theirs has them, except that in
      front of a list they are put behind it: the position is not set back for the third list. */
  lemma TheirInsertion(v1: seq<string>, i: nat, block: seq<string>)
    requires NoDup(v1) && NoDup(block) && (forall x :: x in block ==> x !in v1) && i <= |v1|
    ensures Union(v1, v1, v1[..i] + block + v1[i..]) == if i > 0 then v1[..i] + block + v1[i..] else v1 + block
  {
    var at := if i == 0 then |v1| else i;
    SecondList(v1);
    SharedStringsStay(v1, i, v1, |v1|);
    ThirdList(v1, i, block, at);
    NoDupInserted(v1, block, at);
    DedupNoDup(v1[..at] + block + v1[at..]);
    assert i == 0 ==> v1[..at] + block + v1[at..] == v1 + block;
  }

  /** The second list is the first one again: it moves the position behind it. */
  lemma SecondList(v1: seq<string>)
    requires NoDup(v1)
    ensures Ended(Weaving(Fences(v1), v1, v1, 0)) == Woven(v1, |v1|, [])
  {
    SharedStringsStay(v1, |v1|, v1, 0);
    assert v1[..|v1|] == v1 && v1 + [] == v1;
  }

  lemma ThirdList(v1: seq<string>, i: nat, block: seq<string>, at: nat)
    requires (forall x :: x in block ==> x !in v1) && i <= |v1| && at <= |v1|
    requires Weaving(Fences(v1), v1[..i], v1, |v1|) == Woven(v1, at, []) && (i == |v1| ==> at == i)
    ensures Ended(Weaving(Fences(v1), v1[..i] + block + v1[i..], v1, |v1|)).ret == v1[..at] + block + v1[at..]
  {
    if i == |v1| {
      NewOnly(v1, block);
      NewStringsWait(Fences(v1), v1[..i], block, v1, |v1|);
      assert v1[..i] + block + v1[i..] == v1[..i] + block;
      assert v1[..at] + block + v1[at..] == v1 + block;
    } else {
      BeforeTheRest(v1, i, block, at);
    }
  }

  lemma BeforeTheRest(v1: seq<string>, i: nat, block: seq<string>, at: nat)
    requires (forall x :: x in block ==> x !in v1) && i < |v1| && at <= |v1|
    requires Weaving(Fences(v1), v1[..i], v1, |v1|) == Woven(v1, at, [])
    ensures Ended(Weaving(Fences(v1), v1[..i] + block + v1[i..], v1, |v1|)).ret == v1[..at] + block + v1[at..]
  {
    var first, rest := v1[..i] + block + [v1[i]], v1[i + 1..];
    BlockIsInserted(v1, v1[..i], block, v1[i], v1, |v1|);
    assert forall x :: x in rest ==> x in Fences(v1) by {
      FencesInRange(v1);
    }
    MoreSharedStrings(Fences(v1), first, rest, v1, |v1|);
    Reassembled(v1, i, block);
    NothingWaits(Weaving(Fences(v1), first + rest, v1, |v1|));
  }

  lemma Reassembled(v1: seq<string>, i: nat, block: seq<string>)
    requires i < |v1|
    ensures v1[..i] + block + [v1[i]] + v1[i + 1..] == v1[..i] + block + v1[i..]
  {
    assert [v1[i]] + v1[i + 1..] == v1[i..];
  }

  lemma NothingWaits(w: Woven)
    requires w.tmp == []
    ensures Ended(w).ret == w.ret
  {
    assert w.ret + [] == w.ret;
  }

  lemma NoDupInserted(v: seq<string>, block: seq<string>, at: nat)
    requires NoDup(v) && NoDup(block) && (forall x :: x in block ==> x !in v) && at <= |v|
    ensures NoDup(v[..at] + block + v[at..])
  {
    NoDupConcat(v[..at], block);
    NoDupConcat(v[..at] + block, v[at..]);
  }

  lemma NoDupConcat(a: seq<string>, b: seq<string>)
    requires NoDup(a) && NoDup(b) && forall x :: x in a ==> x !in b
    ensures NoDup(a + b)
  {
    forall i, j | 0 <= i < j < |a + b| ensures (a + b)[i] != (a + b)[j] {
      if i < |a| <= j {
        assert a[i] in a && b[j - |a|] in b;
      }
    }
  }

  // ---------- the loops ----------

  method RecordFences(v1: seq<string>) returns (fences: map<string, nat>)
    ensures fences == Fences(v1)
  {
    fences := map[];
    for i := 0 to |v1|
      invariant fences == Fences(v1[..i])
    {
      assert v1[..i + 1][..i] == v1[..i];
      fences := fences[v1[i] := i];
    }
    assert v1[..|v1|] == v1;
  }

  /** The loop over one further vector (lines 670-684). Every insertion is within the list. */
  method Weave(v1: seq<string>, fences: map<string, nat>, vec: seq<string>, start: seq<string>, startPos: nat)
    returns (ret: seq<string>, insertPos: nat)
    requires fences.Keys == Elems(v1) && (forall x :: x in fences ==> fences[x] < |v1|)
    requires Holds(start, v1, Elems(start)) && startPos <= |v1|
    ensures Woven(ret, insertPos, []) == Ended(Weaving(fences, vec, start, startPos))
    ensures Holds(ret, v1, Elems(start) + Elems(vec)) && insertPos <= |v1|
  {
    ret, insertPos := start, startPos;
    var tmp: seq<string> := [];
    for i := 0 to |vec|
      invariant Woven(ret, insertPos, tmp) == Weaving(fences, vec[..i], start, startPos)
    {
      assert vec[..i + 1][..i] == vec[..i];
      WeavingHolds(v1, fences, vec[..i], start, startPos);
      if vec[i] in fences {
        if tmp != [] {
          ret := ret[..insertPos] + tmp + ret[insertPos..];
          tmp := [];
        }
        insertPos := fences[vec[i]] + 1;
      } else {
        tmp := tmp + [vec[i]];
      }
    }
    assert vec[..|vec|] == vec;
    WeavingHolds(v1, fences, vec, start, startPos);
    EndedHolds(v1, Weaving(fences, vec, start, startPos), Elems(start) + Elems(vec));
    if tmp != [] {
      ret := ret + tmp;
    }
  }

  method MergeStrVecByUnion(v1: seq<string>, v2: seq<string>, v3: seq<string>) returns (result: seq<string>)
    ensures result == Union(v1, v2, v3)
    ensures NoDup(result)
    ensures Elems(result) == Elems(v1) + Elems(v2) + Elems(v3)
    ensures Restrict(result, Elems(v1)) == Dedup(v1)
  {
    var fences := RecordFences(v1);
    FencesInRange(v1);
    RestrictAll(v1, Elems(v1));
    var ret, insertPos := Weave(v1, fences, v2, v1, 0);
    ret, insertPos := Weave(v1, fences, v3, ret, insertPos);
    result := KeepFirst(ret);
    UnionContent(v1, v2, v3);
  }
}
