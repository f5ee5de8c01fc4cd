/** Duplicate-free sequences, first-occurrence de-duplication and restriction to a set. */
module Seqs {

  ghost predicate NoDup<T(!new)>(s: seq<T>) {
    forall i, j :: 0 <= i < j < |s| ==> s[i] != s[j]
  }

  function Elems<T(!new)>(s: seq<T>): (r: set<T>)
    ensures forall x :: x in r <==> x in s
  {
    set x | x in s
  }

  /** Keeps the first occurrence of every element. */
  function Dedup<T(==)>(s: seq<T>): seq<T> {
    if s == [] then []
    else
      var r := Dedup(s[..|s| - 1]);
      if s[|s| - 1] in r then r else r + [s[|s| - 1]]
  }

  /** The loop with a set of strings already seen, by which the sources de-duplicate. */
  method KeepFirst(items: seq<string>) returns (unique: seq<string>)
    ensures unique == Dedup(items)
  {
    unique := [];
    var seen: set<string> := {};
    for i := 0 to |items|
      invariant unique == Dedup(items[..i]) && seen == Elems(unique)
    {
      assert items[..i + 1][..i] == items[..i];
      if items[i] !in seen {
        seen := seen + {items[i]};
        unique := unique + [items[i]];
      }
    }
    assert items[..|items|] == items;
  }

  /** The subsequence of the elements of s that belong to keep. */
  function Restrict<T(==)>(s: seq<T>, keep: set<T>): seq<T> {
    if s == [] then []
    else
      var r := Restrict(s[..|s| - 1], keep);
      if s[|s| - 1] in keep then r + [s[|s| - 1]] else r
  }

  lemma {:induction false} DedupElems<T(!new)>(s: seq<T>)
    ensures NoDup(Dedup(s))
    ensures forall x :: x in Dedup(s) <==> x in s
    ensures Elems(Dedup(s)) == Elems(s)
  {
    if s != [] {
      DedupElems(s[..|s| - 1]);
      assert s == s[..|s| - 1] + [s[|s| - 1]];
      assert forall x :: x in Dedup(s) <==> x in s;
    }
  }

  /** Dedup is an order-preserving selection: it maps into s by a strictly increasing index function,
      and it hits the FIRST occurrence of every element. */
  lemma {:induction false} DedupFirstOccurrences<T(!new)>(s: seq<T>) returns (at: seq<nat>)
    ensures |at| == |Dedup(s)|
    ensures forall i :: 0 <= i < |at| ==> FirstAt(s, at[i], Dedup(s)[i])
    ensures forall i, j :: 0 <= i < j < |at| ==> at[i] < at[j]
  {
    if s == [] {
      at := [];
    } else {
      var p := s[..|s| - 1];
      at := DedupFirstOccurrences(p);
      DedupElems(p);
      forall i | 0 <= i < |at| ensures FirstAt(s, at[i], Dedup(p)[i]) {
        assert FirstAt(p, at[i], Dedup(p)[i]);
      }
      if s[|s| - 1] !in Dedup(p) {
        assert FirstAt(s, |s| - 1, s[|s| - 1]);
        at := at + [|s| - 1];
      }
    }
  }

  /** x is at index k of s and nowhere before. */
  ghost predicate FirstAt<T(!new)>(s: seq<T>, k: nat, x: T) {
    k < |s| && s[k] == x && forall m :: 0 <= m < k ==> s[m] != x
  }

  lemma {:induction false} DedupNoDup<T(!new)>(s: seq<T>)
    requires NoDup(s)
    ensures Dedup(s) == s
  {
    if s != [] {
      DedupNoDup(s[..|s| - 1]);
      assert s == s[..|s| - 1] + [s[|s| - 1]];
    }
  }

  lemma {:induction false} RestrictElems<T(!new)>(s: seq<T>, keep: set<T>)
    ensures forall x :: x in Restrict(s, keep) <==> x in s && x in keep
    ensures NoDup(s) ==> NoDup(Restrict(s, keep))
  {
    if s != [] {
      RestrictElems(s[..|s| - 1], keep);
      assert s == s[..|s| - 1] + [s[|s| - 1]];
    }
  }

  lemma {:induction false} RestrictConcat<T(!new)>(s: seq<T>, t: seq<T>, keep: set<T>)
    ensures Restrict(s + t, keep) == Restrict(s, keep) + Restrict(t, keep)
  {
    if t == [] {
      assert s + t == s;
    } else {
      var t' := t[..|t| - 1];
      RestrictConcat(s, t', keep);
      assert (s + t)[..|s + t| - 1] == s + t';
    }
  }

  lemma {:induction false} RestrictAll<T(!new)>(s: seq<T>, keep: set<T>)
    requires forall x :: x in s ==> x in keep
    ensures Restrict(s, keep) == s
  {
    if s != [] {
      RestrictAll(s[..|s| - 1], keep);
      assert s == s[..|s| - 1] + [s[|s| - 1]];
    }
  }

  lemma {:induction false} RestrictNone<T(!new)>(s: seq<T>, keep: set<T>)
    requires forall x :: x in s ==> x !in keep
    ensures Restrict(s, keep) == []
  {
    if s != [] {
      RestrictNone(s[..|s| - 1], keep);
    }
  }

  /** De-duplication and restriction commute. */
  lemma {:induction false} RestrictDedup<T(!new)>(s: seq<T>, keep: set<T>)
    ensures Restrict(Dedup(s), keep) == Dedup(Restrict(s, keep))
  {
    if s != [] {
      var p, x := s[..|s| - 1], s[|s| - 1];
      RestrictDedup(p, keep);
      DedupElems(p);
      RestrictElems(p, keep);
      DedupElems(Restrict(p, keep));
      if x !in p {
        RestrictConcat(Dedup(p), [x], keep);
        assert Restrict([x], keep) == if x in keep then [x] else [];
      }
      if x in keep {
        assert (Restrict(p, keep) + [x])[..|Restrict(p, keep)|] == Restrict(p, keep);
      }
    }
  }

  /** x occurs strictly before y. */
  ghost predicate Before<T(!new)>(s: seq<T>, x: T, y: T) {
    exists i, j :: 0 <= i < j < |s| && s[i] == x && s[j] == y
  }

  /** A duplicate-free sequence is determined by its elements and the order of its neighbours. */
  lemma {:induction false} SameOrderSameSeq<T(!new)>(s: seq<T>, t: seq<T>)
    requires NoDup(s) && NoDup(t)
    requires forall x :: x in s <==> x in t
    requires forall i :: 0 <= i < |s| - 1 ==> Before(t, s[i], s[i + 1])
    ensures s == t
  {
    SameElemsSameLength(s, t);
    if |s| > 0 {
      SameLast(s, t);
      var s', t' := s[..|s| - 1], t[..|t| - 1];
      assert s == s' + [s[|s| - 1]] && t == t' + [s[|s| - 1]];
      forall y ensures y in s' <==> y in t' {
        assert y in s <==> y in t;
      }
      forall i | 0 <= i < |s'| - 1 ensures Before(t', s'[i], s'[i + 1]) {
        BeforeInPrefix(t, s[i], s[i + 1]);
      }
      SameOrderSameSeq(s', t');
    }
  }

  lemma SameLast<T(!new)>(s: seq<T>, t: seq<T>)
    requires NoDup(s) && NoDup(t) && |s| == |t| > 0
    requires forall x :: x in s <==> x in t
    requires forall i :: 0 <= i < |s| - 1 ==> Before(t, s[i], s[i + 1])
    ensures s[|s| - 1] == t[|t| - 1]
  {
    assert t[|t| - 1] in s;
    var m :| 0 <= m < |s| && s[m] == t[|t| - 1];
    if m < |s| - 1 {
      LaterInBoth(s, t, m, |s| - 1);
    }
  }

  lemma BeforeInPrefix<T(!new)>(t: seq<T>, x: T, y: T)
    requires Before(t, x, y) && y != t[|t| - 1]
    ensures Before(t[..|t| - 1], x, y)
  {
    var a, b :| 0 <= a < b < |t| && t[a] == x && t[b] == y;
    assert t[..|t| - 1][a] == x && t[..|t| - 1][b] == y;
  }

  /** If neighbours of s keep their order in t then all elements do. */
  lemma {:induction false} LaterInBoth<T(!new)>(s: seq<T>, t: seq<T>, m: int, n: int)
    requires NoDup(t)
    requires 0 <= m < n < |s|
    requires forall i :: 0 <= i < |s| - 1 ==> Before(t, s[i], s[i + 1])
    ensures Before(t, s[m], s[n])
    decreases n - m
  {
    assert Before(t, s[n - 1], s[n]);
    if m < n - 1 {
      LaterInBoth(s, t, m, n - 1);
      var a, b :| 0 <= a < b < |t| && t[a] == s[m] && t[b] == s[n - 1];
      var c, d :| 0 <= c < d < |t| && t[c] == s[n - 1] && t[d] == s[n];
      assert b == c;
    }
  }

  lemma {:induction false} BeforeInRestrict<T(!new)>(s: seq<T>, keep: set<T>, x: T, y: T)
    requires Before(s, x, y) && x in keep && y in keep
    ensures Before(Restrict(s, keep), x, y)
  {
    var i, j :| 0 <= i < j < |s| && s[i] == x && s[j] == y;
    var first, second := s[..j], s[j..];
    assert s == first + second;
    assert first[i] == x && second[0] == y;
    RestrictConcat(first, second, keep);
    assert x in Restrict(first, keep) by {
      RestrictElems(first, keep);
    }
    assert y in Restrict(second, keep) by {
      RestrictElems(second, keep);
    }
    BeforeInConcat(Restrict(first, keep), Restrict(second, keep), x, y);
  }

  lemma BeforeInConcat<T(!new)>(a: seq<T>, b: seq<T>, x: T, y: T)
    requires x in a && y in b
    ensures Before(a + b, x, y)
  {
    var p :| 0 <= p < |a| && a[p] == x;
    var q :| 0 <= q < |b| && b[q] == y;
    assert (a + b)[p] == x && (a + b)[|a| + q] == y;
  }

  lemma SameElemsSameLength<T(!new)>(s: seq<T>, t: seq<T>)
    requires NoDup(s) && NoDup(t) && Elems(s) == Elems(t)
    ensures |s| == |t|
  {
    ElemsSize(s);
    ElemsSize(t);
  }

  lemma {:induction false} ElemsSize<T(!new)>(s: seq<T>)
    requires NoDup(s)
    ensures |Elems(s)| == |s|
  {
    if s != [] {
      var p, x := s[..|s| - 1], s[|s| - 1];
      ElemsSize(p);
      assert s == p + [x];
      assert Elems(s) == Elems(p) + {x};
    }
  }
}
