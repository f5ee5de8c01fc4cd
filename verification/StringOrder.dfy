/** The order std::less<std::string> puts on strings, and the order it induces on lists of strings. */
module StringOrder {

  predicate Less(a: string, b: string) {
    b != "" && (a == "" || a[0] < b[0] || (a[0] == b[0] && Less(a[1..], b[1..])))
  }

  /** The strings agree up to i, where a has the smaller character. */
  ghost predicate SmallerAt(a: string, b: string, i: int) {
    0 <= i < |a| && i < |b| && (forall k :: 0 <= k < i ==> a[k] == b[k]) && a[i] < b[i]
  }

  /** a is shorter than b, and b begins with it. */
  ghost predicate ProperPrefix(a: string, b: string) {
    |a| < |b| && forall k :: 0 <= k < |a| ==> a[k] == b[k]
  }

  /** The order is that of dictionaries. */
  lemma {:induction false} LessIff(a: string, b: string)
    ensures Less(a, b) <==> ProperPrefix(a, b) || exists i :: SmallerAt(a, b, i)
  {
    if a != "" && b != "" && a[0] == b[0] {
      var a', b' := a[1..], b[1..];
      LessIff(a', b');
      assert forall k :: 0 < k < |a| ==> a[k] == a'[k - 1];
      assert forall k :: 0 < k < |b| ==> b[k] == b'[k - 1];
      if i :| SmallerAt(a', b', i) {
        assert SmallerAt(a, b, i + 1);
      }
      if i :| SmallerAt(a, b, i) {
        assert forall k :: 0 <= k < |a'| ==> a'[k] == a[k + 1];
        assert SmallerAt(a', b', i - 1);
      }
      PrefixTail(a, b);
    } else if a != "" && b != "" && a[0] < b[0] {
      assert SmallerAt(a, b, 0);
    }
  }

  lemma PrefixTail(a: string, b: string)
    requires a != "" && b != "" && a[0] == b[0]
    ensures ProperPrefix(a, b) <==> ProperPrefix(a[1..], b[1..])
  {
    if ProperPrefix(a[1..], b[1..]) {
      forall k | 0 <= k < |a| ensures a[k] == b[k] {
        assert k > 0 ==> a[k] == a[1..][k - 1] && b[k] == b[1..][k - 1];
      }
    }
  }

  lemma Irreflexive(a: string)
    ensures !Less(a, a)
  {
  }

  lemma {:induction false} Transitive(a: string, b: string, c: string)
    requires Less(a, b) && Less(b, c)
    ensures Less(a, c)
  {
    if a != "" && b != "" && c != "" && a[0] == b[0] == c[0] {
      Transitive(a[1..], b[1..], c[1..]);
    }
  }

  lemma {:induction false} Total(a: string, b: string)
    ensures a == b || Less(a, b) || Less(b, a)
  {
    if a != "" && b != "" && a[0] == b[0] {
      Total(a[1..], b[1..]);
      assert a == [a[0]] + a[1..] && b == [b[0]] + b[1..];
    }
  }

  /** s is below t: at the first index where they differ, s has the smaller string. */
  ghost predicate ListLess(s: seq<string>, t: seq<string>) {
    exists i :: 0 <= i < |s| && i < |t| && s[..i] == t[..i] && Less(s[i], t[i])
  }

  lemma ListAsymmetric(s: seq<string>, t: seq<string>)
    requires ListLess(s, t)
    ensures !ListLess(t, s) && s != t
  {
    var i :| 0 <= i < |s| && i < |t| && s[..i] == t[..i] && Less(s[i], t[i]);
    Irreflexive(s[i]);
    if ListLess(t, s) {
      var j :| 0 <= j < |t| && j < |s| && t[..j] == s[..j] && Less(t[j], s[j]);
      Irreflexive(s[j]);
      if i == j {
        Transitive(s[i], t[i], s[i]);
      }
    }
  }

  /** The greatest string of a non-empty multiset: what std::priority_queue::top returns. */
  predicate IsTop(q: multiset<string>, x: string) {
    x in q && forall y :: y in q ==> y == x || Less(y, x)
  }

  lemma {:induction false} TopExists(q: multiset<string>)
    requires q != multiset{}
    ensures exists x :: IsTop(q, x)
    decreases |q|
  {
    var x :| x in q;
    if q - multiset{x} == multiset{} {
      assert q == multiset{x};
      assert IsTop(q, x);
    } else {
      TopExists(q - multiset{x});
      var t :| IsTop(q - multiset{x}, t);
      Total(x, t);
      var m := if Less(t, x) then x else t;
      forall y | y in q ensures y == m || Less(y, m) {
        if y != x {
          assert y in q - multiset{x};
          if Less(t, x) && y != t { Transitive(y, t, x); }
        }
      }
      assert IsTop(q, m);
    }
  }
}
