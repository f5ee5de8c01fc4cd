/** The k-gram cosine of src/utils/similarity.cpp, in exact arithmetic. */
module Cosine {

  /** How often each k-gram occurs. */
  type Profile = map<string, nat>

  function Get(m: Profile, g: string): nat {
    if g in m then m[g] else 0
  }

  // ---------- sums over finite sets ----------

  ghost function Total(keys: set<string>, f: string -> nat): nat {
    if keys == {} then 0
    else
      var x :| x in keys;
      f(x) + Total(keys - {x}, f)
  }

  /** The sum does not depend on the order in which a hash table is traversed. */
  lemma {:induction false} TotalRemove(keys: set<string>, f: string -> nat, y: string)
    requires y in keys
    ensures Total(keys, f) == f(y) + Total(keys - {y}, f)
    decreases |keys|
  {
    var x :| x in keys && Total(keys, f) == f(x) + Total(keys - {x}, f);
    if x != y {
      TotalRemove(keys - {x}, f, y);
      TotalRemove(keys - {y}, f, x);
      assert keys - {x} - {y} == keys - {y} - {x};
    }
  }

  lemma {:induction false} TotalAgree(keys: set<string>, f: string -> nat, g: string -> nat)
    requires forall x :: x in keys ==> f(x) == g(x)
    ensures Total(keys, f) == Total(keys, g)
    decreases |keys|
  {
    if x :| x in keys {
      TotalRemove(keys, f, x);
      TotalRemove(keys, g, x);
      TotalAgree(keys - {x}, f, g);
    }
  }

  lemma {:induction false} TotalExtend(keys: set<string>, more: set<string>, f: string -> nat)
    requires keys <= more && forall x :: x in more && x !in keys ==> f(x) == 0
    ensures Total(keys, f) == Total(more, f)
    decreases |more|
  {
    if x :| x in more && x !in keys {
      TotalRemove(more, f, x);
      TotalExtend(keys, more - {x}, f);
    } else {
      assert keys == more;
    }
  }

  // ---------- Cauchy-Schwarz ----------

  function Count(m: Profile): string -> nat {
    g => Get(m, g)
  }

  function Square(m: Profile): string -> nat {
    g => Get(m, g) * Get(m, g)
  }

  function Product(m1: Profile, m2: Profile): string -> nat {
    g => Get(m1, g) * Get(m2, g)
  }

  ghost function SquaredNorm(m: Profile): nat {
    Total(m.Keys, Square(m))
  }

  ghost function Dot(m1: Profile, m2: Profile): nat {
    Total(m1.Keys, Product(m1, m2))
  }

  ghost predicate Schwarz(dot: nat, p: nat, q: nat) {
    dot * dot <= p * q
  }

  /** One more coordinate (x, y) keeps the inequality. */
  lemma CauchyStep(d: nat, p: nat, q: nat, x: nat, y: nat)
    requires Schwarz(d, p, q)
    ensures Schwarz(d + x * y, p + x * x, q + y * y)
  {
    CrossTerm(d, p, q, x, y);
    var xy: nat, xx: nat, yy: nat := x * y, x * x, y * y;
    var dxy: nat, pyy: nat, qxx: nat := d * xy, p * yy, q * xx;
    SquareRoot(2 * dxy, pyy + qxx);
    Expand(d, p, q, x, y);
  }

  lemma CrossTerm(d: nat, p: nat, q: nat, x: nat, y: nat)
    requires d * d <= p * q
    ensures 2 * (d * (x * y)) * (2 * (d * (x * y))) <= (p * (y * y) + q * (x * x)) * (p * (y * y) + q * (x * x))
  {
    var u, v, xy := p * (y * y), q * (x * x), x * y;
    MulMonotone(d * d, p * q, xy * xy);
    Regroup(p, q, x, y);
    RegroupSquare(d, xy);
    SquareOfSum(u, v);
    assert 2 * (d * xy) * (2 * (d * xy)) == 4 * ((d * xy) * (d * xy));
  }

  lemma Regroup(p: nat, q: nat, x: nat, y: nat)
    ensures (p * (y * y)) * (q * (x * x)) == (p * q) * ((x * y) * (x * y))
  {
    assert (p * (y * y)) * (q * (x * x)) == (p * q) * ((y * y) * (x * x));
    assert (y * y) * (x * x) == (x * y) * (x * y);
  }

  lemma RegroupSquare(d: nat, z: nat)
    ensures (d * z) * (d * z) == (d * d) * (z * z)
  {
  }

  lemma SquareOfSum(u: int, v: int)
    ensures (u + v) * (u + v) >= 4 * (u * v)
  {
    assert (u + v) * (u + v) == 4 * (u * v) + (u - v) * (u - v);
    var z := u - v;
    assert z * z >= 0;
  }

  lemma MulMonotone(a: nat, b: nat, c: nat)
    requires a <= b
    ensures a * c <= b * c
  {
  }

  lemma SquareRoot(a: nat, b: nat)
    requires a * a <= b * b
    ensures a <= b
  {
    if b < a {
      MulMonotone(b + 1, a, b + 1);
      MulMonotone(b + 1, a, a);
    }
  }

  lemma Expand(d: nat, p: nat, q: nat, x: nat, y: nat)
    requires d * d <= p * q && 2 * (d * (x * y)) <= p * (y * y) + q * (x * x)
    ensures (d + x * y) * (d + x * y) <= (p + x * x) * (q + y * y)
  {
    var xy, a, b := x * y, x * x, y * y;
    assert (d + xy) * (d + xy) == d * d + 2 * (d * xy) + xy * xy;
    assert (p + a) * (q + b) == p * q + p * b + q * a + a * b;
    assert a * b == xy * xy;
  }

  lemma CauchyInsert(keys: set<string>, m1: Profile, m2: Profile, x: string)
    requires x in keys
    requires Schwarz(Total(keys - {x}, Product(m1, m2)), Total(keys - {x}, Square(m1)), Total(keys - {x}, Square(m2)))
    ensures Schwarz(Total(keys, Product(m1, m2)), Total(keys, Square(m1)), Total(keys, Square(m2)))
  {
    TotalRemove(keys, Product(m1, m2), x);
    TotalRemove(keys, Square(m1), x);
    TotalRemove(keys, Square(m2), x);
    var rest := keys - {x};
    AddCoordinate(Total(rest, Product(m1, m2)), Total(rest, Square(m1)), Total(rest, Square(m2)),
                  Get(m1, x), Get(m2, x),
                  Total(keys, Product(m1, m2)), Total(keys, Square(m1)), Total(keys, Square(m2)));
  }

  lemma AddCoordinate(d: nat, p: nat, q: nat, x: nat, y: nat, d': nat, p': nat, q': nat)
    requires Schwarz(d, p, q) && d' == x * y + d && p' == x * x + p && q' == y * y + q
    ensures Schwarz(d', p', q')
  {
    CauchyStep(d, p, q, x, y);
  }

  lemma {:induction false} CauchyOn(keys: set<string>, m1: Profile, m2: Profile)
    ensures Schwarz(Total(keys, Product(m1, m2)), Total(keys, Square(m1)), Total(keys, Square(m2)))
    decreases |keys|
  {
    if x :| x in keys {
      CauchyOn(keys - {x}, m1, m2);
      CauchyInsert(keys, m1, m2, x);
    }
  }

  lemma CauchySchwarz(m1: Profile, m2: Profile)
    ensures Schwarz(Dot(m1, m2), SquaredNorm(m1), SquaredNorm(m2))
  {
    var all := m1.Keys + m2.Keys;
    TotalExtend(m1.Keys, all, Product(m1, m2));
    TotalExtend(m1.Keys, all, Square(m1));
    TotalExtend(m2.Keys, all, Square(m2));
    CauchyOn(all, m1, m2);
  }

  // ---------- profiles ----------

  /** The class \s of RE2. */
  predicate IsBlank(c: char) {
    c == ' ' || c == '\t' || c == '\n' || c == '\r' || c == '\U{000c}'
  }

  /** Every run of white space becomes one space (line 38). */
  function Collapse(s: string): string {
    if s == "" then ""
    else
      var r, c := Collapse(s[..|s| - 1]), s[|s| - 1];
      if !IsBlank(c) then r + [c]
      else if |s| > 1 && IsBlank(s[|s| - 2]) then r
      else r + " "
  }

  ghost predicate AllBlank(s: string) {
    forall k :: 0 <= k < |s| ==> IsBlank(s[k])
  }

  /** A text without white space stays as it is. */
  lemma {:induction false} CollapsePlain(s: string)
    requires forall k :: 0 <= k < |s| ==> !IsBlank(s[k])
    ensures Collapse(s) == s
  {
    if s != "" {
      CollapsePlain(s[..|s| - 1]);
      assert s == s[..|s| - 1] + [s[|s| - 1]];
    }
  }

  /** A whole run of white space becomes one space, whatever stands before and behind it. */
  lemma {:induction false} CollapseRun(a: string, run: string, b: string)
    requires run != "" && AllBlank(run) && (a != "" ==> !IsBlank(a[|a| - 1])) && (b != "" ==> !IsBlank(b[0]))
    ensures Collapse(a + run + b) == Collapse(a) + " " + Collapse(b)
  {
    if b == "" {
      CollapseEnd(a, run);
      assert a + run + b == a + run;
    } else {
      var init, c := b[..|b| - 1], b[|b| - 1];
      var s := a + run + init;
      assert Collapse(s) == Collapse(a) + " " + Collapse(init) && s != "" && |s| >= |init| by {
        CollapseRun(a, run, init);
      }
      assert if init == "" then !IsBlank(c) else s[|s| - 1] == init[|init| - 1];
      CollapseOneMore(s, init, c, Collapse(a) + " ");
      assert b == init + [c];
      Assoc(a + run, init, [c]);
    }
  }

  lemma CollapseOneMore(s: string, b: string, c: char, front: string)
    requires Collapse(s) == front + Collapse(b) && s != "" && |s| >= |b|
    requires if b == "" then !IsBlank(c) else s[|s| - 1] == b[|b| - 1]
    ensures Collapse(s + [c]) == front + Collapse(b + [c])
  {
    var added := Tail(b, c);
    CollapseLast(s, c);
    CollapseLast(b, c);
    assert Tail(s, c) == added;
    Assoc(front, Collapse(b), added);
  }

  lemma Assoc(a: string, b: string, c: string)
    ensures a + b + c == a + (b + c)
  {
  }

  lemma {:induction false} CollapseEnd(a: string, run: string)
    requires run != "" && AllBlank(run) && (a != "" ==> !IsBlank(a[|a| - 1]))
    ensures Collapse(a + run) == Collapse(a) + " "
  {
    var init, c := run[..|run| - 1], run[|run| - 1];
    assert a + run == a + init + [c];
    CollapseLast(a + init, c);
    if init != "" {
      CollapseEnd(a, init);
    } else {
      assert a + init == a;
    }
  }

  /** What one more character adds to a collapsed text. */
  function Tail(s: string, c: char): string {
    if !IsBlank(c) then [c] else if s != "" && IsBlank(s[|s| - 1]) then "" else " "
  }

  lemma CollapseLast(s: string, c: char)
    ensures Collapse(s + [c]) == Collapse(s) + Tail(s, c)
  {
    assert (s + [c])[..|s|] == s;
  }

  /** The number of k-grams of a string. */
  function Windows(length: nat, k: nat): nat {
    if length < k then 0 else length - k + 1
  }

  function Gram(s: string, k: nat, i: nat): string
    requires i < Windows(|s|, k)
  {
    s[i..i + k]
  }

  /** How many of the first n k-grams of s are g. */
  function Occurrences(s: string, k: nat, n: nat, g: string): nat
    requires n <= Windows(|s|, k)
  {
    if n == 0 then 0 else Occurrences(s, k, n - 1, g) + if Gram(s, k, n - 1) == g then 1 else 0
  }

  ghost function Positions(s: string, k: nat, n: nat, g: string): set<nat>
    requires n <= Windows(|s|, k)
  {
    set i: nat | i < n && Gram(s, k, i) == g
  }

  /** That is the number of their positions. */
  lemma {:induction false} OccurrencesCount(s: string, k: nat, n: nat, g: string)
    requires n <= Windows(|s|, k)
    ensures Occurrences(s, k, n, g) == |Positions(s, k, n, g)|
  {
    if n == 0 {
      assert Positions(s, k, n, g) == {};
    } else {
      OccurrencesCount(s, k, n - 1, g);
      PositionsNext(s, k, n - 1, g);
    }
  }

  lemma PositionsNext(s: string, k: nat, n: nat, g: string)
    requires n < Windows(|s|, k)
    ensures n !in Positions(s, k, n, g)
    ensures Positions(s, k, n + 1, g) == Positions(s, k, n, g) + if Gram(s, k, n) == g then {n} else {}
  {
  }

  lemma TotalIncrement(m: Profile, g: string)
    ensures var m' := m[g := Get(m, g) + 1]; Total(m'.Keys, Count(m')) == Total(m.Keys, Count(m)) + 1
  {
    var m' := m[g := Get(m, g) + 1];
    TotalAgree(m.Keys - {g}, Count(m), Count(m'));
    TotalRemove(m'.Keys, Count(m'), g);
    assert m'.Keys - {g} == m.Keys - {g};
    if g in m {
      TotalRemove(m.Keys, Count(m), g);
    } else {
      assert m.Keys - {g} == m.Keys;
    }
  }

  /** std::string::substr: a negative count becomes a huge one and takes the rest. */
  function Substr(s: string, i: nat, count: int): string
    requires i <= |s|
  {
    if 0 <= count <= |s| - i then s[i..i + count] else s[i..]
  }

  /** get_profile: every k-gram with its number of occurrences, and nothing else. With a negative k the loop runs past
      the end of the string, where substr throws. */
  method GetProfile(str: string, k: int) returns (profile: Profile, thrown: bool)
    ensures thrown <==> k < 0
    ensures k >= 0 ==> forall g :: Get(profile, g) == Occurrences(Collapse(str), k, Windows(|Collapse(str)|, k), g)
    ensures forall g :: g in profile ==> profile[g] > 0
    ensures k >= 0 ==> Total(profile.Keys, Count(profile)) == Windows(|Collapse(str)|, k)
  {
    profile, thrown := map[], false;
    var cleaned := Collapse(str);
    var i := 0;
    while i <= |cleaned| - k
      invariant k >= 0 ==> i <= Windows(|cleaned|, k) && Counted(cleaned, k, i, profile)
      invariant k < 0 ==> i <= |cleaned| + 1
      invariant forall g :: g in profile ==> profile[g] > 0
      decreases |cleaned| - k - i
    {
      if i > |cleaned| {
        return profile, true;
      }
      var kgram := Substr(cleaned, i, k);
      if k >= 0 {
        CountedStep(cleaned, k, i, profile);
      }
      profile := profile[kgram := Get(profile, kgram) + 1];
      i := i + 1;
    }
  }

  /** The first i k-grams have been counted. */
  ghost predicate Counted(s: string, k: nat, i: nat, profile: Profile)
    requires i <= Windows(|s|, k)
  {
    (forall g :: Get(profile, g) == Occurrences(s, k, i, g)) && Total(profile.Keys, Count(profile)) == i
  }

  lemma CountedStep(s: string, k: nat, i: nat, profile: Profile)
    requires i < Windows(|s|, k) && Counted(s, k, i, profile)
    ensures var g := s[i..i + k]; Counted(s, k, i + 1, profile[g := Get(profile, g) + 1])
  {
    var h := s[i..i + k];
    var more := profile[h := Get(profile, h) + 1];
    TotalIncrement(profile, h);
    forall g ensures Get(more, g) == Occurrences(s, k, i + 1, g) {
      assert Get(profile, g) == Occurrences(s, k, i, g);
    }
  }

  /** The sum inside norm (lines 48-51). */
  method NormSquared(profile: Profile) returns (sum: nat)
    ensures sum == SquaredNorm(profile)
  {
    sum := 0;
    var todo := profile.Keys;
    while todo != {}
      invariant todo <= profile.Keys && sum + Total(todo, Square(profile)) == SquaredNorm(profile)
      decreases todo
    {
      var kgram :| kgram in todo;
      TotalRemove(todo, Square(profile), kgram);
      sum := sum + profile[kgram] * profile[kgram];
      todo := todo - {kgram};
    }
  }

  /** The loop of string_cosine (lines 93-98). */
  method DotProduct(profile1: Profile, profile2: Profile) returns (dot: nat)
    ensures dot == Dot(profile1, profile2)
  {
    dot := 0;
    var todo := profile1.Keys;
    while todo != {}
      invariant todo <= profile1.Keys && dot + Total(todo, Product(profile1, profile2)) == Dot(profile1, profile2)
      decreases todo
    {
      var kgram :| kgram in todo;
      TotalRemove(todo, Product(profile1, profile2), kgram);
      if kgram in profile2 {
        dot := dot + profile1[kgram] * profile2[kgram];
      }
      todo := todo - {kgram};
    }
  }

  /** dot / (sqrt(squaredNorm1) * sqrt(squaredNorm2)), or an error code. */
  datatype Similarity =
    | Cosine(dot: nat, squaredNorm1: nat, squaredNorm2: nat)
    | ErrEmptyVector
    | ErrZeroVector
    | OutOfRange

  /** The k-grams of a string, white space collapsed. */
  ghost function Grams(s: string, k: nat): set<string> {
    set i: nat | i < Windows(|Collapse(s)|, k) :: Gram(Collapse(s), k, i)
  }

  /** How often a k-gram occurs in a string. */
  ghost function OccursIn(s: string, k: nat, g: string): nat {
    Occurrences(Collapse(s), k, Windows(|Collapse(s)|, k), g)
  }

  function Times(x: nat, y: nat): nat {
    x * y
  }

  /** How often a k-gram occurs in each of two strings, multiplied. */
  ghost function Joint(s1: string, s2: string, k: nat): string -> nat {
    g => Times(OccursIn(s1, k, g), OccursIn(s2, k, g))
  }

  /** The sum of these products over all k-grams. */
  ghost function JointSum(s1: string, s2: string, k: nat): nat {
    Total(Grams(s1, k) + Grams(s2, k), Joint(s1, s2, k))
  }

  /** The profile of a string. */
  ghost predicate ProfileOf(m: Profile, s: string, k: nat) {
    forall g :: Get(m, g) == OccursIn(s, k, g)
  }

  /** A profile has exactly the k-grams of its string. */
  lemma ProfileKeys(m: Profile, s: string, k: nat)
    requires ProfileOf(m, s, k) && forall g :: g in m ==> m[g] > 0
    ensures m.Keys == Grams(s, k)
  {
    var c, n := Collapse(s), Windows(|Collapse(s)|, k);
    forall g ensures g in m <==> g in Grams(s, k) {
      assert Get(m, g) == Occurrences(c, k, n, g);
      OccurrencesCount(c, k, n, g);
      if g in Grams(s, k) {
        var i: nat :| i < n && Gram(c, k, i) == g;
        assert i in Positions(c, k, n, g);
      } else {
        assert Positions(c, k, n, g) == {};
      }
    }
  }

  lemma DotIsJointSum(m1: Profile, m2: Profile, s1: string, s2: string, k: nat)
    requires ProfileOf(m1, s1, k) && ProfileOf(m2, s2, k)
    requires (forall g :: g in m1 ==> m1[g] > 0) && forall g :: g in m2 ==> m2[g] > 0
    ensures Dot(m1, m2) == JointSum(s1, s2, k)
  {
    ProfileKeys(m1, s1, k);
    ProfileKeys(m2, s2, k);
    TotalAgree(m1.Keys, Product(m1, m2), Joint(s1, s2, k));
    forall g | g !in m1 ensures Joint(s1, s2, k)(g) == 0 {
      assert Get(m1, g) == 0;
    }
    TotalExtend(m1.Keys, m1.Keys + m2.Keys, Joint(s1, s2, k));
  }

  lemma NormIsJointSum(m: Profile, s: string, k: nat)
    requires ProfileOf(m, s, k) && forall g :: g in m ==> m[g] > 0
    ensures SquaredNorm(m) == JointSum(s, s, k)
  {
    DotIsJointSum(m, m, s, s, k);
    TotalAgree(m.Keys, Product(m, m), Square(m));
  }

  lemma PositiveNorm(m: Profile)
    requires m != map[] && forall g :: g in m ==> m[g] > 0
    ensures SquaredNorm(m) > 0
  {
    var g :| g in m;
    TotalRemove(m.Keys, Square(m), g);
    assert Get(m, g) * Get(m, g) > 0;
  }

  /** string_cosine. It fails exactly on an empty string or on a string with fewer than k characters
      after collapsing, and throws for a negative k; the test for a zero norm (lines 103-105) never fires. */
  method StringCosine(s1: string, s2: string, k: int) returns (r: Similarity)
    ensures r.ErrEmptyVector? <==> s1 == "" || s2 == ""
    ensures r.OutOfRange? <==> s1 != "" && s2 != "" && k < 0
    ensures r.ErrZeroVector? <==> s1 != "" && s2 != "" && k >= 0 && (|Collapse(s1)| < k || |Collapse(s2)| < k)
    ensures r.Cosine? ==> r.squaredNorm1 > 0 && r.squaredNorm2 > 0 && Schwarz(r.dot, r.squaredNorm1, r.squaredNorm2)
    ensures r.Cosine? ==> r.dot == JointSum(s1, s2, k)
    ensures r.Cosine? ==> r.squaredNorm1 == JointSum(s1, s1, k) && r.squaredNorm2 == JointSum(s2, s2, k)
    ensures r.Cosine? && s1 == s2 ==> r.dot == r.squaredNorm1 == r.squaredNorm2
  {
    if s1 == "" || s2 == "" {
      return ErrEmptyVector;
    }
    var profile1, thrown1 := GetProfile(s1, k);
    if thrown1 {
      return OutOfRange;
    }
    var profile2, thrown2 := GetProfile(s2, k);
    NoProfile(profile1, |Collapse(s1)|, k);
    NoProfile(profile2, |Collapse(s2)|, k);
    if profile1 == map[] || profile2 == map[] {
      return ErrZeroVector;
    }
    var dot := DotProduct(profile1, profile2);
    var norm1 := NormSquared(profile1);
    var norm2 := NormSquared(profile2);
    DotIsJointSum(profile1, profile2, s1, s2, k);
    NormIsJointSum(profile1, s1, k);
    NormIsJointSum(profile2, s2, k);
    PositiveNorm(profile1);
    PositiveNorm(profile2);
    CauchySchwarz(profile1, profile2);
    r := Cosine(dot, norm1, norm2);
  }

  lemma NoProfile(m: Profile, length: nat, k: nat)
    requires Total(m.Keys, Count(m)) == Windows(length, k) && forall g :: g in m ==> m[g] > 0
    ensures m == map[] <==> length < k
  {
    if g :| g in m {
      TotalRemove(m.Keys, Count(m), g);
    } else {
      assert m.Keys == {};
    }
  }

  /** With any exact square roots, the cosine lies in [0, 1]. */
  lemma CosineInUnitInterval(dot: nat, p: nat, q: nat, r1: real, r2: real)
    requires p > 0 && q > 0 && Schwarz(dot, p, q)
    requires r1 >= 0.0 && r2 >= 0.0 && r1 * r1 == p as real && r2 * r2 == q as real
    ensures r1 * r2 > 0.0 && 0.0 <= dot as real / (r1 * r2) <= 1.0
  {
    var d, n := dot as real, r1 * r2;
    assert r1 > 0.0 && r2 > 0.0;
    assert n > 0.0;
    assert n * n == (p * q) as real by {
      assert n * n == (r1 * r1) * (r2 * r2);
      assert (p * q) as real == p as real * q as real;
    }
    assert d * d <= n * n by {
      assert d * d == (dot * dot) as real;
    }
    assert d <= n by {
      RealRoot(d, n);
    }
    Quotient(d, n);
  }

  lemma RealRoot(d: real, n: real)
    requires 0.0 <= d && 0.0 < n && d * d <= n * n
    ensures d <= n
  {
    assert d > n ==> d * d > d * n;
  }

  lemma Quotient(d: real, n: real)
    requires 0.0 <= d <= n && 0.0 < n
    ensures 0.0 <= d / n <= 1.0
  {
    var x := d / n;
    assert x * n == d;
  }
}
