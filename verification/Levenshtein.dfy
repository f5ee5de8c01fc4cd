/** levenshtein_distance and string_levenshtein of src/utils/similarity.cpp. */
module Levenshtein {

  function Min(a: nat, b: nat): nat {
    if a <= b then a else b
  }

  function Cost(x: char, y: char): nat {
    if x == y then 0 else 1
  }

  function Init(s: string): string
    requires s != ""
  {
    s[..|s| - 1]
  }

  function Last(s: string): char
    requires s != ""
  {
    s[|s| - 1]
  }

  /** The recurrence behind the table. */
  function Distance(a: string, b: string): nat
    decreases |a| + |b|
  {
    if a == "" then |b|
    else if b == "" then |a|
    else Min(Distance(Init(a), Init(b)) + Cost(Last(a), Last(b)),
             Min(Distance(Init(a), b) + 1, Distance(a, Init(b)) + 1))
  }

  // ---------- the table ----------

  /** What belongs into cell (i, j): the distance of the prefixes. */
  ghost function Cell(s1: string, s2: string, i: nat, j: nat): nat
    requires i <= |s1| && j <= |s2|
  {
    Distance(s1[..i], s2[..j])
  }

  ghost predicate RowsDone(dp: array2<int>, s1: string, s2: string, rows: nat)
    requires dp.Length0 == |s1| + 1 && dp.Length1 == |s2| + 1 && rows <= |s1| + 1
    reads dp
  {
    forall p, q :: 0 <= p < rows && 0 <= q <= |s2| ==> dp[p, q] == Cell(s1, s2, p, q)
  }

  /** The inner loop (lines 19-28). */
  method FillRow(dp: array2<int>, s1: string, s2: string, i: nat)
    requires dp.Length0 == |s1| + 1 && dp.Length1 == |s2| + 1 && i <= |s1|
    requires RowsDone(dp, s1, s2, i)
    modifies dp
    ensures RowsDone(dp, s1, s2, i + 1)
  {
    for j := 0 to |s2| + 1
      invariant RowsDone(dp, s1, s2, i)
      invariant forall q :: 0 <= q < j ==> dp[i, q] == Cell(s1, s2, i, q)
    {
      CellRecurrence(s1, s2, i, j);
      if i == 0 {
        dp[i, j] := j;
      } else if j == 0 {
        dp[i, j] := i;
      } else {
        dp[i, j] := MinOfThree(dp[i - 1, j - 1] + (if s1[i - 1] != s2[j - 1] then 1 else 0), dp[i - 1, j] + 1,
          dp[i, j - 1] + 1);
      }
    }
  }

  lemma CellRecurrence(s1: string, s2: string, i: nat, j: nat)
    requires i <= |s1| && j <= |s2|
    ensures i == 0 ==> Cell(s1, s2, i, j) == j
    ensures j == 0 ==> Cell(s1, s2, i, j) == i
    ensures i > 0 && j > 0 ==>
      Cell(s1, s2, i, j) == MinOfThree(Cell(s1, s2, i - 1, j - 1) + (if s1[i - 1] != s2[j - 1] then 1 else 0),
                                       Cell(s1, s2, i - 1, j) + 1, Cell(s1, s2, i, j - 1) + 1)
  {
    if i > 0 && j > 0 {
      assert Init(s1[..i]) == s1[..i - 1] && Init(s2[..j]) == s2[..j - 1];
    }
  }

  /** levenshtein_distance (lines 14-32). */
  method LevenshteinDistance(s1: string, s2: string) returns (distance: int)
    ensures distance == Distance(s1, s2)
  {
    var dp := new int[|s1| + 1, |s2| + 1];
    for i := 0 to |s1| + 1
      invariant RowsDone(dp, s1, s2, i)
    {
      FillRow(dp, s1, s2, i);
    }
    assert s1[..|s1|] == s1 && s2[..|s2|] == s2;
    return dp[|s1|, |s2|];
  }

  function MinOfThree(a: int, b: int, c: int): int {
    var m := if b <= c then b else c;
    if a <= m then a else m
  }

  // ---------- edit scripts ----------

  /** One pass over the source string, from its end: keep or replace a character, drop it, or insert one. */
  datatype Edit = Keep | Replace(c: char) | Delete | Insert(c: char)

  /** The string the script makes out of a, if it fits a. Edits apply from the last character to the first. */
  datatype Outcome = Fits(text: string) | Misfit

  function Run(script: seq<Edit>, a: string): Outcome {
    if script == [] then (if a == "" then Fits("") else Misfit)
    else
      var rest := script[1..];
      match script[0]
      case Keep => if a == "" then Misfit else Append(Run(rest, Init(a)), Last(a))
      case Replace(c) => if a == "" then Misfit else Append(Run(rest, Init(a)), c)
      case Delete => if a == "" then Misfit else Run(rest, Init(a))
      case Insert(c) => Append(Run(rest, a), c)
  }

  function Append(o: Outcome, c: char): Outcome {
    if o.Fits? then Fits(o.text + [c]) else Misfit
  }

  function ScriptCost(script: seq<Edit>): nat {
    if script == [] then 0 else (if script[0].Keep? then 0 else 1) + ScriptCost(script[1..])
  }

  lemma AppendedLast(t: string, c: char)
    ensures Init(t + [c]) == t && Last(t + [c]) == c
  {
  }

  lemma StepBounds(a: string, b: string)
    ensures a != "" ==> Distance(a, b) <= Distance(Init(a), b) + 1
    ensures b != "" ==> Distance(a, b) <= Distance(a, Init(b)) + 1
    ensures a != "" && b != "" ==> Distance(a, b) <= Distance(Init(a), Init(b)) + Cost(Last(a), Last(b))
  {
  }

  /** No script is cheaper than the distance. */
  lemma {:induction false} ScriptIsNoCheaper(script: seq<Edit>, a: string, b: string)
    requires Run(script, a) == Fits(b)
    ensures Distance(a, b) <= ScriptCost(script)
    decreases |script|
  {
    if script != [] {
      var rest := script[1..];
      StepBounds(a, b);
      match script[0]
      case Keep =>
        var t := Run(rest, Init(a)).text;
        AppendedLast(t, Last(a));
        ScriptIsNoCheaper(rest, Init(a), t);
      case Replace(c) =>
        var t := Run(rest, Init(a)).text;
        AppendedLast(t, c);
        ScriptIsNoCheaper(rest, Init(a), t);
      case Delete =>
        ScriptIsNoCheaper(rest, Init(a), b);
      case Insert(c) =>
        var t := Run(rest, a).text;
        AppendedLast(t, c);
        ScriptIsNoCheaper(rest, a, t);
    }
  }

  /** Some script costs exactly the distance. */
  lemma {:induction false} BestScript(a: string, b: string) returns (script: seq<Edit>)
    ensures Run(script, a) == Fits(b) && ScriptCost(script) == Distance(a, b)
    decreases |a| + |b|
  {
    if a == "" && b == "" {
      script := [];
    } else if a == "" || (b != "" && Distance(a, b) == Distance(a, Init(b)) + 1) {
      var rest := BestScript(a, Init(b));
      script := [Insert(Last(b))] + rest;
      assert script[1..] == rest;
      assert b == Init(b) + [Last(b)];
    } else if b == "" || Distance(a, b) == Distance(Init(a), b) + 1 {
      var rest := BestScript(Init(a), b);
      script := [Delete] + rest;
      assert script[1..] == rest;
    } else {
      var rest := BestScript(Init(a), Init(b));
      script := [if Last(a) == Last(b) then Keep else Replace(Last(b))] + rest;
      assert script[1..] == rest;
      assert b == Init(b) + [Last(b)];
    }
  }

  /** The distance is the least cost over all edit scripts. */
  lemma DistanceIsMinimal(a: string, b: string)
    ensures exists script :: Run(script, a) == Fits(b) && ScriptCost(script) == Distance(a, b)
    ensures forall script :: Run(script, a) == Fits(b) ==> Distance(a, b) <= ScriptCost(script)
  {
    var best := BestScript(a, b);
    forall script | Run(script, a) == Fits(b) ensures Distance(a, b) <= ScriptCost(script) {
      ScriptIsNoCheaper(script, a, b);
    }
  }

  // ---------- metric laws ----------

  lemma {:induction false} Symmetric(a: string, b: string)
    ensures Distance(a, b) == Distance(b, a)
    decreases |a| + |b|
  {
    if a != "" && b != "" {
      Symmetric(Init(a), Init(b));
      Symmetric(Init(a), b);
      Symmetric(a, Init(b));
    }
  }

  lemma {:induction false} ZeroIffEqual(a: string, b: string)
    ensures Distance(a, b) == 0 <==> a == b
    decreases |a| + |b|
  {
    if a != "" && b != "" {
      ZeroIffEqual(Init(a), Init(b));
      assert a == Init(a) + [Last(a)] && b == Init(b) + [Last(b)];
    }
  }

  lemma {:induction false} AtMostLonger(a: string, b: string)
    ensures Distance(a, b) <= if |a| >= |b| then |a| else |b|
    ensures Distance(a, b) >= if |a| >= |b| then |a| - |b| else |b| - |a|
    decreases |a| + |b|
  {
    if a != "" && b != "" {
      AtMostLonger(Init(a), Init(b));
      AtMostLonger(Init(a), b);
      AtMostLonger(a, Init(b));
    }
  }

  lemma {:induction false} Triangle(a: string, b: string, c: string)
    ensures Distance(a, c) <= Distance(a, b) + Distance(b, c)
    decreases |a| + |b| + |c|
  {
    StepBounds(a, c);
    if a == "" {
      AtMostLonger(b, c);
    } else if c == "" {
      AtMostLonger(a, b);
    } else if b == "" {
      AtMostLonger(a, c);
    } else {
      Triangle(Init(a), b, c);
      Triangle(a, b, Init(c));
      Triangle(a, Init(b), c);
      Triangle(Init(a), Init(b), c);
      Triangle(a, Init(b), Init(c));
      Triangle(Init(a), Init(b), Init(c));
    }
  }

  // ---------- the similarity ----------

  datatype Similarity = Score(value: real) | NotANumber

  function Longer(s1: string, s2: string): nat {
    if |s1| >= |s2| then |s1| else |s2|
  }

  /** 1 - d / n over exact reals; 0 / 0 is not a number. */
  function Ratio(d: nat, n: nat): Similarity {
    if n == 0 then NotANumber else Score(1.0 - d as real / n as real)
  }

  /** string_levenshtein (lines 76-79). */
  method StringLevenshtein(s1: string, s2: string) returns (r: Similarity)
    ensures r == Ratio(Distance(s1, s2), Longer(s1, s2))
  {
    var distance := LevenshteinDistance(s1, s2);
    var longer := if |s1| >= |s2| then |s1| else |s2|;
    r := if longer == 0 then NotANumber else Score(1.0 - distance as real / longer as real);
  }

  lemma RatioBounds(d: nat, n: nat)
    requires d <= n && n > 0
    ensures 0.0 <= Ratio(d, n).value <= 1.0
    ensures Ratio(d, n).value == 1.0 <==> d == 0
    ensures Ratio(d, n).value == 0.0 <==> d == n
  {
    var q := d as real / n as real;
    assert q * n as real == d as real;
  }

  /** The similarity is a number in [0, 1] unless both strings are empty, and 1 exactly on equal strings. */
  lemma SimilarityBounds(s1: string, s2: string)
    ensures Ratio(Distance(s1, s2), Longer(s1, s2)).NotANumber? <==> s1 == "" && s2 == ""
    ensures s1 != "" || s2 != "" ==>
      0.0 <= Ratio(Distance(s1, s2), Longer(s1, s2)).value <= 1.0 &&
      (Ratio(Distance(s1, s2), Longer(s1, s2)).value == 1.0 <==> s1 == s2)
  {
    if s1 != "" || s2 != "" {
      AtMostLonger(s1, s2);
      ZeroIffEqual(s1, s2);
      RatioBounds(Distance(s1, s2), Longer(s1, s2));
    }
  }
}
