/** How SHA1::final prints its five words: std::hex, std::setfill('0'), std::setw(8). */
module HexPrint {
  import opened Sha1Spec

  function HexChar(d: nat): char
    requires d < 16
  {
    "0123456789abcdef"[d]
  }

  /** std::hex without padding. */
  function HexDigits(n: nat): string {
    if n < 16 then [HexChar(n)] else HexDigits(n / 16) + [HexChar(n % 16)]
  }

  /** std::setfill('0') and std::setw(8). */
  function PadLeft(s: string): string {
    if |s| >= 8 then s else seq(8 - |s|, _ => '0') + s
  }

  function HexWord(w: Word): string {
    PadLeft(HexDigits(w as nat))
  }

  function HexWords(ws: seq<Word>): string {
    if ws == [] then "" else HexWords(ws[..|ws| - 1]) + HexWord(ws[|ws| - 1])
  }

  function HexDigest(v: Vars): string {
    HexWords([v.a, v.b, v.c, v.d, v.e])
  }

  function DigitValue(c: char): nat {
    if '0' <= c <= '9' then c as nat - '0' as nat else if 'a' <= c <= 'f' then c as nat - 'a' as nat + 10 else 0
  }

  /** Reading a hexadecimal number. */
  function HexValue(s: string): nat {
    if s == "" then 0 else 16 * HexValue(s[..|s| - 1]) + DigitValue(s[|s| - 1])
  }

  lemma HexCharValue(d: nat)
    requires d < 16
    ensures DigitValue(HexChar(d)) == d
  {
  }

  lemma {:induction false} HexDigitsValue(n: nat)
    ensures HexValue(HexDigits(n)) == n
  {
    HexCharValue(n % 16);
    if n >= 16 {
      HexDigitsValue(n / 16);
      var s := HexDigits(n / 16);
      assert (s + [HexChar(n % 16)])[..|s|] == s;
    } else {
      assert [HexChar(n)][..0] == "";
    }
  }

  lemma {:induction false} LeadingZeros(k: nat, s: string)
    ensures HexValue(seq(k, _ => '0') + s) == HexValue(s)
  {
    var z := seq(k, _ => '0');
    if s == "" {
      if k > 0 {
        LeadingZeros(k - 1, s);
        assert (z + s)[..k - 1] == seq(k - 1, _ => '0') + s;
      }
    } else {
      LeadingZeros(k, s[..|s| - 1]);
      assert (z + s)[..|z + s| - 1] == z + s[..|s| - 1];
    }
  }

  function Power16(k: nat): nat {
    if k == 0 then 1 else 16 * Power16(k - 1)
  }

  lemma {:induction false} DigitCount(n: nat, digits: nat)
    requires digits > 0 && n < Power16(digits)
    ensures |HexDigits(n)| <= digits
  {
    if n >= 16 {
      DigitCount(n / 16, digits - 1);
    }
  }

  /** Eight digits are always enough, and they can be read back. */
  lemma HexWordReadsBack(w: Word)
    ensures |HexWord(w)| == 8 && HexValue(HexWord(w)) == w as nat
  {
    var n := w as nat;
    assert Power16(8) == TWO_TO_THE_32;
    DigitCount(n, 8);
    HexDigitsValue(n);
    LeadingZeros(8 - |HexDigits(n)|, HexDigits(n));
  }

  lemma HexWordsNext(ws: seq<Word>, w: Word)
    ensures HexWords(ws + [w]) == HexWords(ws) + HexWord(w)
  {
    assert (ws + [w])[..|ws|] == ws;
  }

  lemma FiveWords(v: Vars)
    ensures HexDigest(v) == HexWord(v.a) + HexWord(v.b) + HexWord(v.c) + HexWord(v.d) + HexWord(v.e)
  {
    assert HexWords([v.a]) == HexWord(v.a) by {
      HexWordsNext([], v.a);
      assert [] + [v.a] == [v.a];
    }
    HexWordsNext([v.a], v.b);
    assert [v.a] + [v.b] == [v.a, v.b];
    HexWordsNext([v.a, v.b], v.c);
    assert [v.a, v.b] + [v.c] == [v.a, v.b, v.c];
    HexWordsNext([v.a, v.b, v.c], v.d);
    assert [v.a, v.b, v.c] + [v.d] == [v.a, v.b, v.c, v.d];
    HexWordsNext([v.a, v.b, v.c, v.d], v.e);
    assert [v.a, v.b, v.c, v.d] + [v.e] == [v.a, v.b, v.c, v.d, v.e];
  }

  lemma FiveSlices(a: string, b: string, c: string, d: string, e: string)
    requires |a| == |b| == |c| == |d| == |e| == 8
    ensures var s := a + b + c + d + e;
      |s| == 40 && s[0..8] == a && s[8..16] == b && s[16..24] == c && s[24..32] == d && s[32..40] == e
  {
  }

  /** Digits 8i to 8i + 7 of a printed digest are those of its i-th word. */
  lemma HexDigestReadsBack(v: Vars)
    ensures var s := HexDigest(v);
      |s| == 40 && HexValue(s[0..8]) == v.a as nat && HexValue(s[8..16]) == v.b as nat &&
      HexValue(s[16..24]) == v.c as nat && HexValue(s[24..32]) == v.d as nat && HexValue(s[32..40]) == v.e as nat
  {
    FiveWords(v);
    HexWordReadsBack(v.a);
    HexWordReadsBack(v.b);
    HexWordReadsBack(v.c);
    HexWordReadsBack(v.d);
    HexWordReadsBack(v.e);
    FiveSlices(HexWord(v.a), HexWord(v.b), HexWord(v.c), HexWord(v.d), HexWord(v.e));
  }
}
