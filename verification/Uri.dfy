/** URIs: percent-encoding, printing and parsing (src/lsp/uri.cpp; sections 2.1 and 3 of RFC 3986).
    Strings are byte strings; the path rules are those of a POSIX build. */
module Uri {
  import opened Strings

  type Byte = c: char | c as int < 256
  type Bytes = seq<Byte>

  datatype URI = URI(scheme: Bytes, authority: Bytes, body: Bytes)

  /** What parse does: a URI, no URI, or the std::out_of_range thrown by substr(npos). */
  datatype Outcome = Parsed(uri: URI) | NotAUri | OutOfRange

  // ---------- hex digits (include/mergebot/utils/stringop.h) ----------

  /** hexdigit. */
  function HexDigit(x: nat): Byte
    requires x < 16
  {
    "0123456789ABCDEF"[x]
  }

  /** hexDigitValue; 16 stands for the -1 of the table. */
  function HexValue(c: Byte): (v: nat)
    ensures v <= 16
  {
    if '0' <= c <= '9' then c as int - '0' as int
    else if 'A' <= c <= 'F' then c as int - 'A' as int + 10
    else if 'a' <= c <= 'f' then c as int - 'a' as int + 10
    else 16
  }

  predicate IsHexDigit(c: Byte) {
    HexValue(c) < 16
  }

  function FromNibbles(high: Byte, low: Byte): (c: Byte)
    requires IsHexDigit(high) && IsHexDigit(low)
  {
    (HexValue(high) * 16 + HexValue(low)) as char
  }

  lemma NibblesReadBack(c: Byte)
    ensures var high, low := HexDigit(c as int / 16), HexDigit(c as int % 16);
      IsHexDigit(high) && IsHexDigit(low) && FromNibbles(high, low) == c
  {
    DigitReadsBack(c as int / 16);
    DigitReadsBack(c as int % 16);
  }

  lemma DigitReadsBack(x: nat)
    requires x < 16
    ensures HexValue(HexDigit(x)) == x
  {
    var c := HexDigit(x);
    assert c == if x < 10 then ('0' as int + x) as char else ('A' as int + x - 10) as char;
  }

  /** Both cases of the digits are read, and nothing else. */
  lemma HexDigitsAreRead(c: Byte, k: nat)
    requires k < 16
    ensures HexValue("0123456789ABCDEF"[k]) == k && HexValue("0123456789abcdef"[k]) == k
    ensures IsHexDigit(c) <==> c in "0123456789ABCDEFabcdef"
  {
    DigitReadsBack(k);
    LowerDigitReadsBack(k);
    if IsHexDigit(c) {
      HexDigitIsListed(c);
    }
  }

  lemma LowerDigitReadsBack(k: nat)
    requires k < 16
    ensures HexValue("0123456789abcdef"[k]) == k
  {
    var c := "0123456789abcdef"[k];
    assert c == if k < 10 then ('0' as int + k) as char else ('a' as int + k - 10) as char;
  }

  lemma HexDigitIsListed(c: Byte)
    requires IsHexDigit(c)
    ensures c in "0123456789ABCDEFabcdef"
  {
    var all, k := "0123456789ABCDEFabcdef", HexValue(c);
    if 'a' <= c <= 'f' {
      assert all[k + 6] == c;
    } else {
      assert all[k] == c;
    }
  }

  // ---------- percent-encoding ----------

  predicate IsAlpha(c: Byte) {
    'a' <= c <= 'z' || 'A' <= c <= 'Z'
  }

  predicate ShouldEscape(c: Byte) {
    !(IsAlpha(c) || IsDigit(c) || c in "-_.~/:")
  }

  function EncodeByte(c: Byte): Bytes {
    if ShouldEscape(c) then ['%', HexDigit(c as int / 16), HexDigit(c as int % 16)] else [c]
  }

  function Encode(s: Bytes): Bytes {
    if s == [] then [] else EncodeByte(s[0]) + Encode(s[1..])
  }

  predicate Escaped(s: Bytes) {
    |s| >= 3 && s[0] == '%' && IsHexDigit(s[1]) && IsHexDigit(s[2])
  }

  function Decode(s: Bytes): Bytes {
    if s == [] then []
    else if Escaped(s) then [FromNibbles(s[1], s[2])] + Decode(s[3..])
    else [s[0]] + Decode(s[1..])
  }

  lemma {:induction false} EncodeConcat(a: Bytes, b: Bytes)
    ensures Encode(a + b) == Encode(a) + Encode(b)
  {
    if a == [] {
      assert a + b == b;
    } else {
      EncodeConcat(a[1..], b);
      assert (a + b)[0] == a[0] && (a + b)[1..] == a[1..] + b;
      Assoc(EncodeByte(a[0]), Encode(a[1..]), Encode(b));
    }
  }

  lemma Assoc(a: Bytes, b: Bytes, c: Bytes)
    ensures a + b + c == a + (b + c)
  {
  }

  lemma {:induction false} DecodeConcat(c: Byte, rest: Bytes)
    ensures Decode(EncodeByte(c) + rest) == [c] + Decode(rest)
  {
    var s := EncodeByte(c) + rest;
    if ShouldEscape(c) {
      NibblesReadBack(c);
      assert Escaped(s) && s[3..] == rest;
    } else {
      assert s[0] == c && s[1..] == rest;
    }
  }

  /** percentDecode undoes percentEncode on every byte string. */
  lemma {:induction false} DecodeEncode(s: Bytes)
    ensures Decode(Encode(s)) == s
  {
    if s != [] {
      DecodeEncode(s[1..]);
      DecodeConcat(s[0], Encode(s[1..]));
    }
  }

  /** A percent sign with two hexadecimal digits is read as their byte; any other character stays. */
  lemma DecodeStarts(c: Byte, rest: Bytes)
    ensures c == '%' && |rest| >= 2 && rest[0] in "0123456789ABCDEFabcdef" && rest[1] in "0123456789ABCDEFabcdef" ==>
      Decode([c] + rest) == [(HexValue(rest[0]) * 16 + HexValue(rest[1])) as char] + Decode(rest[2..])
    ensures c != '%' || |rest| < 2 || rest[0] !in "0123456789ABCDEFabcdef" || rest[1] !in "0123456789ABCDEFabcdef" ==>
      Decode([c] + rest) == [c] + Decode(rest)
  {
    var s := [c] + rest;
    assert s[1..] == rest && (|s| >= 3 ==> s[3..] == rest[2..]);
    if |rest| >= 2 {
      HexDigitsAreRead(rest[0], 0);
      HexDigitsAreRead(rest[1], 0);
    }
  }

  ghost predicate Splits(done: Bytes, todo: Bytes, all: Bytes) {
    done + todo == all
  }

  lemma Advance(done: Bytes, x: Bytes, todo: Bytes, all: Bytes)
    requires Splits(done, x + todo, all)
    ensures Splits(done + x, todo, all)
  {
    assert done + (x + todo) == done + x + todo;
  }

  /** percentEncode (lines 143-152): appends to out. */
  method PercentEncode(content: Bytes, out: Bytes) returns (out': Bytes)
    ensures out' == out + Encode(content)
  {
    out' := out;
    for i := 0 to |content|
      invariant Splits(out', Encode(content[i..]), out + Encode(content))
    {
      var c := content[i];
      EncodeStep(content, i, out', out + Encode(content));
      if ShouldEscape(c) {
        out' := out' + ['%', HexDigit(c as int / 16), HexDigit(c as int % 16)];
      } else {
        out' := out' + [c];
      }
    }
  }

  lemma EncodeStep(content: Bytes, i: nat, out: Bytes, all: Bytes)
    requires i < |content| && Splits(out, Encode(content[i..]), all)
    ensures Splits(out + EncodeByte(content[i]), Encode(content[i + 1..]), all)
  {
    var rest := content[i..];
    assert rest[0] == content[i] && rest[1..] == content[i + 1..];
    Advance(out, EncodeByte(content[i]), Encode(content[i + 1..]), all);
  }

  /** percentDecode (lines 190-206). */
  method PercentDecode(content: Bytes) returns (out: Bytes)
    ensures out == Decode(content)
  {
    out := [];
    var i := 0;
    while i < |content|
      invariant i <= |content| && Splits(out, Decode(content[i..]), Decode(content))
    {
      DecodeStep(content, i, out, Decode(content));
      if content[i] != '%' {
        out := out + [content[i]];
        i := i + 1;
      } else if EscapedAt(content, i) {
        out := out + [FromNibbles(content[i + 1], content[i + 2])];
        i := i + 3;
      } else {
        out := out + [content[i]];
        i := i + 1;
      }
    }
  }

  predicate EscapedAt(content: Bytes, i: nat)
    requires i < |content|
  {
    content[i] == '%' && i + 2 < |content| && IsHexDigit(content[i + 1]) && IsHexDigit(content[i + 2])
  }

  lemma DecodeStep(content: Bytes, i: nat, out: Bytes, all: Bytes)
    requires i < |content| && Splits(out, Decode(content[i..]), all)
    ensures if EscapedAt(content, i)
      then Splits(out + [FromNibbles(content[i + 1], content[i + 2])], Decode(content[i + 3..]), all)
      else Splits(out + [content[i]], Decode(content[i + 1..]), all)
  {
    var rest := content[i..];
    if EscapedAt(content, i) {
      assert rest[1] == content[i + 1] && rest[2] == content[i + 2] && rest[3..] == content[i + 3..];
      Advance(out, [FromNibbles(content[i + 1], content[i + 2])], Decode(content[i + 3..]), all);
    } else {
      assert rest[0] == content[i] && rest[1..] == content[i + 1..];
      assert !Escaped(rest);
      Advance(out, [content[i]], Decode(content[i + 1..]), all);
    }
  }

  // ---------- printing and parsing ----------

  predicate IsValidScheme(scheme: Bytes) {
    scheme != [] && IsAlpha(scheme[0]) &&
    forall k :: 1 <= k < |scheme| ==> IsAlpha(scheme[k]) || IsDigit(scheme[k]) || scheme[k] in "+.-"
  }

  /** URI::toString (lines 129-142). */
  function ToString(u: URI): Bytes {
    var out := Encode(u.scheme) + [':'];
    if u.authority == [] && u.body == [] then out
    else if u.authority != [] || StartsWith(u.body, ['/']) then out + ['/', '/'] + Encode(u.authority) + Encode(u.body)
    else out + Encode(u.body)
  }

  /** URI::parse (lines 208-229). */
  function Parse(text: Bytes): Outcome {
    var pos := Find(text, ':');
    if pos == |text| || !IsValidScheme(Decode(text[..pos])) then NotAUri
    else ParseRest(Decode(text[..pos]), text[pos + 1..])
  }

  /** What follows the colon. */
  function ParseRest(scheme: Bytes, rest: Bytes): Outcome {
    if StartsWith(rest, ['/', '/']) then ParseAuthority(scheme, rest[2..]) else Parsed(URI(scheme, [], Decode(rest)))
  }

  function ParseAuthority(scheme: Bytes, text: Bytes): Outcome {
    var slash := Find(text, '/');
    if slash == |text| then OutOfRange else Parsed(URI(scheme, Decode(text[..slash]), Decode(text[slash..])))
  }

  /** The same grammar on text that is not percent-encoded. */
  ghost function ParseRaw(text: Bytes): Outcome {
    var pos := Find(text, ':');
    if pos == |text| || !IsValidScheme(text[..pos]) then NotAUri else RawRest(text[..pos], text[pos + 1..])
  }

  ghost function RawRest(scheme: Bytes, rest: Bytes): Outcome {
    if StartsWith(rest, ['/', '/']) then RawAuthority(scheme, rest[2..]) else Parsed(URI(scheme, [], rest))
  }

  ghost function RawAuthority(scheme: Bytes, text: Bytes): Outcome {
    var slash := Find(text, '/');
    if slash == |text| then OutOfRange else Parsed(URI(scheme, text[..slash], text[slash..]))
  }

  ghost function Raw(u: URI): Bytes {
    u.scheme + [':'] + (if u.authority != [] || StartsWith(u.body, ['/']) then ['/', '/'] else []) +
    u.authority + u.body
  }

  lemma EncodeFive(a: Bytes, b: Bytes, c: Bytes, d: Bytes, e: Bytes)
    ensures Encode(a + b + c + d + e) == Encode(a) + Encode(b) + Encode(c) + Encode(d) + Encode(e)
  {
    EncodeConcat(a + b + c + d, e);
    EncodeConcat(a + b + c, d);
    EncodeConcat(a + b, c);
    EncodeConcat(a, b);
  }

  lemma RawPrints(u: URI)
    ensures ToString(u) == Encode(Raw(u))
  {
    var slashes: Bytes := if u.authority != [] || StartsWith(u.body, ['/']) then ['/', '/'] else [];
    EncodeFive(u.scheme, [':'], slashes, u.authority, u.body);
    PlainPrintsItself();
  }

  lemma PlainPrintsItself()
    ensures Encode([]) == [] && Encode([':']) == [':'] && Encode(['/', '/']) == ['/', '/']
  {
    assert Encode([':']) == [':'] + Encode([]);
    var slashes: Bytes := ['/', '/'];
    assert slashes[1..] == ['/'] && Encode(['/']) == ['/'] + Encode([]);
  }

  predicate Delimiter(c: Byte) {
    c == ':' || c == '/'
  }

  lemma HexDigitIsNoDelimiter(x: nat)
    requires x < 16
    ensures !Delimiter(HexDigit(x))
  {
    DigitReadsBack(x);
  }

  lemma {:induction false} EncodeAddsNoDelimiter(s: Bytes, c: Byte)
    requires Delimiter(c) && c !in s
    ensures c !in Encode(s)
  {
    if s != [] {
      EncodeAddsNoDelimiter(s[1..], c);
      HexDigitIsNoDelimiter(s[0] as int / 16);
      HexDigitIsNoDelimiter(s[0] as int % 16);
    }
  }

  /** A delimiter is found where it was. */
  lemma FindEncoded(s: Bytes, c: Byte)
    requires Delimiter(c)
    ensures Find(Encode(s), c) == |Encode(s[..Find(s, c)])|
  {
    var i := Find(s, c);
    EncodeParts(s, i);
    EncodeAddsNoDelimiter(s[..i], c);
    if i < |s| {
      FindBetween(Encode(s[..i]), c, Encode(s[i + 1..]));
    } else {
      FirstAt(Encode(s), c, |Encode(s)|);
    }
  }

  lemma EncodeParts(s: Bytes, i: nat)
    requires i <= |s| && (i < |s| ==> Delimiter(s[i]))
    ensures i == |s| ==> Encode(s) == Encode(s[..i])
    ensures i < |s| ==> Encode(s) == Encode(s[..i]) + ([s[i]] + Encode(s[i + 1..]))
    ensures i < |s| ==> Encode(s[i..]) == [s[i]] + Encode(s[i + 1..])
  {
    EncodeConcat(s[..i], s[i..]);
    assert s[..i] + s[i..] == s;
    if i < |s| {
      assert s[i..][0] == s[i] && s[i..][1..] == s[i + 1..];
    }
  }

  /** And it cuts the text where it did. */
  lemma EncodeCut(s: Bytes, i: nat)
    requires i <= |s| && (i < |s| ==> Delimiter(s[i]))
    ensures var j := |Encode(s[..i])|;
      j <= |Encode(s)| && (j == |Encode(s)| <==> i == |s|) &&
      Encode(s)[..j] == Encode(s[..i]) && Encode(s)[j..] == Encode(s[i..]) &&
      (i < |s| ==> Encode(s)[j + 1..] == Encode(s[i + 1..]))
  {
    EncodeParts(s, i);
    var t := Encode(s[..i]);
    if i < |s| {
      SlicesOf(t, s[i], Encode(s[i + 1..]));
    } else {
      assert Encode(s)[|t|..] == [];
    }
  }

  lemma SlicesOf(a: Bytes, c: Byte, b: Bytes)
    ensures var t := a + ([c] + b); t[..|a|] == a && t[|a|..] == [c] + b && t[|a| + 1..] == b
  {
  }

  lemma FindBetween(a: Bytes, c: Byte, b: Bytes)
    requires c !in a
    ensures Find(a + ([c] + b), c) == |a|
  {
    var t := a + ([c] + b);
    assert t[..|a|] == a;
    FirstAt(t, c, |a|);
  }

  lemma FirstAt(s: Bytes, c: Byte, i: nat)
    requires i <= |s| && c !in s[..i] && (i < |s| ==> s[i] == c)
    ensures Find(s, c) == i
  {
    assert forall k :: 0 <= k < i ==> s[k] == s[..i][k];
    FindIs(s, c, i);
  }

  lemma StartsWithSlashesEncoded(s: Bytes)
    ensures StartsWith(Encode(s), ['/', '/']) <==> StartsWith(s, ['/', '/'])
    ensures StartsWith(s, ['/', '/']) ==> Encode(s)[2..] == Encode(s[2..])
  {
    if s != [] && s[0] == '/' {
      var t := s[1..];
      assert Encode(s) == ['/'] + Encode(t);
      if t != [] && t[0] == '/' {
        assert Encode(t) == ['/'] + Encode(t[1..]) && t[1..] == s[2..];
      } else if t != [] {
        assert Encode(t)[0] == EncodeByte(t[0])[0] != '/';
      }
    } else if s != [] {
      assert Encode(s)[0] == EncodeByte(s[0])[0] != '/';
    }
  }

  lemma AuthorityEncoded(scheme: Bytes, text: Bytes)
    ensures ParseAuthority(scheme, Encode(text)) == RawAuthority(scheme, text)
  {
    var slash, t := Find(text, '/'), Encode(text);
    var j := CutEncoded(text, '/');
    if slash < |text| {
      DecodeEncode(text[..slash]);
      DecodeEncode(text[slash..]);
      AuthorityIs(scheme, t, j, text[..slash], text[slash..]);
    }
  }

  lemma AuthorityIs(scheme: Bytes, t: Bytes, j: nat, authority: Bytes, body: Bytes)
    requires j == Find(t, '/') < |t| && Decode(t[..j]) == authority && Decode(t[j..]) == body
    ensures ParseAuthority(scheme, t) == Parsed(URI(scheme, authority, body))
  {
  }

  lemma SchemeIs(t: Bytes, j: nat, scheme: Bytes, rest: Bytes)
    requires j == Find(t, ':') < |t| && Decode(t[..j]) == scheme && t[j + 1..] == rest
    ensures Parse(t) == if IsValidScheme(scheme) then ParseRest(scheme, rest) else NotAUri
  {
  }

  /** Where the encoded text is cut, and into what. */
  lemma CutEncoded(s: Bytes, c: Byte) returns (j: nat)
    requires Delimiter(c)
    ensures j == Find(Encode(s), c) <= |Encode(s)| && (j == |Encode(s)| <==> Find(s, c) == |s|)
    ensures Encode(s)[..j] == Encode(s[..Find(s, c)]) && Encode(s)[j..] == Encode(s[Find(s, c)..])
    ensures Find(s, c) < |s| ==> Encode(s)[j + 1..] == Encode(s[Find(s, c) + 1..])
  {
    FindEncoded(s, c);
    EncodeCut(s, Find(s, c));
    j := Find(Encode(s), c);
  }

  lemma RestEncoded(scheme: Bytes, rest: Bytes)
    ensures ParseRest(scheme, Encode(rest)) == RawRest(scheme, rest)
  {
    StartsWithSlashesEncoded(rest);
    if StartsWith(rest, ['/', '/']) {
      AuthorityEncoded(scheme, rest[2..]);
    } else {
      DecodeEncode(rest);
    }
  }

  /** Parsing an encoded text is parsing the text itself. */
  lemma ParseEncoded(text: Bytes)
    ensures Parse(Encode(text)) == ParseRaw(text)
  {
    var pos, t := Find(text, ':'), Encode(text);
    var j := CutEncoded(text, ':');
    if pos < |text| {
      var scheme, rest := text[..pos], text[pos + 1..];
      DecodeEncode(scheme);
      SchemeIs(t, j, scheme, Encode(rest));
      RawIs(text, pos, scheme, rest);
      RestEncoded(scheme, rest);
    }
  }

  lemma RawIs(text: Bytes, pos: nat, scheme: Bytes, rest: Bytes)
    requires pos == Find(text, ':') < |text| && text[..pos] == scheme && text[pos + 1..] == rest
    ensures ParseRaw(text) == if IsValidScheme(scheme) then RawRest(scheme, rest) else NotAUri
  {
  }

  /** What the URI constructor asserts, and a little more: the scheme is valid and the authority has no slash. */
  predicate Printable(u: URI) {
    IsValidScheme(u.scheme) && (u.authority == [] || ('/' !in u.authority && StartsWith(u.body, ['/'])))
  }

  lemma SchemeHasNoColon(scheme: Bytes)
    requires IsValidScheme(scheme)
    ensures ':' !in scheme
  {
  }

  lemma SchemeIsFound(u: URI)
    requires ':' !in u.scheme
    ensures Find(Raw(u), ':') == |u.scheme| < |Raw(u)|
    ensures Raw(u)[..|u.scheme|] == u.scheme
    ensures Raw(u)[|u.scheme| + 1..] ==
      (if u.authority != [] || StartsWith(u.body, ['/']) then ['/', '/'] else []) + u.authority + u.body
  {
    assert Raw(u)[..|u.scheme|] == u.scheme;
    FirstAt(Raw(u), ':', |u.scheme|);
  }

  lemma AuthorityIsFound(authority: Bytes, body: Bytes)
    requires '/' !in authority && StartsWith(body, ['/'])
    ensures Find(authority + body, '/') == |authority|
  {
    assert (authority + body)[..|authority|] == authority;
    FirstAt(authority + body, '/', |authority|);
  }

  /** How a printed authority and body are read: cut at the first slash of both. */
  lemma ReadWithAuthority(u: URI)
    requires IsValidScheme(u.scheme) && (u.authority != [] || StartsWith(u.body, ['/']))
    ensures var w := u.authority + u.body; var i := Find(w, '/');
      ParseRaw(Raw(u)) == if i == |w| then OutOfRange else Parsed(URI(u.scheme, w[..i], w[i..]))
  {
    SchemeHasNoColon(u.scheme);
    SchemeIsFound(u);
    var rest := Raw(u)[|u.scheme| + 1..];
    assert StartsWith(rest, ['/', '/']);
    assert rest[2..] == u.authority + u.body;
  }

  lemma PrintableIsRead(u: URI)
    requires Printable(u)
    ensures ParseRaw(Raw(u)) == Parsed(u)
  {
    if u.authority != [] || StartsWith(u.body, ['/']) {
      ReadWithAuthority(u);
      AuthorityIsFound(u.authority, u.body);
    } else {
      SchemeHasNoColon(u.scheme);
      SchemeIsFound(u);
      assert Raw(u)[|u.scheme| + 1..] == u.body;
    }
  }

  lemma OnlyPrintableIsRead(u: URI)
    requires ParseRaw(Raw(u)) == Parsed(u)
    ensures Printable(u)
  {
    assert IsValidScheme(u.scheme);
    if u.authority != [] {
      ReadWithAuthority(u);
    }
  }

  /** Exactly the printable URIs are read back; every other one is read as another URI, refused, or fails. */
  lemma RoundTripIff(u: URI)
    ensures Parse(ToString(u)) == Parsed(u) <==> Printable(u)
  {
    RawPrints(u);
    ParseEncoded(Raw(u));
    if Printable(u) {
      PrintableIsRead(u);
    }
    if ParseRaw(Raw(u)) == Parsed(u) {
      OnlyPrintableIsRead(u);
    }
  }

  /** A URI that was read can be printed and read again, unless it hides a slash in its authority. */
  lemma ReadAgain(text: Bytes)
    requires Parse(text).Parsed?
    ensures Parse(ToString(Parse(text).uri)) == Parse(text) <==> '/' !in Parse(text).uri.authority
  {
    RoundTripIff(Parse(text).uri);
  }

  // ---------- what is printed ----------

  /** What percentEncode leaves alone: the unreserved characters of section 2.3 of RFC 3986, slashes and colons. */
  predicate Unescaped(c: Byte) {
    'a' <= c <= 'z' || 'A' <= c <= 'Z' || '0' <= c <= '9' ||
    c == '-' || c == '_' || c == '.' || c == '~' || c == '/' || c == ':'
  }

  predicate UpperHexDigit(c: Byte) {
    '0' <= c <= '9' || 'A' <= c <= 'F'
  }

  /** Only such characters, and escapes in upper case for all others. */
  ghost predicate WellPrinted(s: Bytes) {
    s == [] || (Unescaped(s[0]) && WellPrinted(s[1..])) ||
    (|s| >= 3 && s[0] == '%' && UpperHexDigit(s[1]) && UpperHexDigit(s[2]) &&
     !Unescaped(FromNibbles(s[1], s[2])) && WellPrinted(s[3..]))
  }

  lemma EncodeByteIff(c: Byte)
    ensures EncodeByte(c) == [c] <==> Unescaped(c)
    ensures !Unescaped(c) ==> var e := EncodeByte(c);
      |e| == 3 && e[0] == '%' && UpperHexDigit(e[1]) && UpperHexDigit(e[2]) && FromNibbles(e[1], e[2]) == c
  {
    NibblesReadBack(c);
    UpperDigit(c as int / 16);
    UpperDigit(c as int % 16);
  }

  lemma UpperDigit(x: nat)
    requires x < 16
    ensures UpperHexDigit(HexDigit(x))
  {
  }

  lemma {:induction false} EncodedIsWellPrinted(s: Bytes)
    ensures WellPrinted(Encode(s))
  {
    if s != [] {
      EncodedIsWellPrinted(s[1..]);
      EncodeByteIff(s[0]);
      var e, rest := EncodeByte(s[0]), Encode(s[1..]);
      assert (e + rest)[|e|..] == rest;
    }
  }

  /** Whatever a URI is made of, it is printed with nothing but unreserved characters, slashes, colons and escapes. */
  lemma PrintedIsWellPrinted(u: URI)
    ensures WellPrinted(ToString(u))
  {
    RawPrints(u);
    EncodedIsWellPrinted(Raw(u));
  }

  // ---------- file URIs ----------

  predicate IsNetworkPath(path: Bytes) {
    |path| > 2 && path[0] == '/' && path[1] == '/'
  }

  /** find_first_component (lines 47-77), by POSIX rules. */
  function FirstComponent(path: Bytes): Bytes {
    if path == [] then path
    else if IsNetworkPath(path) && path[2] != '/' then path[..2 + Find(path[2..], '/')]
    else if path[0] == '/' then path[..1]
    else path[..Find(path, '/')]
  }

  /** root_name (lines 79-93). */
  function RootName(path: Bytes): Bytes {
    var first := FirstComponent(path);
    if |first| > 2 && path[0] == '/' && path[1] == '/' then first else []
  }

  const FILE: Bytes := ['f', 'i', 'l', 'e']
  const FILE_PREFIX: Bytes := ['f', 'i', 'l', 'e', ':', '/', '/']

  /** createFile (lines 171-189). */
  function CreateFile(path: Bytes): URI {
    var root := RootName(path);
    var authority := if IsNetworkPath(root) then root[2..] else [];
    var body := if IsNetworkPath(root) then path[|root|..] else path;
    URI(FILE, authority, if StartsWith(body, FILE_PREFIX) then body[7..] else body)
  }

  /** A double slash, a name: the network paths whose first component becomes the authority. */
  predicate NamesHost(path: Bytes) {
    IsNetworkPath(path) && path[2] != '/'
  }

  lemma HostIsAuthority(path: Bytes)
    ensures CreateFile(path).authority != [] <==> NamesHost(path)
    ensures '/' !in CreateFile(path).authority
    ensures NamesHost(path) ==> |CreateFile(path).body| < |path|
  {
    if NamesHost(path) {
      var i := Find(path[2..], '/');
      assert path[2..][..i] == path[..2 + i][2..];
    }
  }

  /** The path of a file URI survives printing and parsing exactly when it names no host and is not a URI itself. */
  lemma FilePathRoundTripIff(path: Bytes)
    ensures (var r := Parse(ToString(CreateFile(path))); r.Parsed? && r.uri.body == path)
            <==> !NamesHost(path) && !StartsWith(path, FILE_PREFIX)
  {
    var u := CreateFile(path);
    HostIsAuthority(path);
    RoundTripIff(u);
    if NamesHost(path) {
      BodyNeverGrows(u);
    }
  }

  /** Without an authority separator the text cannot be parsed; with one, the body read starts at the first slash. */
  lemma BodyNeverGrows(u: URI)
    requires IsValidScheme(u.scheme) && u.authority != [] && '/' !in u.authority
    ensures Parse(ToString(u)) == OutOfRange <==> '/' !in u.body
    ensures Parse(ToString(u)).Parsed? ==> |Parse(ToString(u)).uri.body| <= |u.body|
  {
    RawPrints(u);
    ParseEncoded(Raw(u));
    ReadWithAuthority(u);
    SlashComesLater(u.authority, u.body);
  }

  lemma SlashComesLater(authority: Bytes, body: Bytes)
    requires '/' !in authority
    ensures Find(authority + body, '/') >= |authority|
    ensures Find(authority + body, '/') == |authority + body| <==> '/' !in body
  {
    var t := authority + body;
    if '/' in body {
      var k :| 0 <= k < |body| && body[k] == '/';
      assert t[|authority| + k] == '/';
    }
  }
}
