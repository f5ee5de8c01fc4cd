/** JSON-RPC framing, Base Protocol, Header Part of the Language Server Protocol 3.17: what is written, and how a
    stream of bytes is read back when nothing goes wrong (src/lsp/client.cpp, lines 30-178). */
module FrameSpec {
  import opened Strings

  const LEN_HEADER := "Content-Length: "

  /** What RecvResponse returns: "", nothing, or a message; resize may throw; a header line may overrun its buffer. */
  datatype Response = EmptyPipe | Illegal | Message(text: string) | Throws | Undefined

  datatype Reply = Reply(response: Response, rest: string)

  // ---------- decimal numbers ----------

  function DigitChar(d: nat): char
    requires d < 10
  {
    ('0' as int + d) as char
  }

  /** How a stream prints a size. */
  function Decimal(n: nat): (s: string)
    ensures s != "" && forall k :: 0 <= k < |s| ==> IsDigit(s[k])
  {
    if n < 10 then [DigitChar(n)] else Decimal(n / 10) + [DigitChar(n % 10)]
  }

  /** The digits at the head of s, after acc. */
  function ReadDigits(s: string, acc: nat): nat {
    if s == "" || !IsDigit(s[0]) then acc else ReadDigits(s[1..], 10 * acc + (s[0] as int - '0' as int))
  }

  predicate IsSpace(c: char) {
    c == ' ' || 9 <= c as int <= 13
  }

  const LONG_MAX := 0x7fff_ffff_ffff_ffff

  /** strtoll in base 10: blanks, a sign, digits, clamped to 64 bits; 0 if there are no digits. */
  function Strtoll(s: string): int {
    if s == "" then 0
    else if IsSpace(s[0]) then Strtoll(s[1..])
    else
      var n: int := ReadDigits(if s[0] == '-' || s[0] == '+' then s[1..] else s, 0);
      if s[0] == '-' then (if n > LONG_MAX then -LONG_MAX - 1 else -n)
      else if n > LONG_MAX then LONG_MAX else n
  }

  lemma {:induction false} ReadDecimal(n: nat, rest: string)
    ensures ReadDigits(Decimal(n) + rest, 0) == ReadDigits(rest, n)
  {
    if n < 10 {
      assert (Decimal(n) + rest)[1..] == rest;
    } else {
      var last := [DigitChar(n % 10)];
      assert Decimal(n) + rest == Decimal(n / 10) + (last + rest);
      ReadDecimal(n / 10, last + rest);
      assert (last + rest)[1..] == rest;
    }
  }

  /** The nearest number of 64 bits. */
  function Clamped(x: int): int {
    if x > LONG_MAX then LONG_MAX else if x < -LONG_MAX - 1 then -LONG_MAX - 1 else x
  }

  /** A printed number is read back up to the end of its digits, and clamped if it does not fit. */
  lemma StrtollReads(n: nat, rest: string)
    requires rest == "" || !IsDigit(rest[0])
    ensures Strtoll(Decimal(n) + rest) == Clamped(n)
    ensures Strtoll(['+'] + (Decimal(n) + rest)) == Clamped(n)
    ensures Strtoll(['-'] + (Decimal(n) + rest)) == Clamped(0 - n)
  {
    ReadDecimal(n, rest);
    StrtollDigits(Decimal(n) + rest, n);
    StrtollSign('+', Decimal(n) + rest);
    StrtollSign('-', Decimal(n) + rest);
  }

  lemma StrtollDigits(s: string, n: nat)
    requires s != "" && IsDigit(s[0]) && ReadDigits(s, 0) == n
    ensures Strtoll(s) == Clamped(n)
  {
  }

  lemma StrtollSign(sign: char, s: string)
    requires sign == '+' || sign == '-'
    ensures Strtoll([sign] + s) == if sign == '+' then Clamped(ReadDigits(s, 0)) else Clamped(0 - ReadDigits(s, 0))
  {
    assert ([sign] + s)[1..] == s;
  }

  /** The white space that is skipped before a number. */
  lemma StrtollSkips(c: char, s: string)
    ensures IsSpace(c) <==> c == ' ' || c == '\t' || c == '\n' || c == '\U{000b}' || c == '\U{000c}' || c == '\r'
    ensures IsSpace(c) ==> Strtoll([c] + s) == Strtoll(s)
    ensures !IsSpace(c) && !IsDigit(c) && c != '+' && c != '-' ==> Strtoll([c] + s) == 0
  {
    assert ([c] + s)[1..] == s;
  }

  /** A printed size is read back if it fits. */
  lemma StrtollDecimal(n: nat)
    requires n <= LONG_MAX
    ensures Strtoll(Decimal(n)) == n
  {
    StrtollReads(n, "");
    assert Decimal(n) + "" == Decimal(n);
  }

  function Pow10(k: nat): nat {
    if k == 0 then 1 else 10 * Pow10(k - 1)
  }

  lemma Pow10Of19()
    ensures Pow10(19) == 10_000_000_000_000_000_000
  {
    assert Pow10(5) == 100_000;
    assert Pow10(10) == 10_000_000_000;
    assert Pow10(15) == 1_000_000_000_000_000;
  }

  lemma {:induction false} DecimalLength(n: nat, k: nat)
    requires k > 0 && n < Pow10(k)
    ensures |Decimal(n)| <= k
  {
    if n >= 10 {
      assert Pow10(1) == 10;
      DecimalLength(n / 10, k - 1);
    }
  }

  // ---------- lines ----------

  const BUFFER_SIZE := 256

  datatype Line = Line(text: string, rest: string) | NoLine | Overrun

  /** The string in a zeroed buffer that holds s: it stops at the first NUL, which a full buffer may not have. */
  function BufferText(s: string): (r: Line)
    requires |s| <= BUFFER_SIZE
  {
    var i := Find(s, '\0');
    if i < BUFFER_SIZE then Line(s[..i], "") else Overrun
  }

  /** The line that ends at index i. */
  function LineAt(data: string, i: nat): (r: Line)
    requires i < |data| && i < BUFFER_SIZE
    ensures r.Line? ==> |r.rest| < |data|
  {
    var t := BufferText(data[..i + 1]);
    if t.Overrun? then Overrun else Line(t.text, data[i + 1..])
  }

  /** readLine: up to the newline, if the buffer holds that much. */
  function ReadLine(data: string): (r: Line)
    ensures r.Line? ==> |r.rest| < |data|
  {
    var i := Find(data, '\n');
    if i < |data| && i < BUFFER_SIZE then LineAt(data, i)
    else if |data| <= BUFFER_SIZE then NoLine
    else Overrun
  }

  predicate EndsWith(s: string, suffix: string) {
    |suffix| <= |s| && s[|s| - |suffix|..] == suffix
  }

  // ---------- messages ----------

  function Header(body: string): string {
    LEN_HEADER + Decimal(|body|) + "\r\n\r\n"
  }

  /** fillMessageHeader. */
  function Frame(body: string): string {
    LEN_HEADER + Decimal(|body|) + "\r\n\r\n" + body
  }

  function Frames(bodies: seq<string>): string {
    if bodies == [] then "" else Frame(bodies[0]) + Frames(bodies[1..])
  }

  /** The content part, once the header has announced its size; json says which texts the JSON library accepts. */
  function ReceiveContent(json: string -> bool, size: int, data: string): (r: Reply)
    ensures |r.rest| <= |data|
  {
    if size == -1 then Reply(Illegal, data)
    else if size < 0 then Reply(Throws, data)
    else if |data| < size then Reply(Illegal, "")
    else Reply(if json(data[..size]) then Message(data[..size]) else Illegal, data[size..])
  }

  /** A header line other than the empty one. */
  function HeaderSize(line: string, size: int): int {
    if StartsWith(line, LEN_HEADER) then Strtoll(line[|LEN_HEADER|..]) else size
  }

  /** RecvResponse, on a pipe that holds data and keeps delivering it. */
  function Receive(json: string -> bool, data: string, size: int): (r: Reply)
    ensures |r.rest| <= |data| && (r.response.Message? ==> |r.rest| < |data|)
    decreases |data|
  {
    var line := ReadLine(data);
    if line.NoLine? then Reply(EmptyPipe, "")
    else if line.Overrun? then Reply(Undefined, "")
    else if line.text == "" then Reply(EmptyPipe, line.rest)
    else if !EndsWith(line.text, "\r\n") then Reply(Illegal, line.rest)
    else if |line.text| == 2 then ReceiveContent(json, size, line.rest)
    else Receive(json, line.rest, HeaderSize(line.text[..|line.text| - 2], size))
  }

  lemma WholeLine(line: string, rest: string)
    requires '\n' !in line && '\0' !in line && |line| < BUFFER_SIZE - 1
    ensures ReadLine(line + "\n" + rest) == Line(line + "\n", rest)
  {
    var data := line + "\n" + rest;
    assert forall k :: 0 <= k < |line| ==> data[k] == line[k];
    FindIs(data, '\n', |line|);
    assert data[..|line| + 1] == line + "\n" && data[|line| + 1..] == rest;
    FindIs(line + "\n", '\0', |line| + 1);
  }

  lemma HeaderLine(n: nat)
    requires n <= LONG_MAX
    ensures '\n' !in LEN_HEADER + Decimal(n) + "\r" && '\0' !in LEN_HEADER + Decimal(n) + "\r"
    ensures |LEN_HEADER + Decimal(n) + "\r"| <= 36
  {
    Pow10Of19();
    DecimalLength(n, 19);
  }

  /** What the length line announces. */
  lemma HeaderAnnounces(n: nat)
    requires n <= LONG_MAX
    ensures HeaderSize(LEN_HEADER + Decimal(n), -1) == n
  {
    var line := LEN_HEADER + Decimal(n);
    assert line[..|LEN_HEADER|] == LEN_HEADER && line[|LEN_HEADER|..] == Decimal(n);
    StrtollDecimal(n);
  }

  lemma EndOfHeader(json: string -> bool, size: int, data: string)
    ensures Receive(json, "\r\n" + data, size) == ReceiveContent(json, size, data)
  {
    WholeLine("\r", data);
    assert "\r" + "\n" + data == "\r\n" + data;
  }

  lemma LengthLine(json: string -> bool, n: nat, data: string)
    requires n <= LONG_MAX
    ensures Receive(json, LEN_HEADER + Decimal(n) + "\r\n" + data, -1) == Receive(json, data, n)
  {
    var head := LEN_HEADER + Decimal(n);
    HeaderLine(n);
    WholeLine(head + "\r", data);
    assert head + "\r" + "\n" + data == head + "\r\n" + data;
    var text := head + "\r" + "\n";
    assert text[|text| - 2..] == "\r\n" && text[..|text| - 2] == head;
    HeaderAnnounces(n);
  }

  /** A frame at the head of the stream is received, whatever follows it. */
  lemma FrameIsReceived(json: string -> bool, body: string, rest: string)
    requires |body| <= LONG_MAX && json(body)
    ensures Receive(json, Frame(body) + rest, -1) == Reply(Message(body), rest)
  {
    var tail := body + rest;
    var head := LEN_HEADER + Decimal(|body|);
    assert Frame(body) + rest == head + "\r\n" + ("\r\n" + tail);
    LengthLine(json, |body|, "\r\n" + tail);
    EndOfHeader(json, |body|, tail);
    assert tail[..|body|] == body && tail[|body|..] == rest;
  }

  /** Any other header line is read and skipped; the last length counts. */
  lemma HeaderLineRead(json: string -> bool, line: string, data: string, size: int)
    requires line != "" && '\n' !in line && '\0' !in line && |line| < BUFFER_SIZE - 2
    ensures Receive(json, line + "\r\n" + data, size) ==
      Receive(json, data, if StartsWith(line, LEN_HEADER) then Strtoll(line[|LEN_HEADER|..]) else size)
  {
    WholeLine(line + "\r", data);
    assert line + "\r" + "\n" + data == line + "\r\n" + data;
    var text := line + "\r" + "\n";
    assert text[|text| - 2..] == "\r\n" && text[..|text| - 2] == line;
  }

  /** A message shorter than announced is refused, and what there is of it is gone. */
  lemma ShortContent(json: string -> bool, n: nat, data: string)
    requires |data| < n <= LONG_MAX
    ensures Receive(json, LEN_HEADER + Decimal(n) + "\r\n" + ("\r\n" + data), -1) == Reply(Illegal, "")
  {
    LengthLine(json, n, "\r\n" + data);
    EndOfHeader(json, n, data);
  }

  /** An announced size of -1 passes for none at all; below that, resize throws. */
  lemma NegativeSize(json: string -> bool, n: nat, data: string)
    requires 1 <= n <= LONG_MAX
    ensures Receive(json, LEN_HEADER + (['-'] + Decimal(n)) + "\r\n" + ("\r\n" + data), -1).response ==
      if n == 1 then Illegal else Throws
  {
    var line := LEN_HEADER + (['-'] + Decimal(n));
    HeaderLine(n);
    assert line[|LEN_HEADER|..] == ['-'] + Decimal(n) && line[..|LEN_HEADER|] == LEN_HEADER;
    assert Decimal(n) + "" == Decimal(n);
    StrtollReads(n, "");
    NegativeLine(n);
    HeaderLineRead(json, line, "\r\n" + data, -1);
    EndOfHeader(json, 0 - n, data);
  }

  lemma NegativeLine(n: nat)
    requires n <= LONG_MAX
    ensures var line := LEN_HEADER + (['-'] + Decimal(n));
      '\n' !in line && '\0' !in line && |line| <= 37 && StartsWith(line, LEN_HEADER)
  {
    HeaderLine(n);
    var line, head := LEN_HEADER + (['-'] + Decimal(n)), LEN_HEADER + Decimal(n) + "\r";
    forall k | 0 <= k < |line| ensures line[k] != '\n' && line[k] != '\0' {
      assert k < |LEN_HEADER| ==> line[k] == head[k];
      assert k > |LEN_HEADER| ==> line[k] == head[k - 1];
    }
  }

  /** The receiving loop of LspEndpoint: messages until the pipe is empty or a message is refused. */
  function Listen(json: string -> bool, data: string): (seq<string>, Reply)
    decreases |data|
  {
    var r := Receive(json, data, -1);
    if !r.response.Message? then ([], r)
    else
      var more := Listen(json, r.rest);
      ([r.response.text] + more.0, more.1)
  }

  ghost predicate Sendable(json: string -> bool, bodies: seq<string>) {
    forall k :: 0 <= k < |bodies| ==> |bodies[k]| <= LONG_MAX && json(bodies[k])
  }

  lemma NothingIsHeard(json: string -> bool)
    ensures Listen(json, "") == ([], Reply(EmptyPipe, ""))
  {
    assert ReadLine("") == NoLine;
  }

  lemma OneMoreIsHeard(json: string -> bool, body: string, rest: string)
    requires |body| <= LONG_MAX && json(body)
    ensures Listen(json, Frame(body) + rest) == ([body] + Listen(json, rest).0, Listen(json, rest).1)
  {
    FrameIsReceived(json, body, rest);
  }

  /** Reading the frames of any list of bodies gives back that list and consumes every byte. */
  lemma {:induction false} FramesAreHeard(json: string -> bool, bodies: seq<string>)
    requires Sendable(json, bodies)
    ensures Listen(json, Frames(bodies)) == (bodies, Reply(EmptyPipe, ""))
  {
    if bodies == [] {
      NothingIsHeard(json);
    } else {
      FramesAreHeard(json, bodies[1..]);
      OneMoreIsHeard(json, bodies[0], Frames(bodies[1..]));
      assert [bodies[0]] + bodies[1..] == bodies;
    }
  }
}
