/** What is left of a stream of frames when the pipe blocks in the middle of a header: readLine drops the bytes it has
    (src/lsp/client.cpp, lines 80-119), and RecvResponse starts over (lines 30-72). */
module FrameLoss {
  import opened Strings
  import opened FrameSpec

  /** Some bytes without a newline are gone. */
  ghost predicate Dropped(data: string, left: string) {
    |left| <= |data| && left == data[|data| - |left|..] && forall k :: 0 <= k < |data| - |left| ==> data[k] != '\n'
  }

  /** Some complete header lines are gone, and then some bytes of the next one, or a line that begins with NUL. */
  ghost predicate Interrupted(data: string, left: string)
    decreases |data|
  {
    Dropped(data, left) ||
    (var line := ReadLine(data);
     line.Line? &&
     if line.text == "" then left == line.rest
     else EndsWith(line.text, "\r\n") && |line.text| > 2 && Interrupted(line.rest, left))
  }

  /** The end of a length line whose beginning is missing. */
  ghost predicate Stump(t: string) {
    |t| < 40 && forall k :: 0 <= k < |t| ==> t[k] != '\n' && t[k] != '\0' && t[k] != 'C'
  }

  /** No message can be received from such a stream any more. */
  ghost predicate Doomed(data: string) {
    (|data| > 0 && data[0] == '\n') || exists t, rest :: Stump(t) && DoomedBy(data, t, rest)
  }

  /** A stump and the end of its line, then the empty line; without a stump the empty line alone may be left. */
  ghost predicate DoomedBy(data: string, t: string, rest: string) {
    data == t + "\r\n" + rest && (t != "" ==> |rest| >= 2 && rest[0] == '\r' && rest[1] == '\n')
  }

  lemma EmptyLine(json: string -> bool, rest: string)
    ensures Receive(json, "\r\n" + rest, -1) == Reply(Illegal, rest)
  {
    EndOfHeader(json, -1, rest);
  }

  lemma StumpLine(t: string, rest: string)
    requires Stump(t)
    ensures ReadLine(t + "\r\n" + rest) == Line(t + "\r\n", rest)
  {
    WholeLine(t + "\r", rest);
    assert t + "\r" + "\n" + rest == t + "\r\n" + rest && t + "\r" + "\n" == t + "\r\n";
  }

  lemma NewlineFirst(data: string)
    requires |data| > 0 && data[0] == '\n'
    ensures ReadLine(data) == Line("\n", data[1..])
  {
    FindIs(data, '\n', 0);
    assert data[..1] == "\n";
    FindIs("\n", '\0', 1);
  }

  lemma StumpIsSkipped(json: string -> bool, t: string, rest: string)
    requires Stump(t) && t != ""
    ensures Receive(json, t + "\r\n" + rest, -1) == Receive(json, rest, -1)
  {
    StumpLine(t, rest);
    var text := t + "\r\n";
    assert text[|text| - 2..] == "\r\n" && text[..|text| - 2] == t;
    assert LEN_HEADER[0] == 'C' && t[0] != 'C';
  }

  /** Reception stops there. */
  lemma DoomedIsRefused(json: string -> bool, data: string)
    requires Doomed(data)
    ensures Receive(json, data, -1).response == Illegal
  {
    if |data| > 0 && data[0] == '\n' {
      NewlineFirst(data);
    } else {
      var t, rest :| Stump(t) && DoomedBy(data, t, rest);
      if t == "" {
        assert data == "\r\n" + rest;
        EmptyLine(json, rest);
      } else {
        StumpIsSkipped(json, t, rest);
        assert rest == "\r\n" + rest[2..];
        EmptyLine(json, rest[2..]);
      }
    }
  }

  lemma CutStump(t: string, end: string, rest: string, k: nat)
    requires k <= |t|
    ensures (t + end + rest)[k..] == t[k..] + end + rest
  {
  }

  lemma SecondOfEnd(t: string, rest: string)
    ensures var data := t + "\r\n" + rest; |data| == |t| + 2 + |rest| && data[|t|] == '\r' && data[|t| + 1] == '\n'
  {
  }

  lemma StumpIsCut(t: string, rest: string, k: nat)
    requires Stump(t) && DoomedBy(t + "\r\n" + rest, t, rest) && k <= |t| + 1
    ensures k <= |t + "\r\n" + rest| && Doomed((t + "\r\n" + rest)[k..])
  {
    SecondOfEnd(t, rest);
    if k <= |t| {
      CutStump(t, "\r\n", rest, k);
      assert Stump(t[k..]) && DoomedBy((t + "\r\n" + rest)[k..], t[k..], rest);
    } else {
      var left := (t + "\r\n" + rest)[k..];
      assert left[0] == (t + "\r\n" + rest)[k];
    }
  }

  /** What is dropped ends before the first newline. */
  lemma DropLimit(data: string, left: string, i: nat)
    requires Dropped(data, left) && i < |data| && data[i] == '\n'
    ensures |data| - |left| <= i
  {
  }

  lemma DroppedFromStump(t: string, rest: string, left: string)
    requires Stump(t) && DoomedBy(t + "\r\n" + rest, t, rest) && Dropped(t + "\r\n" + rest, left)
    ensures Doomed(left)
  {
    var data := t + "\r\n" + rest;
    SecondOfEnd(t, rest);
    DropLimit(data, left, |t| + 1);
    StumpIsCut(t, rest, |data| - |left|);
  }

  lemma EmptyLineDooms(rest: string)
    ensures Doomed("\r\n" + rest)
  {
    assert "" + "\r\n" + rest == "\r\n" + rest;
    assert Stump("") && DoomedBy("\r\n" + rest, "", rest);
  }

  lemma NewlineStays(data: string, left: string)
    requires |data| > 0 && data[0] == '\n' && Interrupted(data, left)
    ensures Doomed(left)
  {
    NewlineFirst(data);
    DropLimit(data, left, 0);
    assert left == data[0..];
  }

  lemma EmptyLineStays(rest: string, left: string)
    requires Interrupted("\r\n" + rest, left)
    ensures Doomed(left)
  {
    assert "" + "\r\n" + rest == "\r\n" + rest;
    StumpLine("", rest);
    DroppedFromStump("", rest, left);
  }

  lemma StumpStays(t: string, rest: string, left: string)
    requires Stump(t) && t != "" && DoomedBy(t + "\r\n" + rest, t, rest) && Interrupted(t + "\r\n" + rest, left)
    ensures Doomed(left)
  {
    if Dropped(t + "\r\n" + rest, left) {
      DroppedFromStump(t, rest, left);
    } else {
      StumpLine(t, rest);
      assert rest == "\r\n" + rest[2..];
      EmptyLineStays(rest[2..], left);
    }
  }

  /** And it stays so, however often the pipe blocks again. */
  lemma DoomedStays(data: string, left: string)
    requires Doomed(data) && Interrupted(data, left)
    ensures Doomed(left)
  {
    if |data| > 0 && data[0] == '\n' {
      NewlineStays(data, left);
    } else {
      var t, rest :| Stump(t) && DoomedBy(data, t, rest);
      if t == "" {
        assert data == "\r\n" + rest;
        EmptyLineStays(rest, left);
      } else {
        StumpStays(t, rest, left);
      }
    }
  }

  lemma HeadIsStump(n: nat, k: nat)
    requires n <= LONG_MAX && 0 < k <= |LEN_HEADER + Decimal(n)|
    ensures Stump((LEN_HEADER + Decimal(n))[k..])
  {
    HeaderLine(n);
    var head := LEN_HEADER + Decimal(n);
    forall j | 1 <= j < |head| ensures head[j] != 'C' && head[j] != '\n' && head[j] != '\0' {
      if j >= |LEN_HEADER| {
        assert head[j] == Decimal(n)[j - |LEN_HEADER|];
      }
    }
  }

  /** A header that lost its first bytes, whatever follows. */
  lemma LostHeader(n: nat, k: nat, rest: string)
    requires n <= LONG_MAX && 0 < k <= |LEN_HEADER + Decimal(n)| + 1
    ensures Doomed((LEN_HEADER + Decimal(n) + "\r\n\r\n" + rest)[k..])
  {
    var head := LEN_HEADER + Decimal(n);
    var data, tail := head + "\r\n\r\n" + rest, "\r\n" + rest;
    if k <= |head| {
      HeadIsStump(n, k);
      assert data[k..] == head[k..] + "\r\n" + tail;
      assert DoomedBy(data[k..], head[k..], tail);
    } else {
      assert data[k..][0] == '\n';
    }
  }

  lemma FrameFirstLine(body: string, rest: string)
    requires |body| <= LONG_MAX
    ensures ReadLine(Frame(body) + rest) == Line(LEN_HEADER + Decimal(|body|) + "\r\n", "\r\n" + body + rest)
  {
    var head := LEN_HEADER + Decimal(|body|);
    HeaderLine(|body|);
    WholeLine(head + "\r", "\r\n" + body + rest);
    TwoEnds(head, body, rest);
  }

  lemma TwoEnds(head: string, body: string, rest: string)
    ensures head + "\r" + "\n" == head + "\r\n"
    ensures head + "\r" + "\n" + ("\r\n" + body + rest) == head + "\r\n\r\n" + body + rest
  {
  }

  /** A call that gives up in the header of a frame has taken nothing, or leaves a doomed stream. */
  lemma FrameInterrupted(body: string, rest: string, left: string)
    requires |body| <= LONG_MAX && Interrupted(Frame(body) + rest, left)
    ensures left == Frame(body) + rest || Doomed(left)
  {
    var data := Frame(body) + rest;
    if Dropped(data, left) {
      FrameDropped(body, rest, left);
    } else {
      FrameFirstLine(body, rest);
      assert "\r\n" + body + rest == "\r\n" + (body + rest);
      EmptyLineStays(body + rest, left);
    }
  }

  lemma FrameParts(body: string, rest: string)
    ensures Frame(body) + rest == LEN_HEADER + Decimal(|body|) + "\r\n\r\n" + (body + rest)
    ensures var i := |LEN_HEADER + Decimal(|body|)| + 1; i < |Frame(body) + rest| && (Frame(body) + rest)[i] == '\n'
  {
  }

  lemma FrameDropped(body: string, rest: string, left: string)
    requires |body| <= LONG_MAX && Dropped(Frame(body) + rest, left)
    ensures left == Frame(body) + rest || Doomed(left)
  {
    var data := Frame(body) + rest;
    FrameParts(body, rest);
    DropLimit(data, left, |LEN_HEADER + Decimal(|body|)| + 1);
    if |left| < |data| {
      LostHeader(|body|, |data| - |left|, body + rest);
    }
  }

  /** The empty line behind it, or its second half, is all that is left of a header. */
  lemma LostLine(n: nat, k: nat, rest: string)
    requires |LEN_HEADER + Decimal(n)| + 2 <= k <= |LEN_HEADER + Decimal(n)| + 3
    ensures Doomed((LEN_HEADER + Decimal(n) + "\r\n\r\n" + rest)[k..])
  {
    var head := LEN_HEADER + Decimal(n);
    var data := head + "\r\n\r\n" + rest;
    if k == |head| + 2 {
      assert data[k..] == "\r\n" + rest;
      EmptyLineDooms(rest);
    } else {
      assert data[k..][0] == '\n';
    }
  }

  /** A block anywhere inside a header, the empty line at its end included, stops reception for good. */
  lemma BlockInHeaderStops(json: string -> bool, body: string, rest: string, k: nat)
    requires |body| <= LONG_MAX && 0 < k < |Header(body)|
    ensures Receive(json, (Frame(body) + rest)[k..], -1).response == Illegal
  {
    assert Frame(body) + rest == LEN_HEADER + Decimal(|body|) + "\r\n\r\n" + (body + rest);
    if k <= |LEN_HEADER + Decimal(|body|)| + 1 {
      LostHeader(|body|, k, body + rest);
    } else {
      LostLine(|body|, k, body + rest);
    }
    DoomedIsRefused(json, (Frame(body) + rest)[k..]);
  }
}
