/** Conflict markers, blocks and sides in a conflicted file, by position in its text (src/core/sa_utility.cpp, lines
    179-214 and 417-435; src/core/handler/TextBasedHandler.cpp, lines 46-65), and documents with known conflicts. */
module ConflictText {

  // ---------- markers and lines ----------

  const OURS := '<'
  const BASE := '|'
  const THEIRS := '='
  const END := '>'

  predicate Marker(c: char) {
    c == OURS || c == BASE || c == THEIRS || c == END
  }

  /** A marker is a run of seven. */
  function Mark(c: char): string {
    [c, c, c, c, c, c, c]
  }

  predicate AllAre(s: string, c: char, p: nat, q: nat)
    requires p <= q <= |s|
    decreases q - p
  {
    p == q || (s[p] == c && AllAre(s, c, p + 1, q))
  }

  predicate RunAt(s: string, c: char, p: nat) {
    p + 7 <= |s| && AllAre(s, c, p, p + 7)
  }

  lemma {:induction false} AllAreMeans(s: string, c: char, p: nat, q: nat)
    requires p <= q <= |s|
    ensures AllAre(s, c, p, q) <==> forall k :: p <= k < q ==> s[k] == c
    decreases q - p
  {
    if p < q {
      AllAreMeans(s, c, p + 1, q);
    }
  }

  lemma RunMeans(s: string, c: char, p: nat)
    ensures RunAt(s, c, p) <==> p + 7 <= |s| && forall k :: p <= k < p + 7 ==> s[k] == c
  {
    if p + 7 <= |s| {
      AllAreMeans(s, c, p, p + 7);
    }
  }

  /** No marker begins in this range. */
  ghost predicate Quiet(s: string, c: char, from: nat, to: nat) {
    forall q :: from <= q < to ==> !RunAt(s, c, q)
  }

  /** The index is where a marker is found first; the length stands for "not found". */
  ghost predicate FirstMark(s: string, c: char, from: nat, p: nat) {
    from <= p <= |s| && (p < |s| ==> RunAt(s, c, p)) && Quiet(s, c, from, p)
  }

  lemma {:induction false} SomeMark(s: string, c: char, from: nat)
    requires from <= |s|
    ensures exists p :: FirstMark(s, c, from, p)
    decreases |s| - from
  {
    if from == |s| || RunAt(s, c, from) {
      assert FirstMark(s, c, from, from);
    } else {
      SomeMark(s, c, from + 1);
      var p :| FirstMark(s, c, from + 1, p);
      assert FirstMark(s, c, from, p);
    }
  }

  /** Where std::search finds the next marker. */
  ghost function SearchFrom(s: string, c: char, from: nat): (p: nat)
    requires from <= |s|
    ensures FirstMark(s, c, from, p)
  {
    SomeMark(s, c, from);
    var p :| FirstMark(s, c, from, p);
    p
  }

  lemma FoundAt(s: string, c: char, from: nat, p: nat)
    requires FirstMark(s, c, from, p)
    ensures SearchFrom(s, c, from) == p
  {
  }

  /** The index is where the line ends. */
  ghost predicate FirstNewline(s: string, from: nat, i: nat) {
    from <= i <= |s| && (i < |s| ==> s[i] == '\n') && forall k :: from <= k < i ==> s[k] != '\n'
  }

  lemma {:induction false} SomeNewline(s: string, from: nat)
    requires from <= |s|
    ensures exists i :: FirstNewline(s, from, i)
    decreases |s| - from
  {
    if from == |s| || s[from] == '\n' {
      assert FirstNewline(s, from, from);
    } else {
      SomeNewline(s, from + 1);
      var i :| FirstNewline(s, from + 1, i);
      assert FirstNewline(s, from, i);
    }
  }

  /** Where std::find finds the end of the line. */
  ghost function NewlineFrom(s: string, from: nat): (i: nat)
    requires from <= |s|
    ensures FirstNewline(s, from, i)
  {
    SomeNewline(s, from);
    var i :| FirstNewline(s, from, i);
    i
  }

  lemma NewlineAt(s: string, from: nat, i: nat)
    requires FirstNewline(s, from, i)
    ensures NewlineFrom(s, from) == i
  {
  }

  predicate Terminated(s: string) {
    s == "" || s[|s| - 1] == '\n'
  }

  lemma LastNewline(s: string, p: nat)
    requires p < |s| && Terminated(s)
    ensures NewlineFrom(s, p) < |s|
  {
    assert s[|s| - 1] == '\n';
  }

  // ---------- what the three scanners look for ----------

  /** Where the block ends that the line at p belongs to: behind the next line that starts with the end marker; 0 if
      nowhere. */
  ghost function EndFrom(s: string, p: nat): (e: nat)
    requires p <= |s|
    ensures e == 0 || p < e <= |s|
    decreases |s| - p
  {
    var next := NewlineFrom(s, p) + 1;
    if next > |s| then 0
    else if RunAt(s, END, p) then next else EndFrom(s, next)
  }

  /** Looking for the end of a block, the scanner comes to a last line that is not ended. It steps behind the text
      there. */
  ghost predicate RunsOff(s: string, p: nat)
    requires p <= |s|
    decreases |s| - p
  {
    var next := NewlineFrom(s, p) + 1;
    p < |s| && (next > |s| || (!RunAt(s, END, p) && RunsOff(s, next)))
  }

  /** The conflict blocks from the line at p on. */
  ghost function BlocksFrom(s: string, p: nat): seq<string>
    requires p <= |s|
    decreases |s| - p
  {
    var next := NewlineFrom(s, p) + 1;
    if next > |s| then []
    else if RunAt(s, OURS, p) then
      var e := EndFrom(s, p);
      if e == 0 then [] else [s[p..e]] + BlocksFrom(s, e)
    else BlocksFrom(s, next)
  }

  /** The scanner steps behind the text: a block is open at a last line that is not ended. */
  ghost predicate Overruns(s: string, p: nat)
    requires p <= |s|
    decreases |s| - p
  {
    var next := NewlineFrom(s, p) + 1;
    next <= |s| &&
    if RunAt(s, OURS, p) then
      var e := EndFrom(s, p);
      if e == 0 then RunsOff(s, next) else Overruns(s, e)
    else Overruns(s, next)
  }

  lemma {:induction false} NeverRunsOff(s: string, p: nat)
    requires p <= |s| && Terminated(s)
    ensures !RunsOff(s, p)
    decreases |s| - p
  {
    if p < |s| {
      LastNewline(s, p);
      NeverRunsOff(s, NewlineFrom(s, p) + 1);
    }
  }

  /** A text whose last line is ended is safe. */
  lemma {:induction false} NeverOverruns(s: string, p: nat)
    requires p <= |s| && Terminated(s)
    ensures !Overruns(s, p)
    decreases |s| - p
  {
    if p < |s| {
      LastNewline(s, p);
      var next := NewlineFrom(s, p) + 1;
      NeverRunsOff(s, next);
      NeverOverruns(s, next);
      if EndFrom(s, p) > 0 {
        NeverOverruns(s, EndFrom(s, p));
      }
    }
  }

  /** The text behind the line of the first start marker, up to the next end marker; "" if either is missing. */
  ghost function CodeBetween(s: string, start: char, end: char): string {
    var p := SearchFrom(s, start, 0);
    var i := NewlineFrom(s, p) + 1;
    if i >= |s| then ""
    else
      var j := SearchFrom(s, end, i);
      if j == |s| then "" else s[i..j]
  }

  datatype Nth = Nth(begin: nat, end: nat) | NoBlock | PastEnd

  /** Where the i-th block from p on stands, up to its end marker. A block without an end marker is searched past the
      end of the text. */
  ghost function NthFrom(s: string, p: nat, i: int): (r: Nth)
    requires p <= |s|
    ensures r.Nth? ==> r.begin <= r.end <= |s|
    decreases |s| - p
  {
    var begin := SearchFrom(s, OURS, p);
    if begin == |s| then NoBlock
    else
      var end := SearchFrom(s, END, begin + 7);
      if end == |s| then PastEnd
      else if i == 1 then Nth(begin, end + 7)
      else NthFrom(s, end + 7, i - 1)
  }

  // ---------- documents ----------

  datatype Ancestor = NoAncestor | Ancestor(tag: string, text: string)

  /** A conflict, with the common ancestor in diff3 style or without. */
  datatype Conflict = Conflict(ourTag: string, ours: string, ancestor: Ancestor, theirs: string, theirTag: string)

  datatype Segment = Plain(text: string) | Conflicted(conflict: Conflict)

  function MarkLine(c: char, tag: string): string {
    Mark(c) + (tag + "\n")
  }

  function AncestorText(a: Ancestor): string {
    if a.NoAncestor? then "" else MarkLine(BASE, a.tag) + a.text
  }

  /** A block up to its end marker. */
  function Closed(c: Conflict): string {
    MarkLine(OURS, c.ourTag) + c.ours + AncestorText(c.ancestor) + MarkLine(THEIRS, "") + c.theirs + Mark(END)
  }

  function Render(c: Conflict): string {
    Closed(c) + (c.theirTag + "\n")
  }

  /** A stretch of a document; in a block, the end marker stands at index end. */
  datatype Chunk = Text(text: string) | Block(text: string, end: nat)

  function Join(chunks: seq<Chunk>): string {
    if chunks == [] then "" else chunks[0].text + Join(chunks[1..])
  }

  function ChunkOf(g: Segment): Chunk {
    if g.Plain? then Text(g.text) else Block(Render(g.conflict), EndPos(g.conflict))
  }

  function Chunks(doc: seq<Segment>): seq<Chunk> {
    if doc == [] then [] else [ChunkOf(doc[0])] + Chunks(doc[1..])
  }

  /** The text of a document. */
  function RenderAll(doc: seq<Segment>): string {
    Join(Chunks(doc))
  }

  function Conflicts(doc: seq<Segment>): seq<Conflict> {
    if doc == [] then []
    else if doc[0].Plain? then Conflicts(doc[1..])
    else [doc[0].conflict] + Conflicts(doc[1..])
  }

  ghost predicate NoMarker(s: string) {
    forall c :: Marker(c) ==> Quiet(s, c, 0, |s|)
  }

  ghost predicate CleanText(s: string) {
    Terminated(s) && NoMarker(s)
  }

  ghost predicate CleanTag(s: string) {
    '\n' !in s && NoMarker(s)
  }

  ghost predicate CleanConflict(c: Conflict) {
    CleanTag(c.ourTag) && CleanText(c.ours) && CleanText(c.theirs) && CleanTag(c.theirTag) &&
    (c.ancestor.Ancestor? ==> CleanTag(c.ancestor.tag) && CleanText(c.ancestor.text))
  }

  ghost predicate CleanSegment(g: Segment) {
    if g.Plain? then CleanText(g.text) else CleanConflict(g.conflict)
  }

  ghost predicate Clean(doc: seq<Segment>) {
    forall k :: 0 <= k < |doc| ==> CleanSegment(doc[k])
  }

  // ---------- pieces of a text ----------

  /** The piece stands at p. */
  ghost predicate At(s: string, p: nat, piece: string) {
    p + |piece| <= |s| && forall k :: 0 <= k < |piece| ==> piece[k] == s[p + k]
  }

  lemma AtParts(s: string, p: nat, a: string, b: string)
    requires At(s, p, a + b)
    ensures At(s, p, a) && At(s, p + |a|, b)
  {
    forall k | 0 <= k < |a| ensures a[k] == s[p + k] {
      assert (a + b)[k] == a[k];
    }
    forall k | 0 <= k < |b| ensures b[k] == s[p + |a| + k] {
      assert (a + b)[|a| + k] == b[k];
    }
  }

  lemma AtIndex(s: string, p: nat, piece: string)
    requires At(s, p, piece)
    ensures forall k :: p <= k < p + |piece| ==> s[k] == piece[k - p]
  {
  }

  lemma AtSlice(s: string, p: nat, piece: string)
    requires At(s, p, piece)
    ensures s[p..p + |piece|] == piece
  {
  }

  lemma MarkAt(s: string, p: nat, c: char)
    requires At(s, p, Mark(c))
    ensures RunAt(s, c, p) && forall k :: p <= k < p + 7 ==> s[k] == c
  {
    AtIndex(s, p, Mark(c));
    RunMeans(s, c, p);
  }

  /** A piece without the marker that ends in another character, wherever it stands. */
  lemma PieceQuiet(s: string, p: nat, piece: string, c: char)
    requires At(s, p, piece) && Quiet(piece, c, 0, |piece|) && (piece == "" || piece[|piece| - 1] != c)
    ensures Quiet(s, c, p, p + |piece|)
  {
    AtIndex(s, p, piece);
    forall q | p <= q < p + |piece| ensures !RunAt(s, c, q) {
      RunMeans(s, c, q);
      if q + 7 <= p + |piece| {
        RunMeans(piece, c, q - p);
        assert !RunAt(piece, c, q - p);
      } else {
        assert s[p + |piece| - 1] != c;
      }
    }
  }

  lemma TextQuiet(s: string, p: nat, text: string, c: char)
    requires At(s, p, text) && CleanText(text) && Marker(c)
    ensures Quiet(s, c, p, p + |text|)
  {
    PieceQuiet(s, p, text, c);
  }

  /** A tag and the end of its line. */
  lemma TagQuiet(s: string, p: nat, tag: string, c: char)
    requires At(s, p, tag + "\n") && CleanTag(tag) && Marker(c)
    ensures Quiet(s, c, p, p + |tag| + 1)
  {
    AtParts(s, p, tag, "\n");
    AtIndex(s, p, tag);
    AtIndex(s, p + |tag|, "\n");
    forall q | p <= q < p + |tag| + 1 ensures !RunAt(s, c, q) {
      RunMeans(s, c, q);
      if q + 7 <= p + |tag| {
        RunMeans(tag, c, q - p);
        assert !RunAt(tag, c, q - p);
      } else {
        assert s[p + |tag|] == '\n';
      }
    }
  }

  lemma NoOtherMark(s: string, p: nat, c: char)
    requires p + 7 <= |s| && forall k :: p <= k < p + 7 ==> s[k] != c
    ensures Quiet(s, c, p, p + 7)
  {
    forall q | p <= q < p + 7 ensures !RunAt(s, c, q) {
      RunMeans(s, c, q);
    }
  }

  /** A marker's line: its marker, its end, and no other marker. */
  lemma LineLaid(s: string, p: nat, d: char, tag: string)
    requires At(s, p, MarkLine(d, tag)) && CleanTag(tag) && Marker(d)
    ensures RunAt(s, d, p) && NewlineFrom(s, p) == p + 7 + |tag| < |s|
    ensures forall c :: Marker(c) && c != d ==> Quiet(s, c, p, p + 8 + |tag|)
  {
    AtParts(s, p, Mark(d), tag + "\n");
    MarkAt(s, p, d);
    assert NewlineFrom(s, p) == p + 7 + |tag| by {
      AtIndex(s, p + 7, tag + "\n");
      NewlineAt(s, p, p + 7 + |tag|);
    }
    forall c | Marker(c) && c != d ensures Quiet(s, c, p, p + 8 + |tag|) {
      TagQuiet(s, p + 7, tag, c);
      NoOtherMark(s, p, c);
    }
  }

  // ---------- where the parts of a block stand ----------

  function AncestorPos(c: Conflict): nat { 8 + |c.ourTag| + |c.ours| }
  function SepPos(c: Conflict): nat { AncestorPos(c) + |AncestorText(c.ancestor)| }
  function EndPos(c: Conflict): nat { SepPos(c) + 8 + |c.theirs| }

  lemma Parts(s: string, c: Conflict)
    requires At(s, 0, Closed(c))
    ensures At(s, 0, MarkLine(OURS, c.ourTag)) && At(s, 8 + |c.ourTag|, c.ours)
    ensures At(s, AncestorPos(c), AncestorText(c.ancestor)) && At(s, SepPos(c), MarkLine(THEIRS, ""))
    ensures At(s, SepPos(c) + 8, c.theirs) && At(s, EndPos(c), Mark(END)) && |Closed(c)| == EndPos(c) + 7
  {
    var a := MarkLine(OURS, c.ourTag);
    var b := a + c.ours;
    var d := b + AncestorText(c.ancestor);
    var e := d + MarkLine(THEIRS, "");
    AtParts(s, 0, e + c.theirs, Mark(END));
    AtParts(s, 0, e, c.theirs);
    AtParts(s, 0, d, MarkLine(THEIRS, ""));
    AtParts(s, 0, b, AncestorText(c.ancestor));
    AtParts(s, 0, a, c.ours);
  }

  lemma SectionEnds(s: string, i: nat, text: string)
    requires 0 < i && At(s, i, text) && Terminated(text) && s[i - 1] == '\n'
    ensures s[i + |text| - 1] == '\n'
  {
    if text != "" {
      AtIndex(s, i, text);
    }
  }

  /** A marker's line and the text that follows it: no other marker begins there. */
  lemma SectionQuiet(s: string, p: nat, d: char, tag: string, text: string, m: char)
    requires At(s, p, MarkLine(d, tag)) && At(s, p + 8 + |tag|, text)
    requires Marker(d) && CleanTag(tag) && CleanText(text) && Marker(m) && m != d
    ensures RunAt(s, d, p) && Quiet(s, m, p, p + 8 + |tag| + |text|)
    ensures s[p + 8 + |tag| + |text| - 1] == '\n'
  {
    LineLaid(s, p, d, tag);
    TextQuiet(s, p + 8 + |tag|, text, m);
    SectionEnds(s, p + 8 + |tag|, text);
  }

  lemma AncestorQuiet(s: string, a: nat, x: Ancestor, m: char)
    requires At(s, a, AncestorText(x)) && Marker(m) && m != BASE
    requires x.Ancestor? ==> CleanTag(x.tag) && CleanText(x.text)
    ensures Quiet(s, m, a, a + |AncestorText(x)|)
  {
    if x.Ancestor? {
      AtParts(s, a, MarkLine(BASE, x.tag), x.text);
      SectionQuiet(s, a, BASE, x.tag, x.text, m);
    }
  }

  // ---------- extractCodeFromConflictRange gives back the sides ----------

  lemma SideFound(s: string, p: nat, d: char, tag: string, text: string, m: char)
    requires At(s, p, MarkLine(d, tag)) && At(s, p + 8 + |tag|, text) && RunAt(s, m, p + 8 + |tag| + |text|)
    requires Marker(d) && CleanTag(tag) && CleanText(text) && Marker(m) && Quiet(s, d, 0, p)
    ensures CodeBetween(s, d, m) == text
  {
    var i := p + 8 + |tag|;
    LineLaid(s, p, d, tag);
    FoundAt(s, d, 0, p);
    TextQuiet(s, i, text, m);
    FoundAt(s, m, i, i + |text|);
    AtSlice(s, i, text);
  }

  lemma OurSide(s: string, c: Conflict)
    requires At(s, 0, Closed(c)) && CleanConflict(c)
    ensures CodeBetween(s, OURS, if c.ancestor.Ancestor? then BASE else THEIRS) == c.ours
  {
    var m := if c.ancestor.Ancestor? then BASE else THEIRS;
    Parts(s, c);
    assert RunAt(s, m, AncestorPos(c)) by {
      if c.ancestor.Ancestor? {
        AtParts(s, AncestorPos(c), MarkLine(BASE, c.ancestor.tag), c.ancestor.text);
        LineLaid(s, AncestorPos(c), BASE, c.ancestor.tag);
      } else {
        LineLaid(s, SepPos(c), THEIRS, "");
      }
    }
    SideFound(s, 0, OURS, c.ourTag, c.ours, m);
  }

  lemma TheirSide(s: string, c: Conflict)
    requires At(s, 0, Closed(c)) && CleanConflict(c)
    ensures CodeBetween(s, THEIRS, END) == c.theirs
  {
    Parts(s, c);
    MarkAt(s, EndPos(c), END);
    SectionQuiet(s, 0, OURS, c.ourTag, c.ours, THEIRS);
    AncestorQuiet(s, AncestorPos(c), c.ancestor, THEIRS);
    SideFound(s, SepPos(c), THEIRS, "", c.theirs, END);
  }

  lemma AncestorSide(s: string, c: Conflict)
    requires At(s, 0, Closed(c)) && CleanConflict(c) && c.ancestor.Ancestor?
    ensures CodeBetween(s, BASE, THEIRS) == c.ancestor.text
  {
    Parts(s, c);
    LineLaid(s, SepPos(c), THEIRS, "");
    SectionQuiet(s, 0, OURS, c.ourTag, c.ours, BASE);
    AtParts(s, AncestorPos(c), MarkLine(BASE, c.ancestor.tag), c.ancestor.text);
    SideFound(s, AncestorPos(c), BASE, c.ancestor.tag, c.ancestor.text, THEIRS);
  }

  /** Each side of a conflict is given back exactly, in either style, from any text that begins with the block. */
  lemma SidesOfBlock(s: string, c: Conflict)
    requires Closed(c) <= s && CleanConflict(c)
    ensures CodeBetween(s, OURS, if c.ancestor.Ancestor? then BASE else THEIRS) == c.ours
    ensures CodeBetween(s, THEIRS, END) == c.theirs
    ensures c.ancestor.Ancestor? ==> CodeBetween(s, BASE, THEIRS) == c.ancestor.text
  {
    PrefixAt(s, Closed(c));
    OurSide(s, c);
    TheirSide(s, c);
    if c.ancestor.Ancestor? {
      AncestorSide(s, c);
    }
  }

  lemma PrefixAt(s: string, piece: string)
    requires piece <= s
    ensures At(s, 0, piece)
  {
  }

  // ---------- the shape of a block ----------

  /** From the opening marker at p to the end marker at e. */
  ghost predicate Spans(s: string, p: nat, e: nat) {
    p + 7 < e && RunAt(s, OURS, p) && Quiet(s, END, p, e) && RunAt(s, END, e) && s[e - 1] == '\n'
  }

  ghost predicate BlockShape(t: string, e: nat) {
    Spans(t, 0, e) && NewlineFrom(t, e) + 1 == |t| && Quiet(t, OURS, e + 7, |t|)
  }

  lemma ClosedSpans(s: string, c: Conflict)
    requires At(s, 0, Closed(c)) && CleanConflict(c)
    ensures Spans(s, 0, EndPos(c)) && |Closed(c)| == EndPos(c) + 7
  {
    Parts(s, c);
    SectionQuiet(s, 0, OURS, c.ourTag, c.ours, END);
    AncestorQuiet(s, AncestorPos(c), c.ancestor, END);
    SectionQuiet(s, SepPos(c), THEIRS, "", c.theirs, END);
    MarkAt(s, EndPos(c), END);
  }

  lemma EndLineLaid(s: string, e: nat, tag: string)
    requires RunAt(s, END, e) && At(s, e + 7, tag + "\n") && CleanTag(tag)
    ensures NewlineFrom(s, e) == e + 7 + |tag| && Quiet(s, OURS, e + 7, e + 8 + |tag|)
  {
    AtIndex(s, e + 7, tag + "\n");
    RunMeans(s, END, e);
    NewlineAt(s, e, e + 7 + |tag|);
    TagQuiet(s, e + 7, tag, OURS);
  }

  lemma RenderParts(c: Conflict)
    ensures At(Render(c), 0, Closed(c)) && At(Render(c), |Closed(c)|, c.theirTag + "\n")
    ensures |Render(c)| == |Closed(c)| + 1 + |c.theirTag| && Render(c)[..|Closed(c)|] == Closed(c)
  {
    PrefixAt(Render(c), Render(c));
    AtParts(Render(c), 0, Closed(c), c.theirTag + "\n");
  }

  lemma ShapeOf(s: string, e: nat, tag: string)
    requires Spans(s, 0, e) && At(s, e + 7, tag + "\n") && |s| == e + 8 + |tag| && CleanTag(tag)
    ensures BlockShape(s, e)
  {
    EndLineLaid(s, e, tag);
  }

  lemma RenderShape(c: Conflict)
    requires CleanConflict(c)
    ensures BlockShape(Render(c), EndPos(c)) && Render(c)[..EndPos(c) + 7] == Closed(c)
  {
    RenderParts(c);
    ClosedSpans(Render(c), c);
    ShapeOf(Render(c), EndPos(c), c.theirTag);
  }

  lemma RunShift(s: string, p: nat, t: string, c: char, q: nat)
    requires At(s, p, t) && q + 7 <= |t|
    ensures RunAt(s, c, p + q) <==> RunAt(t, c, q)
  {
    AtIndex(s, p, t);
    RunMeans(s, c, p + q);
    RunMeans(t, c, q);
  }

  /** A block keeps its shape wherever it stands. */
  lemma ShapeAt(s: string, p: nat, t: string, e: nat)
    requires At(s, p, t) && BlockShape(t, e)
    ensures Spans(s, p, p + e) && NewlineFrom(s, p + e) + 1 == p + |t| && Quiet(s, OURS, p + e + 7, p + |t|)
  {
    RunShift(s, p, t, OURS, 0);
    RunShift(s, p, t, END, e);
    forall q | p <= q < p + e ensures !RunAt(s, END, q) {
      RunShift(s, p, t, END, q - p);
    }
    AtIndex(s, p, t);
    NewlineAt(s, p + e, p + |t| - 1);
    forall q | p + e + 7 <= q < p + |t| ensures !RunAt(s, OURS, q) {
      if q + 7 <= p + |t| {
        RunShift(s, p, t, OURS, q - p);
      } else {
        assert s[p + |t| - 1] == '\n';
        RunMeans(s, OURS, q);
      }
    }
  }

  // ---------- constructConflictFile finds the blocks ----------

  lemma {:induction false} SkipPlain(s: string, p: nat, q: nat)
    requires Terminated(s) && p <= q <= |s| && (p < q ==> s[q - 1] == '\n') && Quiet(s, OURS, p, q)
    ensures BlocksFrom(s, p) == BlocksFrom(s, q)
    decreases q - p
  {
    if p < q {
      LastNewline(s, p);
      SkipPlain(s, NewlineFrom(s, p) + 1, q);
    }
  }

  lemma {:induction false} SkipToEnd(s: string, p: nat, q: nat)
    requires Terminated(s) && p <= q <= |s| && (p < q ==> s[q - 1] == '\n') && Quiet(s, END, p, q)
    ensures EndFrom(s, p) == EndFrom(s, q)
    decreases q - p
  {
    if p < q {
      LastNewline(s, p);
      SkipToEnd(s, NewlineFrom(s, p) + 1, q);
    }
  }

  lemma PlainStep(s: string, p: nat, t: string)
    requires Terminated(s) && At(s, p, t) && CleanText(t)
    ensures BlocksFrom(s, p) == BlocksFrom(s, p + |t|)
  {
    TextQuiet(s, p, t, OURS);
    AtIndex(s, p, t);
    SkipPlain(s, p, p + |t|);
  }

  lemma BlockStep(s: string, p: nat, t: string, e: nat)
    requires Terminated(s) && At(s, p, t) && BlockShape(t, e)
    ensures BlocksFrom(s, p) == [t] + BlocksFrom(s, p + |t|)
  {
    BlockEnds(s, p, t, e);
    AtSlice(s, p, t);
    BlockUnfolds(s, p, p + |t|);
  }

  lemma BlockEnds(s: string, p: nat, t: string, e: nat)
    requires Terminated(s) && At(s, p, t) && BlockShape(t, e)
    ensures RunAt(s, OURS, p) && EndFrom(s, p) == p + |t|
  {
    ShapeAt(s, p, t, e);
    SkipToEnd(s, p, p + e);
    LastNewline(s, p + e);
  }

  lemma BlockUnfolds(s: string, p: nat, n: nat)
    requires Terminated(s) && p < |s| && RunAt(s, OURS, p) && EndFrom(s, p) == n > 0
    ensures BlocksFrom(s, p) == [s[p..n]] + BlocksFrom(s, n)
  {
  }

  ghost predicate CleanChunk(x: Chunk) {
    if x.Text? then CleanText(x.text) else BlockShape(x.text, x.end)
  }

  ghost predicate CleanChunks(xs: seq<Chunk>) {
    forall k :: 0 <= k < |xs| ==> CleanChunk(xs[k])
  }

  function BlockTexts(xs: seq<Chunk>): seq<string> {
    if xs == [] then [] else if xs[0].Text? then BlockTexts(xs[1..]) else [xs[0].text] + BlockTexts(xs[1..])
  }

  /** The chunks stand one after the other from p to the end of the text. */
  ghost predicate Fills(s: string, p: nat, xs: seq<Chunk>)
    decreases |xs|
  {
    if xs == [] then p == |s|
    else At(s, p, xs[0].text) && CleanChunk(xs[0]) && Fills(s, p + |xs[0].text|, xs[1..])
  }

  lemma {:induction false} JoinFills(s: string, p: nat, xs: seq<Chunk>)
    requires CleanChunks(xs) && At(s, p, Join(xs)) && p + |Join(xs)| == |s|
    ensures Fills(s, p, xs)
    decreases |xs|
  {
    if xs != [] {
      AtParts(s, p, xs[0].text, Join(xs[1..]));
      JoinFills(s, p + |xs[0].text|, xs[1..]);
    }
  }

  lemma {:induction false} BlocksOfChunks(s: string, p: nat, xs: seq<Chunk>)
    requires Fills(s, p, xs) && Terminated(s) && p <= |s|
    ensures BlocksFrom(s, p) == BlockTexts(xs)
    decreases |xs|
  {
    if xs != [] {
      var n, rest := p + |xs[0].text|, xs[1..];
      assert BlocksFrom(s, n) == BlockTexts(rest) by {
        BlocksOfChunks(s, n, rest);
      }
      if xs[0].Text? {
        PlainStep(s, p, xs[0].text);
      } else {
        BlockStep(s, p, xs[0].text, xs[0].end);
      }
    }
  }

  // ---------- extractConflictBlock finds the i-th block ----------

  lemma NthStep(s: string, p: nat, q: nat, e: nat, i: int)
    requires p <= q && Quiet(s, OURS, p, q) && Spans(s, q, e)
    ensures NthFrom(s, p, i) == if i == 1 then Nth(q, e + 7) else NthFrom(s, e + 7, i - 1)
  {
    FoundAt(s, OURS, p, q);
    FoundAt(s, END, q + 7, e);
  }

  /** Where the i-th block stands in chunks that begin at q. */
  function NthChunk(xs: seq<Chunk>, q: nat, i: int): Nth {
    if xs == [] then NoBlock
    else if xs[0].Text? then NthChunk(xs[1..], q + |xs[0].text|, i)
    else if i == 1 then Nth(q, q + xs[0].end + 7)
    else NthChunk(xs[1..], q + |xs[0].text|, i - 1)
  }

  lemma NthAtBlock(s: string, p: nat, q: nat, t: string, e: nat, i: int)
    requires p <= q && Quiet(s, OURS, p, q) && At(s, q, t) && BlockShape(t, e)
    ensures q + e + 7 <= q + |t| <= |s| && Quiet(s, OURS, q + e + 7, q + |t|)
    ensures NthFrom(s, p, i) == if i == 1 then Nth(q, q + e + 7) else NthFrom(s, q + e + 7, i - 1)
  {
    ShapeAt(s, q, t, e);
    NthStep(s, p, q, q + e, i);
  }

  lemma {:induction false} NthOfChunks(s: string, p: nat, q: nat, xs: seq<Chunk>, i: int)
    requires Fills(s, q, xs) && p <= q <= |s| && Quiet(s, OURS, p, q)
    ensures NthFrom(s, p, i) == NthChunk(xs, q, i)
    decreases |xs|, 1
  {
    if xs == [] {
      FoundAt(s, OURS, p, q);
    } else if xs[0].Text? {
      NthPastText(s, p, q, xs, i);
    } else if i == 1 {
      NthAtBlock(s, p, q, xs[0].text, xs[0].end, 1);
    } else {
      NthPastBlock(s, p, q, xs, i);
    }
  }

  lemma {:induction false} NthPastText(s: string, p: nat, q: nat, xs: seq<Chunk>, i: int)
    requires Fills(s, q, xs) && p <= q <= |s| && Quiet(s, OURS, p, q) && xs != [] && xs[0].Text?
    ensures NthFrom(s, p, i) == NthChunk(xs, q, i)
    decreases |xs|, 0
  {
    TextQuiet(s, q, xs[0].text, OURS);
    NthOfChunks(s, p, q + |xs[0].text|, xs[1..], i);
  }

  lemma {:induction false} NthPastBlock(s: string, p: nat, q: nat, xs: seq<Chunk>, i: int)
    requires Fills(s, q, xs) && p <= q <= |s| && Quiet(s, OURS, p, q) && xs != [] && xs[0].Block? && i != 1
    ensures NthFrom(s, p, i) == NthChunk(xs, q, i)
    decreases |xs|, 0
  {
    NthAtBlock(s, p, q, xs[0].text, xs[0].end, i);
    NthOfChunks(s, q + xs[0].end + 7, q + |xs[0].text|, xs[1..], i - 1);
  }

  // ---------- rendered documents ----------

  lemma {:induction false} ChunksAreClean(doc: seq<Segment>)
    requires Clean(doc)
    ensures CleanChunks(Chunks(doc)) && Terminated(RenderAll(doc))
  {
    if doc != [] {
      ChunksAreClean(doc[1..]);
      if doc[0].Conflicted? {
        RenderShape(doc[0].conflict);
      }
      JoinTerminated(ChunkOf(doc[0]), Chunks(doc[1..]));
    }
  }

  lemma JoinTerminated(x: Chunk, xs: seq<Chunk>)
    requires CleanChunk(x) && Terminated(Join(xs))
    ensures Terminated(Join([x] + xs))
  {
    assert ([x] + xs)[1..] == xs;
  }

  function EachRendered(cs: seq<Conflict>): seq<string> {
    seq(|cs|, k requires 0 <= k < |cs| => Render(cs[k]))
  }

  function EachClosed(cs: seq<Conflict>): seq<string> {
    seq(|cs|, k requires 0 <= k < |cs| => Closed(cs[k]))
  }

  lemma EachStep(c: Conflict, cs: seq<Conflict>)
    ensures EachRendered([c] + cs) == [Render(c)] + EachRendered(cs)
    ensures EachClosed([c] + cs) == [Closed(c)] + EachClosed(cs)
  {
    var all := [c] + cs;
    assert forall k :: 1 <= k < |all| ==> all[k] == cs[k - 1];
  }

  lemma TextsStep(x: Chunk, xs: seq<Chunk>)
    ensures BlockTexts([x] + xs) == if x.Text? then BlockTexts(xs) else [x.text] + BlockTexts(xs)
    ensures CleanChunk(x) ==> Cuts([x] + xs) == if x.Text? then Cuts(xs) else [x.text[..x.end + 7]] + Cuts(xs)
  {
    assert ([x] + xs)[1..] == xs;
  }

  lemma {:induction false} TextsOfDocument(doc: seq<Segment>)
    requires Clean(doc)
    ensures BlockTexts(Chunks(doc)) == EachRendered(Conflicts(doc)) && Cuts(Chunks(doc)) == EachClosed(Conflicts(doc))
  {
    if doc != [] {
      TextsOfDocument(doc[1..]);
      TextsOfSegment(doc[0], doc[1..]);
    }
  }

  lemma TextsOfSegment(g: Segment, rest: seq<Segment>)
    requires CleanSegment(g)
    requires BlockTexts(Chunks(rest)) == EachRendered(Conflicts(rest))
    requires Cuts(Chunks(rest)) == EachClosed(Conflicts(rest))
    ensures var xs := [ChunkOf(g)] + Chunks(rest);
      var cs := if g.Plain? then Conflicts(rest) else [g.conflict] + Conflicts(rest);
      BlockTexts(xs) == EachRendered(cs) && Cuts(xs) == EachClosed(cs)
  {
    if g.Conflicted? {
      RenderShape(g.conflict);
      EachStep(g.conflict, Conflicts(rest));
    }
    TextsStep(ChunkOf(g), Chunks(rest));
  }

  /** The blocks of a rendered document are its conflicts, in order, each with its exact text. */
  lemma BlocksOfRendered(doc: seq<Segment>)
    requires Clean(doc)
    ensures Terminated(RenderAll(doc)) && |BlocksFrom(RenderAll(doc), 0)| == |Conflicts(doc)|
    ensures forall k :: 0 <= k < |Conflicts(doc)| ==> BlocksFrom(RenderAll(doc), 0)[k] == Render(Conflicts(doc)[k])
  {
    ChunksAreClean(doc);
    PrefixAt(RenderAll(doc), RenderAll(doc));
    JoinFills(RenderAll(doc), 0, Chunks(doc));
    BlocksOfChunks(RenderAll(doc), 0, Chunks(doc));
    TextsOfDocument(doc);
  }

  /** The position is that of the i-th of these texts; there is none if there are fewer. */
  ghost predicate Locates(s: string, r: Nth, texts: seq<string>, i: int) {
    if 1 <= i <= |texts| then r.Nth? && r.begin <= r.end <= |s| && s[r.begin..r.end] == texts[i - 1] else r == NoBlock
  }

  lemma LocatesLater(s: string, r: Nth, t: string, texts: seq<string>, i: int)
    requires Locates(s, r, texts, i - 1) && i != 1
    ensures Locates(s, r, [t] + texts, i)
  {
    var all := [t] + texts;
    assert 2 <= i <= |all| ==> all[i - 1] == texts[i - 2];
  }

  lemma SliceAt(s: string, p: nat, t: string, n: nat)
    requires At(s, p, t) && n <= |t|
    ensures s[p..p + n] == t[..n]
  {
    AtSlice(s, p, t);
  }

  /** The blocks up to their end markers. */
  function Cuts(xs: seq<Chunk>): seq<string> {
    if xs == [] then []
    else if xs[0].Block? && xs[0].end + 7 <= |xs[0].text| then [xs[0].text[..xs[0].end + 7]] + Cuts(xs[1..])
    else Cuts(xs[1..])
  }

  lemma {:induction false} ChunkLocates(s: string, q: nat, xs: seq<Chunk>, i: int)
    requires Fills(s, q, xs)
    ensures Locates(s, NthChunk(xs, q, i), Cuts(xs), i)
    decreases |xs|
  {
    if xs != [] {
      var x, rest, next := xs[0], xs[1..], q + |xs[0].text|;
      CutsStep(xs);
      if x.Text? {
        ChunkLocates(s, next, rest, i);
      } else if i == 1 {
        FirstLocates(s, q, x, Cuts(rest));
      } else {
        assert Locates(s, NthChunk(rest, next, i - 1), Cuts(rest), i - 1) by {
          ChunkLocates(s, next, rest, i - 1);
        }
        LocatesLater(s, NthChunk(rest, next, i - 1), x.text[..x.end + 7], Cuts(rest), i);
      }
    }
  }

  lemma CutsStep(xs: seq<Chunk>)
    requires xs != [] && CleanChunk(xs[0])
    ensures xs[0].Text? ==> Cuts(xs) == Cuts(xs[1..])
    ensures xs[0].Block? ==> xs[0].end + 7 <= |xs[0].text| && Cuts(xs) == [xs[0].text[..xs[0].end + 7]] + Cuts(xs[1..])
  {
  }

  lemma FirstLocates(s: string, q: nat, x: Chunk, texts: seq<string>)
    requires x.Block? && At(s, q, x.text) && CleanChunk(x)
    ensures Locates(s, Nth(q, q + x.end + 7), [x.text[..x.end + 7]] + texts, 1)
  {
    SliceAt(s, q, x.text, x.end + 7);
  }

  /** The i-th block of a rendered document is its i-th conflict up to the end marker, for every i. */
  lemma NthOfRendered(doc: seq<Segment>, i: int)
    requires Clean(doc)
    ensures var s, cs := RenderAll(doc), Conflicts(doc); var r := NthFrom(s, 0, i);
      if 1 <= i <= |cs| then r.Nth? && s[r.begin..r.end] == Closed(cs[i - 1]) else r == NoBlock
  {
    ChunksAreClean(doc);
    PrefixAt(RenderAll(doc), RenderAll(doc));
    JoinFills(RenderAll(doc), 0, Chunks(doc));
    NthOfChunks(RenderAll(doc), 0, 0, Chunks(doc), i);
    ChunkLocates(RenderAll(doc), 0, Chunks(doc), i);
    TextsOfDocument(doc);
    LocatesClosed(RenderAll(doc), NthFrom(RenderAll(doc), 0, i), Conflicts(doc), i);
  }

  lemma LocatesClosed(s: string, r: Nth, cs: seq<Conflict>, i: int)
    requires Locates(s, r, EachClosed(cs), i)
    ensures if 1 <= i <= |cs| then r.Nth? && r.begin <= r.end <= |s| && s[r.begin..r.end] == Closed(cs[i - 1])
      else r == NoBlock
  {
  }
}
