/** The pointer-walking loops that scan a conflicted file (src/core/sa_utility.cpp, lines 179-214 and 417-435;
    src/core/handler/TextBasedHandler.cpp, lines 46-65), proved against the functions of ConflictText. */
module ConflictScan {
  import opened ConflictText

  datatype ConflictBlock = ConflictBlock(index: int, range: string)

  ghost predicate Numbered(blocks: seq<ConflictBlock>, texts: seq<string>) {
    |blocks| == |texts| && forall k :: 0 <= k < |blocks| ==> blocks[k] == ConflictBlock(k + 1, texts[k])
  }

  /** std::find for the end of a line. */
  method FindNewline(text: string, from: nat) returns (i: nat)
    requires from <= |text|
    ensures i == NewlineFrom(text, from)
  {
    i := from;
    while i < |text| && text[i] != '\n'
      invariant from <= i <= |text| && forall k :: from <= k < i ==> text[k] != '\n'
    {
      i := i + 1;
    }
    NewlineAt(text, from, i);
  }

  /** std::search for a marker. */
  method FindMark(text: string, c: char, from: nat) returns (p: nat)
    requires from <= |text|
    ensures p == SearchFrom(text, c, from)
  {
    p := from;
    while p < |text| && !RunAt(text, c, p)
      invariant from <= p <= |text| && Quiet(text, c, from, p)
    {
      p := p + 1;
    }
    FoundAt(text, c, from, p);
  }

  /** The inner loop (lines 197-211): pos ends on the newline of the end marker's line, or at the end of the text, or
      runs off behind it. */
  method FindBlockEnd(text: string, start: nat) returns (found: bool, pos: nat, runsOff: bool)
    requires start < |text| && NewlineFrom(text, start) < |text| && !RunAt(text, END, start)
    ensures found <==> EndFrom(text, start) > 0
    ensures found ==> pos < |text| && pos + 1 == EndFrom(text, start)
    ensures runsOff ==> !found && RunsOff(text, NewlineFrom(text, start) + 1)
    ensures !found && !runsOff ==> !RunsOff(text, NewlineFrom(text, start) + 1)
  {
    var lineStart := start;
    pos := FindNewline(text, start);
    ghost var next := pos + 1;
    while pos != |text|
      invariant lineStart <= pos <= |text| && EndFrom(text, lineStart) == EndFrom(text, start)
      invariant pos == |text| ==> lineStart == |text|
      invariant pos < |text| ==> NewlineFrom(text, pos) == NewlineFrom(text, lineStart)
      invariant lineStart != start ==> RunsOff(text, lineStart) == RunsOff(text, next)
      invariant lineStart == start ==> NewlineFrom(text, pos) + 1 == next
      decreases |text| - lineStart
    {
      pos := FindNewline(text, pos);
      if pos == |text| {
        // the last line is not ended: the source reads or steps behind it
        return false, pos, true;
      }
      if RunAt(text, END, lineStart) {
        return true, pos, false;
      }
      pos := pos + 1;
      lineStart := pos;
    }
    return false, pos, false;
  }

  /** The blocks found so far, and those the rest of the text still holds. */
  ghost predicate Scanned(text: string, pos: nat, found: seq<string>) {
    pos <= |text| && found + BlocksFrom(text, pos) == BlocksFrom(text, 0) && Overruns(text, pos) == Overruns(text, 0)
  }

  lemma ScanBlock(text: string, pos: nat, found: seq<string>, e: nat)
    requires Scanned(text, pos, found) && NewlineFrom(text, pos) < |text| && RunAt(text, OURS, pos)
    requires e == EndFrom(text, pos) > 0
    ensures Scanned(text, e, found + [text[pos..e]])
  {
    assert found + ([text[pos..e]] + BlocksFrom(text, e)) == found + [text[pos..e]] + BlocksFrom(text, e);
  }

  lemma ScanEnds(text: string, pos: nat, found: seq<string>)
    requires Scanned(text, pos, found)
    requires NewlineFrom(text, pos) == |text| || (RunAt(text, OURS, pos) && EndFrom(text, pos) == 0)
    ensures found == BlocksFrom(text, 0)
  {
    assert found + [] == found;
  }

  /** constructConflictFile (sa_utility.cpp, lines 179-214): the blocks, numbered from 1; or it runs off the text. */
  method ConstructConflictFile(text: string) returns (blocks: seq<ConflictBlock>, overrun: bool)
    ensures overrun <==> Overruns(text, 0)
    ensures !overrun ==> Numbered(blocks, BlocksFrom(text, 0))
  {
    blocks, overrun := [], false;
    var index, pos := 0, 0;
    ghost var found: seq<string> := [];
    while pos < |text|
      invariant Numbered(blocks, found) && index == |found| && !overrun
      invariant Scanned(text, pos, found)
    {
      var lineStart := pos;
      pos := FindNewline(text, pos);
      if pos == |text| {
        // a last line that is not ended begins no block that could end
        ScanEnds(text, lineStart, found);
        return;
      }
      if RunAt(text, OURS, lineStart) {
        index := index + 1;
        var ended;
        NotBoth(text, lineStart);
        ended, pos, overrun := FindBlockEnd(text, lineStart);
        if !ended {
          ScanEnds(text, lineStart, found);
          return;
        }
        ScanBlock(text, lineStart, found, pos + 1);
        blocks := blocks + [ConflictBlock(index, text[lineStart..pos + 1])];
        found := found + [text[lineStart..pos + 1]];
      }
      pos := pos + 1;
    }
    ScanEnds(text, pos, found);
  }

  lemma NotBoth(text: string, p: nat)
    requires RunAt(text, OURS, p)
    ensures !RunAt(text, END, p)
  {
    RunMeans(text, OURS, p);
    RunMeans(text, END, p);
  }

  /** extractCodeFromConflictRange (sa_utility.cpp, lines 417-435). */
  method ExtractCode(source: string, startMark: char, endMark: char) returns (code: string)
    ensures code == CodeBetween(source, startMark, endMark)
  {
    var start := FindMark(source, startMark, 0);
    if start == |source| {
      return "";
    }
    ghost var p := start;
    var skipping := true;
    while skipping && start != |source|
      invariant p <= start <= |source|
      invariant skipping ==> NewlineFrom(source, start) == NewlineFrom(source, p)
      invariant !skipping ==> start == NewlineFrom(source, p) + 1
      decreases |source| - start, skipping
    {
      skipping := source[start] != '\n';
      start := start + 1;
    }
    if start == |source| {
      return "";
    }
    var end := FindMark(source, endMark, start);
    if end == |source| {
      return "";
    }
    return source[start..end];
  }

  /** extractConflictBlock (TextBasedHandler.cpp, lines 46-65); overrun: it looks behind the end of the text. */
  method ExtractConflictBlock(index: int, text: string) returns (block: string, overrun: bool)
    ensures var r := NthFrom(text, 0, index);
      overrun == r.PastEnd? && block == if r.Nth? then text[r.begin..r.end] else ""
  {
    var count, it := 0, 0;
    while true
      invariant it <= |text| && NthFrom(text, it, index - count) == NthFrom(text, 0, index)
      decreases |text| - it
    {
      var begin := FindMark(text, OURS, it);
      if begin == |text| {
        return "", false;
      }
      var end := FindMark(text, END, begin + 7);
      if end == |text| {
        return "", true;
      }
      count := count + 1;
      if count == index {
        return text[begin..end + 7], false;
      }
      it := end + 7;
    }
  }

  /** From the text of a document back to its conflicts: one block for each, with its number and its exact text. */
  method ReadBlocks(doc: seq<Segment>) returns (blocks: seq<ConflictBlock>)
    requires Clean(doc)
    ensures |blocks| == |Conflicts(doc)|
    ensures forall k :: 0 <= k < |blocks| ==> blocks[k] == ConflictBlock(k + 1, Render(Conflicts(doc)[k]))
  {
    BlocksOfRendered(doc);
    NeverOverruns(RenderAll(doc), 0);
    var overrun;
    blocks, overrun := ConstructConflictFile(RenderAll(doc));
  }

  /** The i-th conflict, cut out of the text of a document by extractConflictBlock, then its sides
      (TextBasedHandler.cpp, lines 323-334). */
  method ReadSides(doc: seq<Segment>, i: int) returns (ours: string, base: string, theirs: string)
    requires Clean(doc) && 1 <= i <= |Conflicts(doc)| && Conflicts(doc)[i - 1].ancestor.Ancestor?
    ensures var c := Conflicts(doc)[i - 1]; ours == c.ours && base == c.ancestor.text && theirs == c.theirs
  {
    var block := ReadBlock(doc, i);
    ConflictsAreClean(doc, i - 1);
    ours, base, theirs := ExtractSides(block, Conflicts(doc)[i - 1]);
  }

  method ExtractSides(block: string, ghost c: Conflict) returns (ours: string, base: string, theirs: string)
    requires CleanConflict(c) && c.ancestor.Ancestor? && block == Closed(c)
    ensures ours == c.ours && base == c.ancestor.text && theirs == c.theirs
  {
    SidesOfBlock(block, c);
    ours := ExtractCode(block, OURS, BASE);
    base := ExtractCode(block, BASE, THEIRS);
    theirs := ExtractCode(block, THEIRS, END);
  }

  method ReadBlock(doc: seq<Segment>, i: int) returns (block: string)
    requires Clean(doc)
    ensures block == if 1 <= i <= |Conflicts(doc)| then Closed(Conflicts(doc)[i - 1]) else ""
  {
    NthOfRendered(doc, i);
    var overrun;
    block, overrun := ExtractConflictBlock(i, RenderAll(doc));
  }

  lemma {:induction false} ConflictsAreClean(doc: seq<Segment>, k: nat)
    requires Clean(doc) && k < |Conflicts(doc)|
    ensures CleanConflict(Conflicts(doc)[k])
  {
    if doc[0].Plain? {
      ConflictsAreClean(doc[1..], k);
    } else if k > 0 {
      ConflictsAreClean(doc[1..], k - 1);
    } else {
      assert CleanSegment(doc[0]);
    }
  }
}
