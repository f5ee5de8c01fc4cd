/** The style and text based handlers look at the first block of the first file only to decide whether blocks show the
    common ancestor (src/core/handler/StyleBasedHandler.cpp, lines 40-75; TextBasedHandler.cpp, lines 563-596). */
module ConflictStyle {
  import opened ConflictText

  /** The test on the first block (lines 41-48): the three markers occur in it. */
  ghost predicate WithBase(range: string) {
    SearchFrom(range, OURS, 0) < |range| && SearchFrom(range, BASE, 0) < |range| &&
    SearchFrom(range, THEIRS, 0) < |range|
  }

  /** Our side of a block as the handlers extract it. */
  ghost function OurCode(range: string, withBase: bool): string {
    CodeBetween(range, OURS, if withBase then BASE else THEIRS)
  }

  ghost function TheirCode(range: string): string {
    CodeBetween(range, THEIRS, END)
  }

  lemma RenderIsClosed(c: Conflict)
    ensures At(Render(c), 0, Closed(c)) && At(Render(c), EndPos(c), MarkLine(END, c.theirTag))
    ensures |Render(c)| == EndPos(c) + 8 + |c.theirTag|
  {
    RenderParts(c);
    Parts(Render(c), c);
    AtJoin(Render(c), EndPos(c), Mark(END), c.theirTag + "\n");
  }

  lemma AtJoin(s: string, p: nat, a: string, b: string)
    requires At(s, p, a) && At(s, p + |a|, b)
    ensures At(s, p, a + b)
  {
    forall k | 0 <= k < |a + b| ensures (a + b)[k] == s[p + k] {
      if k >= |a| {
        assert (a + b)[k] == b[k - |a|];
      }
    }
  }

  /** Without an ancestor its marker does not occur. */
  lemma NoBaseMarker(c: Conflict)
    requires CleanConflict(c) && c.ancestor.NoAncestor?
    ensures Quiet(Render(c), BASE, 0, |Render(c)|)
  {
    var s := Render(c);
    OursQuiet(c);
    TheirsQuiet(c);
    EndLineQuiet(c);
    QuietJoin(s, BASE, 0, SepPos(c), EndPos(c));
    QuietJoin(s, BASE, 0, EndPos(c), |s|);
  }

  lemma QuietJoin(s: string, m: char, p: nat, q: nat, r: nat)
    requires Quiet(s, m, p, q) && Quiet(s, m, q, r)
    ensures Quiet(s, m, p, r)
  {
  }

  lemma OursQuiet(c: Conflict)
    requires CleanConflict(c) && c.ancestor.NoAncestor?
    ensures Quiet(Render(c), BASE, 0, SepPos(c))
  {
    RenderIsClosed(c);
    Parts(Render(c), c);
    assert AncestorText(c.ancestor) == "";
    SectionQuiet(Render(c), 0, OURS, c.ourTag, c.ours, BASE);
  }

  lemma TheirsQuiet(c: Conflict)
    requires CleanConflict(c)
    ensures Quiet(Render(c), BASE, SepPos(c), EndPos(c))
  {
    var s := Render(c);
    assert At(s, SepPos(c), MarkLine(THEIRS, "")) && At(s, SepPos(c) + 8, c.theirs) by {
      RenderIsClosed(c);
      Parts(s, c);
    }
    assert SepPos(c) + 8 + |c.theirs| == EndPos(c);
    SectionQuiet(s, SepPos(c), THEIRS, "", c.theirs, BASE);
  }

  lemma EndLineQuiet(c: Conflict)
    requires CleanConflict(c)
    ensures Quiet(Render(c), BASE, EndPos(c), |Render(c)|)
  {
    RenderIsClosed(c);
    LineLaid(Render(c), EndPos(c), END, c.theirTag);
    assert Marker(BASE);
  }

  lemma MarkersFound(c: Conflict)
    requires CleanConflict(c)
    ensures RunAt(Render(c), OURS, 0) && RunAt(Render(c), THEIRS, SepPos(c))
    ensures c.ancestor.Ancestor? ==> RunAt(Render(c), BASE, AncestorPos(c))
  {
    var s := Render(c);
    RenderIsClosed(c);
    Parts(s, c);
    LineLaid(s, 0, OURS, c.ourTag);
    LineLaid(s, SepPos(c), THEIRS, "");
    if c.ancestor.Ancestor? {
      AtParts(s, AncestorPos(c), MarkLine(BASE, c.ancestor.tag), c.ancestor.text);
      LineLaid(s, AncestorPos(c), BASE, c.ancestor.tag);
    }
  }

  /** The test tells the style of the block it looks at. */
  lemma WithBaseIff(c: Conflict)
    requires CleanConflict(c)
    ensures WithBase(Render(c)) <==> c.ancestor.Ancestor?
  {
    MarkersFound(c);
    if c.ancestor.NoAncestor? {
      NoBaseMarker(c);
      FoundAt(Render(c), BASE, 0, |Render(c)|);
    }
  }

  lemma OursStart(c: Conflict)
    requires CleanConflict(c)
    ensures SearchFrom(Render(c), OURS, 0) == 0 && NewlineFrom(Render(c), 0) + 1 == 8 + |c.ourTag| < |Render(c)|
  {
    var s := Render(c);
    RenderIsClosed(c);
    Parts(s, c);
    LineLaid(s, 0, OURS, c.ourTag);
    FoundAt(s, OURS, 0, 0);
  }

  /** Taken for the other style, a block without ancestor seems to have no side of ours. */
  lemma OursMissing(c: Conflict)
    requires CleanConflict(c) && c.ancestor.NoAncestor?
    ensures OurCode(Render(c), true) == ""
  {
    OursStart(c);
    NoBaseMarker(c);
    FoundAt(Render(c), BASE, 8 + |c.ourTag|, |Render(c)|);
  }

  /** And a block with one has it in its side of ours. */
  lemma OursTooLong(c: Conflict)
    requires CleanConflict(c) && c.ancestor.Ancestor?
    ensures |OurCode(Render(c), false)| == |c.ours| + |AncestorText(c.ancestor)| > |c.ours|
  {
    var s := Render(c);
    OursStart(c);
    MarkersFound(c);
    RenderIsClosed(c);
    Parts(s, c);
    TextQuiet(s, 8 + |c.ourTag|, c.ours, THEIRS);
    AncestorQuiet(s, AncestorPos(c), c.ancestor, THEIRS);
    FoundAt(s, THEIRS, 8 + |c.ourTag|, SepPos(c));
  }

  /** Our side of a block is seen exactly if and only if the block has the style of the first one, or is empty on our
      side and taken for a block with ancestor. Their side is always seen exactly. */
  lemma SidesSeenIff(first: Conflict, c: Conflict)
    requires CleanConflict(first) && CleanConflict(c)
    ensures OurCode(Render(c), WithBase(Render(first))) == c.ours <==>
      (first.ancestor.Ancestor? == c.ancestor.Ancestor?) || (first.ancestor.Ancestor? && c.ours == "")
    ensures TheirCode(Render(c)) == c.theirs
  {
    WithBaseIff(first);
    RenderParts(c);
    SidesOfBlock(Render(c), c);
    if first.ancestor.Ancestor? && c.ancestor.NoAncestor? {
      OursMissing(c);
    } else if first.ancestor.NoAncestor? && c.ancestor.Ancestor? {
      OursTooLong(c);
    }
  }

  /** A file whose first block has no ancestor and whose second one has: our side of the second is wrong. */
  lemma MixedStyles(first: Conflict, second: Conflict)
    requires first == Conflict("", "a\n", NoAncestor, "b\n", "")
    requires second == Conflict("", "x\n", Ancestor("", "o\n"), "y\n", "")
    ensures CleanConflict(first) && CleanConflict(second)
    ensures OurCode(Render(second), WithBase(Render(first))) != second.ours
  {
    assert CleanConflict(first) && CleanConflict(second);
    SidesSeenIff(first, second);
  }
}
