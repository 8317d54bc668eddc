/** Worked inputs: the anchored-lines example and an escaped directive
    followed through the scanner and the driver. */
module Scenarios {
  import opened Strings
  import opened Utils
  import opened IncludeArgs
  import opened LinkScan
  import opened WebInclude

  /** A line shorter than a marker's literal cannot carry that marker. */
  lemma ShortLineUnmarked(l: string, lit: string)
    requires |l| < |lit|
    ensures MarkerName(l, lit) == None
  {
  }

  lemma OpeningFoo()
    ensures AnchorStart("ANCHOR: foo") == Some("foo")
  {
    var l := "ANCHOR: foo";
    assert l[0..7] == START_MARKER;
    SpanWhileAt(l, 7, IsSpace, 8);
    SpanWhileAt(l, 8, IsAnchorNameChar, 11);
    assert NameAfter(l, 7) == l[8..11] == "foo";
  }

  lemma ClosingFoo()
    ensures AnchorEnd("ANCHOR_END: foo") == Some("foo")
  {
    var l := "ANCHOR_END: foo";
    assert l[0..11] == END_MARKER;
    SpanWhileAt(l, 11, IsSpace, 12);
    SpanWhileAt(l, 12, IsAnchorNameChar, 15);
    assert NameAfter(l, 11) == l[12..15] == "foo";
  }

  const ExampleText: string := "x\n" + "ANCHOR: foo\n" + "A\n" + "B\n" + "ANCHOR_END: foo\n" + "y"
  const ExampleLines: seq<string> := ["x", "ANCHOR: foo", "A", "B", "ANCHOR_END: foo", "y"]

  lemma ExampleJoinFrom4()
    ensures Join(ExampleLines[4..], "\n") == "ANCHOR_END: foo\n" + "y"
  {
    assert ExampleLines[5..] == ["y"];
    JoinSuffix(ExampleLines, 4, "\n");
  }

  lemma ExampleJoinFrom3()
    ensures Join(ExampleLines[3..], "\n") == "B\n" + "ANCHOR_END: foo\n" + "y"
  {
    ExampleJoinFrom4();
    JoinSuffix(ExampleLines, 3, "\n");
  }

  lemma ExampleJoinFrom2()
    ensures Join(ExampleLines[2..], "\n") == "A\n" + "B\n" + "ANCHOR_END: foo\n" + "y"
  {
    ExampleJoinFrom3();
    JoinSuffix(ExampleLines, 2, "\n");
  }

  lemma ExampleJoinFrom1()
    ensures Join(ExampleLines[1..], "\n") == "ANCHOR: foo\n" + "A\n" + "B\n" + "ANCHOR_END: foo\n" + "y"
  {
    ExampleJoinFrom2();
    JoinSuffix(ExampleLines, 1, "\n");
  }

  lemma ExampleJoin()
    ensures Join(ExampleLines, "\n") == ExampleText
  {
    ExampleJoinFrom1();
    JoinCons(ExampleLines[0], ExampleLines[1..], "\n");
    assert [ExampleLines[0]] + ExampleLines[1..] == ExampleLines;
  }

  lemma ExampleLinesPlain()
    ensures forall i :: 0 <= i < |ExampleLines| ==> '\n' !in ExampleLines[i]
    ensures forall i :: 0 <= i < |ExampleLines| - 1 ==> ExampleLines[i] == [] || ExampleLines[i][|ExampleLines[i]| - 1] != '\r'
    ensures ExampleLines[|ExampleLines| - 1] != []
  {
  }

  lemma ExampleTextLines()
    ensures Lines(ExampleText) == ExampleLines
  {
    ExampleLinesPlain();
    LinesOfJoin(ExampleLines);
    ExampleJoin();
  }

  /** Six lines with the block's markers on the second and fifth line and
      two unmarked lines between them retain those two lines. */
  lemma SixLineBlock(ls: seq<string>, anchor: string)
    requires |ls| == 6
    requires AnchorStart(ls[0]) != Some(anchor) && AnchorStart(ls[1]) == Some(anchor)
    requires Unmarked(ls[2]) && Unmarked(ls[3]) && AnchorEnd(ls[4]) == Some(anchor)
    ensures Seeking(ls, anchor) == [ls[2], ls[3]]
  {
    forall j | 0 <= j < 1 ensures AnchorStart(ls[j]) != Some(anchor) {
      assert j == 0;
    }
    forall j | 2 <= j < 4 ensures AnchorEnd(ls[j]) != Some(anchor) {
      assert Unmarked(ls[j]) by { if j == 3 { } else { assert j == 2; } }
    }
    AnchoredBlock(ls, anchor, 1, 4);
    var block := ls[2..4];
    assert block == [ls[2]] + [ls[3]];
    assert block[1..] == [ls[3]];
    assert UnmarkedLines([ls[3]]) == [ls[3]];
  }

  /** How the lines of the example are marked. */
  lemma ExampleMarkers()
    ensures AnchorStart(ExampleLines[0]) != Some("foo") && AnchorStart(ExampleLines[1]) == Some("foo")
    ensures Unmarked(ExampleLines[2]) && Unmarked(ExampleLines[3]) && AnchorEnd(ExampleLines[4]) == Some("foo")
  {
    OpeningFoo();
    ClosingFoo();
    ShortLineUnmarked("x", START_MARKER);
    ShortLineUnmarked("A", START_MARKER);
    ShortLineUnmarked("A", END_MARKER);
    ShortLineUnmarked("B", START_MARKER);
    ShortLineUnmarked("B", END_MARKER);
  }

  lemma ExampleBlock()
    ensures Seeking(ExampleLines, "foo") == ["A", "B"]
  {
    ExampleMarkers();
    SixLineBlock(ExampleLines, "foo");
  }

  /** Lines between `ANCHOR: foo` and `ANCHOR_END: foo` are retained and
      the text around them is not. */
  lemma AnchoredExample()
    ensures AnchoredLines(ExampleText, "foo") == ["A", "B"]
  {
    ExampleTextLines();
    ExampleBlock();
  }

  /** The method returns the retained lines joined: `"A\nB"`. */
  lemma AnchoredExampleText()
    ensures Join(AnchoredLines(ExampleText, "foo"), "\n") == "A\nB"
  {
    AnchoredExample();
  }

  // ---------------------------------------------------------------------
  // An escaped directive
  // ---------------------------------------------------------------------

  /** An escaped directive and the directive it spells out. */
  const EscapedText: string := "\\{{#webinclude u}}"
  const DirectiveText: string := "{{#webinclude u}}"

  /** A world in which every URL parses and every request returns `X`. */
  const Fixed: World := World(u => true, (u, h) => Body("X"))

  lemma EscapedCaptured()
    ensures CaptureAt(EscapedText, 0) == Some(Capture(0, 18, EscapedText, None))
  {
    assert EscapedText[0..4] == "\\{{#";
    IndexOfAt(EscapedText, '\n', 4, 18);
    assert ClosesAt(EscapedText, 18);
    assert EscapedText[0..18] == EscapedText;
  }

  /** The scanner yields the escaped token as one link spanning the text. */
  lemma EscapedLinks(urlIsValid: string -> bool)
    ensures FindLinks(EscapedText, urlIsValid) == Value([Link(0, 18, LinkType.Escaped, EscapedText)])
  {
    EscapedCaptured();
    var cap := Capture(0, 18, EscapedText, None);
    assert NextCapture(EscapedText, 0) == Some(cap);
    assert FromCapture(cap, urlIsValid) == Value(Some(Link(0, 18, LinkType.Escaped, EscapedText)));
    assert CaptureAt(EscapedText, 18) == None;
    assert ScanFrom(EscapedText, 18, urlIsValid) == Value([]);
    assert [Link(0, 18, LinkType.Escaped, EscapedText)] + [] == [Link(0, 18, LinkType.Escaped, EscapedText)];
  }

  lemma DirectiveShaped()
    ensures DirectiveShape(DirectiveText, 0, DirMatch(2, 13, 14, 17))
  {
  }

  lemma DirectiveMatched()
    ensures DirectiveAt(DirectiveText, 0) == Some(DirMatch(2, 13, 14, 17))
  {
    DirectiveShaped();
    DirectiveAtIsGreedyMatch(DirectiveText, 0, DirMatch(2, 13, 14, 17));
  }

  lemma DirectiveNotEscaped()
    ensures EscapedEnd(DirectiveText, 0) == None
  {
    assert DirectiveText[0..4][0] == '{';
  }

  lemma DirectiveParts()
    ensures DirectiveText[3..13] == "webinclude" && DirectiveText[14..15] == "u" && DirectiveText[0..17] == DirectiveText
  {
  }

  lemma DirectiveCaptured()
    ensures CaptureAt(DirectiveText, 0) == Some(Capture(0, 17, DirectiveText, Some(("webinclude", "u"))))
  {
    DirectiveNotEscaped();
    DirectiveMatched();
    DirectiveParts();
  }

  /** A bare URL with no span asks for the whole body. */
  lemma BareUrl()
    ensures ParseIncludePath("u", Fixed.urlIsValid) == Value(WebInclude("u", Range(Full)))
  {
    IndexOfAt("u", ' ', 0, 1);
    assert "u"[..1] == "u";
    SpanExamplesFull();
  }

  /** In a world where every URL parses, the scanner yields the directive
      as a link asking for all of `u`. */
  lemma DirectiveLinks()
    ensures FindLinks(DirectiveText, Fixed.urlIsValid) == Value([Link(0, 17, WebInclude("u", Range(Full)), DirectiveText)])
  {
    DirectiveCaptured();
    BareUrl();
    var cap := Capture(0, 17, DirectiveText, Some(("webinclude", "u")));
    assert NextCapture(DirectiveText, 0) == Some(cap);
    assert FromCapture(cap, Fixed.urlIsValid) == Value(Some(Link(0, 17, WebInclude("u", Range(Full)), DirectiveText)));
    assert CaptureAt(DirectiveText, 17) == None;
    assert ScanFrom(DirectiveText, 17, Fixed.urlIsValid) == Value([]);
    assert [Link(0, 17, WebInclude("u", Range(Full)), DirectiveText)] + [] == [Link(0, 17, WebInclude("u", Range(Full)), DirectiveText)];
  }

  /** The fetched body has no links, so it comes out as it is. */
  lemma BodyExpanded(depth: nat, mode: EscapeMode)
    ensures Expand("X", depth, None, Fixed, mode) == Value("X")
  {
    assert CaptureAt("X", 0) == None && CaptureAt("X", 1) == None;
    assert NextCapture("X", 0) == None;
  }

  /** Fetching `u` yields the whole body, `X`. */
  lemma DirectiveRendered()
    ensures Rendered(Link(0, 17, WebInclude("u", Range(Full)), DirectiveText), None, Fixed) == Ok("X")
  {
    TakeLinesFull("X");
  }

  /** Below the cap, the directive expands to the fetched body. */
  lemma DirectiveExpanded(depth: nat, mode: EscapeMode)
    requires depth < MAX_LINK_NESTED_DEPTH
    ensures Expand(DirectiveText, depth, None, Fixed, mode) == Value("X")
  {
    var link := Link(0, 17, WebInclude("u", Range(Full)), DirectiveText);
    DirectiveLinks();
    ExpandSingleLink(DirectiveText, link, depth, None, Fixed, mode);
    DirectiveRendered();
    BodyExpanded(depth + 1, mode);
    assert Replacement(link, depth, None, Fixed, mode) == Value("X");
    assert DirectiveText[..0] == "" && DirectiveText[17..] == "";
    assert "" + ("X" + "") == "X";
  }

  /** How the escaped token's one link is replaced, whatever the mode. */
  lemma EscapedSpliced(mode: EscapeMode)
    ensures Expand(EscapedText, 0, None, Fixed, mode)
            == Nested(Link(0, 18, LinkType.Escaped, EscapedText), DirectiveText, 0, None, Fixed, mode)
  {
    var link := Link(0, 18, LinkType.Escaped, EscapedText);
    EscapedLinks(Fixed.urlIsValid);
    ExpandSingleLink(EscapedText, link, 0, None, Fixed, mode);
    assert EscapedText[1..] == DirectiveText;
    assert Rendered(link, None, Fixed) == Ok(DirectiveText);
    assert EscapedText[..0] == "" && EscapedText[18..] == "";
    CatUnit(Cat(Nested(link, DirectiveText, 0, None, Fixed, mode), Value("")));
    CatEmptyRight(Nested(link, DirectiveText, 0, None, Fixed, mode));
  }

  /** As the program is written, the escaped directive is fetched: the page
      receives the body `X` rather than the text `{{#webinclude u}}`. */
  lemma EscapedDirectiveIsFetched()
    ensures Expand(EscapedText, 0, None, Fixed, RescanEscaped) == Value("X")
    ensures Expand(EscapedText, 0, None, Fixed, RescanEscaped) != Value(DirectiveText)
  {
    EscapedSpliced(RescanEscaped);
    DirectiveExpanded(1, RescanEscaped);
  }

  /** With the escape kept literal, the page receives the directive's text. */
  lemma EscapedDirectiveKept()
    ensures Expand(EscapedText, 0, None, Fixed, KeepEscaped) == Value(DirectiveText)
  {
    EscapedSpliced(KeepEscaped);
  }
}
