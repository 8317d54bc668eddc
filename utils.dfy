/** Line extraction from a fetched body (src/utils.rs): a range of lines
    (`take_lines`) or the lines between a pair of anchor markers
    (`take_anchored_lines`). */
module Utils {
  import opened Strings

  /** `std::ops::Bound`, as a `RangeBounds` start or end bound. */
  datatype Bound = Included(n: nat) | Excluded(n: nat) | Unbounded

  function Min(a: nat, b: nat): nat { if a <= b then a else b }

  /** `usize::saturating_sub`. */
  function SatSub(a: nat, b: nat): (r: nat)
    ensures r + b >= a && (a >= b ==> r + b == a) && (a < b ==> r == 0)
  {
    if a >= b then a - b else 0
  }

  // ---------------------------------------------------------------------
  // str::lines
  // ---------------------------------------------------------------------

  /** Removes one trailing carriage return. */
  function StripCr(l: string): string
  {
    if |l| > 0 && l[|l| - 1] == '\r' then l[..|l| - 1] else l
  }

  /** `str::lines`: the pieces between line feeds; a line ended by a line feed
      also loses one carriage return before it, and a final line feed does
      not start an empty last line. */
  function Lines(s: string): (r: seq<string>)
    ensures forall i :: 0 <= i < |r| ==> '\n' !in r[i]
    ensures s == [] <==> r == []
    decreases |s|
  {
    if s == [] then []
    else
      var k := IndexOf(s, '\n', 0);
      assert '\n' !in s[..k];
      if k == |s| then [s] else [StripCr(s[..k])] + Lines(s[k + 1..])
  }

  /** A text without carriage returns that does not end in a line feed is
      the join of its lines. */
  lemma {:induction false} JoinOfLines(s: string)
    requires '\r' !in s
    requires s == [] || s[|s| - 1] != '\n'
    ensures Join(Lines(s), "\n") == s
    decreases |s|
  {
    if s != [] {
      var k := IndexOf(s, '\n', 0);
      if k < |s| {
        var first, rest := s[..k], s[k + 1..];
        assert s == first + "\n" + rest;
        assert rest != [] && rest[|rest| - 1] == s[|s| - 1];
        assert '\r' !in first && '\n' !in first;
        JoinOfLines(rest);
        LinesCons(first, rest);
        JoinCons(first, Lines(rest), "\n");
      }
    }
  }

  /** A first line without line feeds that does not end in a carriage
      return, then a line feed, comes off as the first of the lines. */
  lemma LinesCons(first: string, rest: string)
    requires '\n' !in first && (first == [] || first[|first| - 1] != '\r')
    ensures Lines(first + "\n" + rest) == [first] + Lines(rest)
  {
    LinesCrLf(first, rest);
    assert StripCr(first) == first;
  }

  /** A first line ended by a line feed comes off as the first of the lines,
      less one carriage return before the line feed. */
  lemma LinesCrLf(first: string, rest: string)
    requires '\n' !in first
    ensures Lines(first + "\n" + rest) == [StripCr(first)] + Lines(rest)
  {
    var s := first + "\n" + rest;
    assert s == first + ("\n" + rest);
    IndexOfConcat(first, "\n" + rest, '\n');
    IndexOfAt("\n" + rest, '\n', 0, 0);
    assert IndexOf(s, '\n', 0) == |first| < |s|;
    assert s[..|first|] == first && s[|first| + 1..] == rest;
  }

  /** A final line feed does not start an empty last line. */
  lemma {:induction false} LinesFinalNewline(s: string)
    requires s != [] && s[|s| - 1] != '\n' && s[|s| - 1] != '\r'
    ensures Lines(s + "\n") == Lines(s)
    decreases |s|
  {
    var k := IndexOf(s, '\n', 0);
    if k == |s| {
      assert '\n' !in s;
      LinesCrLf(s, "");
      assert s + "\n" + "" == s + "\n";
      assert StripCr(s) == s;
    } else {
      var first, rest := s[..k], s[k + 1..];
      assert s == first + "\n" + rest;
      assert '\n' !in first;
      assert rest != [] && rest[|rest| - 1] == s[|s| - 1];
      LinesFinalNewline(rest);
      LinesCrLf(first, rest);
      LinesCrLf(first, rest + "\n");
      assert s + "\n" == first + "\n" + (rest + "\n");
    }
  }

  /** Conversely, lines without line feeds, none but the last ending in a
      carriage return and the last one non-empty, are the lines of their
      join. */
  lemma {:induction false} LinesOfJoin(ls: seq<string>)
    requires forall i :: 0 <= i < |ls| ==> '\n' !in ls[i]
    requires forall i :: 0 <= i < |ls| - 1 ==> ls[i] == [] || ls[i][|ls[i]| - 1] != '\r'
    requires ls != [] ==> ls[|ls| - 1] != []
    ensures Lines(Join(ls, "\n")) == ls
    decreases |ls|
  {
    if |ls| == 1 {
      assert IndexOf(ls[0], '\n', 0) == |ls[0]|;
    } else if |ls| > 1 {
      LinesOfJoin(ls[1..]);
      LinesCons(ls[0], Join(ls[1..], "\n"));
      assert [ls[0]] + ls[1..] == ls;
    }
  }

  // ---------------------------------------------------------------------
  // take_lines
  // ---------------------------------------------------------------------

  /** `Iterator::skip`: drops the first `n` items. */
  function Skip<T>(xs: seq<T>, n: nat): (r: seq<T>)
    ensures r == xs[Min(n, |xs|)..]
    decreases n
  {
    if n == 0 || xs == [] then xs else Skip(xs[1..], n - 1)
  }

  /** `Iterator::take`: keeps at most the first `n` items. */
  function Take<T>(xs: seq<T>, n: nat): (r: seq<T>)
    ensures r == xs[..Min(n, |xs|)]
    decreases n
  {
    if n == 0 || xs == [] then [] else [xs[0]] + Take(xs[1..], n - 1)
  }

  /** The first line index a start bound selects. */
  function StartLine(b: Bound): nat
  {
    match b
    case Excluded(n) => n + 1
    case Included(n) => n
    case Unbounded => 0
  }

  /** The lines `take_lines` collects from the lines `ls` of its input
      before joining them. */
  function TakenLines(ls: seq<string>, startBound: Bound, endBound: Bound): (r: seq<string>)
    ensures var lo := Min(StartLine(startBound), |ls|);
            lo + |r| <= |ls| && r == ls[lo..lo + |r|]
  {
    var start := StartLine(startBound);
    var lines := Skip(ls, start);
    match endBound
    case Excluded(end) => Take(lines, SatSub(end, start))
    case Included(end) => Take(lines, SatSub(end + 1, start))
    case Unbounded => lines
  }

  /** `r` is the lines `ls[lo..hi]` joined by line feeds. */
  predicate JoinedBlock(ls: seq<string>, lo: nat, hi: nat, r: string)
  {
    lo <= hi <= |ls| && r == Join(ls[lo..hi], "\n")
  }

  /** `take_lines`: the selected lines joined by line feeds. Total: it never
      fails, and what it returns is always one contiguous block of the
      input's lines. */
  function TakeLines(s: string, startBound: Bound, endBound: Bound): (r: string)
    ensures exists lo: nat, hi: nat :: JoinedBlock(Lines(s), lo, hi, r)
  {
    var ls := Lines(s);
    var taken := TakenLines(ls, startBound, endBound);
    var lo := Min(StartLine(startBound), |ls|);
    assert JoinedBlock(ls, lo, lo + |taken|, Join(taken, "\n"));
    Join(taken, "\n")
  }

  /** A half-open range `a..b` selects the contiguous block of lines from
      `a`, exactly `min(b - a, n - a)` of them (zero when either is negative):
      bounds past the end are clamped. */
  lemma TakenRange(ls: seq<string>, a: nat, b: nat)
    ensures var lo := Min(a, |ls|);
            var count := Min(SatSub(b, a), SatSub(|ls|, a));
            lo + count <= |ls|
            && TakenLines(ls, Included(a), Excluded(b)) == ls[lo..lo + count]
            && |TakenLines(ls, Included(a), Excluded(b))| == count
  {
    var lo := Min(a, |ls|);
    var skipped := Skip(ls, a);
    assert |skipped| == SatSub(|ls|, a);
    var count := Min(SatSub(b, a), |skipped|);
    assert skipped[..count] == ls[lo..lo + count];
  }

  /** An inverted or empty range `a..b` with `a >= b` takes nothing. */
  lemma TakeLinesInverted(s: string, a: nat, b: nat)
    requires a >= b
    ensures TakeLines(s, Included(a), Excluded(b)) == ""
  {
    TakenRange(Lines(s), a, b);
  }

  /** `a..` takes every line from index `a` on. */
  lemma TakenFrom(ls: seq<string>, a: nat)
    ensures TakenLines(ls, Included(a), Unbounded) == ls[Min(a, |ls|)..]
  {
  }

  /** `..b` takes the first `min(b, n)` lines. */
  lemma TakenTo(ls: seq<string>, b: nat)
    ensures TakenLines(ls, Unbounded, Excluded(b)) == ls[..Min(b, |ls|)]
  {
  }

  /** `..` takes every line; on a text without carriage returns that does
      not end in a line feed that is the text itself. */
  lemma TakeLinesFull(s: string)
    ensures TakeLines(s, Unbounded, Unbounded) == Join(Lines(s), "\n")
    ensures '\r' !in s && (s == [] || s[|s| - 1] != '\n') ==> TakeLines(s, Unbounded, Unbounded) == s
  {
    if '\r' !in s && (s == [] || s[|s| - 1] != '\n') {
      JoinOfLines(s);
    }
  }

  /** `..` on a text without carriage returns that ends in one line feed
      drops just that line feed. */
  lemma TakeLinesFinalNewline(s: string)
    requires '\r' !in s && |s| >= 2 && s[|s| - 1] == '\n' && s[|s| - 2] != '\n'
    ensures TakeLines(s, Unbounded, Unbounded) == s[..|s| - 1]
  {
    var t := s[..|s| - 1];
    assert s == t + "\n";
    assert '\r' !in t && t[|t| - 1] == s[|s| - 2];
    LinesFinalNewline(t);
    JoinOfLines(t);
  }

  // ---------------------------------------------------------------------
  // Anchor markers: ANCHOR:\s*([\w_-]+) and ANCHOR_END:\s*([\w_-]+)
  // ---------------------------------------------------------------------

  const START_MARKER: string := "ANCHOR:"
  const END_MARKER: string := "ANCHOR_END:"

  /** The class `[\w_-]` of an anchor name (ASCII word characters and `-`). */
  predicate IsAnchorNameChar(c: char)
  {
    ('a' <= c <= 'z') || ('A' <= c <= 'Z') || ('0' <= c <= '9') || c == '_' || c == '-'
  }

  /** `name` is what a greedy `\s*` then `[\w-]*` takes from `l` at `j`,
      its first character at `w`. */
  predicate GreedyNameAt(l: string, j: nat, w: nat, name: string)
  {
    j <= w && w + |name| <= |l|
    && (forall k :: j <= k < w ==> IsSpace(l[k])) && (w == |l| || !IsSpace(l[w]))
    && name == l[w..w + |name|]
    && (w + |name| == |l| || !IsAnchorNameChar(l[w + |name|]))
  }

  /** The name captured after a marker ending at `j`: greedy whitespace, then
      the maximal run of name characters. */
  function NameAfter(l: string, j: nat): (name: string)
    requires j <= |l|
    ensures forall k :: 0 <= k < |name| ==> IsAnchorNameChar(name[k])
  {
    var w := SpanWhile(l, j, IsSpace);
    l[w..SpanWhile(l, w, IsAnchorNameChar)]
  }

  /** `NameAfter` is the greedy capture: it skips all the whitespace at `j`
      and then takes every name character that follows. */
  lemma NameAfterGreedy(l: string, j: nat)
    requires j <= |l|
    ensures exists w: nat :: GreedyNameAt(l, j, w, NameAfter(l, j))
  {
    var w := SpanWhile(l, j, IsSpace);
    var e := SpanWhile(l, w, IsAnchorNameChar);
    assert NameAfter(l, j) == l[w..e];
    assert GreedyNameAt(l, j, w, l[w..e]);
  }

  /** The marker pattern for literal `lit` matches starting at `i`. */
  predicate MarkerAt(l: string, lit: string, i: nat)
  {
    i + |lit| <= |l| && l[i..i + |lit|] == lit && NameAfter(l, i + |lit|) != ""
  }

  /** The leftmost position at or after `from` where the marker matches. */
  function FindMarker(l: string, lit: string, from: nat): (r: Option<nat>)
    requires from <= |l|
    ensures r.Some? ==> from <= r.value && MarkerAt(l, lit, r.value)
    ensures r.Some? ==> forall j :: from <= j < r.value ==> !MarkerAt(l, lit, j)
    ensures r.None? ==> forall j :: from <= j <= |l| ==> !MarkerAt(l, lit, j)
    decreases |l| - from
  {
    if MarkerAt(l, lit, from) then Some(from)
    else if from + |lit| >= |l| then None
    else FindMarker(l, lit, from + 1)
  }

  /** The marker for `lit` matches at `i` and nowhere before it. */
  predicate LeftmostMarker(l: string, lit: string, i: nat)
  {
    MarkerAt(l, lit, i) && forall j :: 0 <= j < i ==> !MarkerAt(l, lit, j)
  }

  /** `Regex::captures(l)["anchor_name"]` for the marker `lit`: the name
      after the leftmost match, or nothing when the marker matches nowhere. */
  function MarkerName(l: string, lit: string): (r: Option<string>)
    ensures r.Some? ==> r.value != []
  {
    match FindMarker(l, lit, 0)
    case Some(i) => Some(NameAfter(l, i + |lit|))
    case None => None
  }

  /** `MarkerName` finds nothing exactly when the marker matches nowhere in
      the line. */
  lemma MarkerNameMatches(l: string, lit: string)
    ensures MarkerName(l, lit).None? <==> forall j :: 0 <= j <= |l| ==> !MarkerAt(l, lit, j)
  {
    var f := FindMarker(l, lit, 0);
    if f.Some? {
      assert MarkerAt(l, lit, f.value);
    }
  }

  /** When the marker's leftmost match is at `i`, the name is the one
      captured after it. */
  lemma MarkerNameLeftmost(l: string, lit: string, i: nat)
    requires LeftmostMarker(l, lit, i)
    ensures MarkerName(l, lit) == Some(NameAfter(l, i + |lit|))
  {
    var f := FindMarker(l, lit, 0);
    assert f.Some?;
    assert f.value == i;
  }

  /** The `ANCHOR_START` pattern's capture in a line. */
  function AnchorStart(l: string): (r: Option<string>)
    ensures r.Some? ==> r.value != []
  {
    MarkerName(l, START_MARKER)
  }

  /** The `ANCHOR_END` pattern's capture in a line. */
  function AnchorEnd(l: string): (r: Option<string>)
    ensures r.Some? ==> r.value != []
  {
    MarkerName(l, END_MARKER)
  }

  /** A line classifies as opening or closing exactly when the matching
      pattern matches somewhere in it. */
  lemma AnchorMarkersMatch(l: string)
    ensures AnchorStart(l).Some? <==> exists j :: 0 <= j <= |l| && MarkerAt(l, START_MARKER, j)
    ensures AnchorEnd(l).Some? <==> exists j :: 0 <= j <= |l| && MarkerAt(l, END_MARKER, j)
  {
    MarkerNameMatches(l, START_MARKER);
    MarkerNameMatches(l, END_MARKER);
  }

  /** A line that carries neither kind of marker. */
  predicate Unmarked(l: string) { AnchorStart(l).None? && AnchorEnd(l).None? }

  // ---------------------------------------------------------------------
  // take_anchored_lines
  // ---------------------------------------------------------------------

  /** What the scan keeps from `ls` once the opening marker was seen. */
  function Collecting(ls: seq<string>, anchor: string): seq<string>
    decreases |ls|
  {
    if ls == [] then []
    else match AnchorEnd(ls[0])
      case Some(name) => if name == anchor then [] else Collecting(ls[1..], anchor)
      case None => (if AnchorStart(ls[0]).Some? then [] else [ls[0]]) + Collecting(ls[1..], anchor)
  }

  /** What the scan keeps from `ls` while it still seeks the opening marker. */
  function Seeking(ls: seq<string>, anchor: string): seq<string>
    decreases |ls|
  {
    if ls == [] then []
    else if AnchorStart(ls[0]) == Some(anchor) then Collecting(ls[1..], anchor)
    else Seeking(ls[1..], anchor)
  }

  /** The lines `take_anchored_lines` retains from `s`. */
  function AnchoredLines(s: string, anchor: string): seq<string>
  {
    Seeking(Lines(s), anchor)
  }

  /** One step of the seeking state, at line `i`. */
  lemma SeekingStep(ls: seq<string>, anchor: string, i: nat)
    requires i < |ls|
    ensures Seeking(ls[i..], anchor)
            == if AnchorStart(ls[i]) == Some(anchor) then Collecting(ls[i + 1..], anchor)
               else Seeking(ls[i + 1..], anchor)
  {
    assert ls[i..][0] == ls[i] && ls[i..][1..] == ls[i + 1..];
  }

  /** The collecting state stops at the closing marker for `anchor`. */
  lemma CollectingStops(ls: seq<string>, anchor: string, i: nat)
    requires i < |ls| && AnchorEnd(ls[i]) == Some(anchor)
    ensures Collecting(ls[i..], anchor) == []
  {
    assert ls[i..][0] == ls[i];
  }

  /** Any other line is kept when it carries no marker, dropped otherwise,
      and the collecting state goes on. */
  lemma CollectingGoesOn(ls: seq<string>, anchor: string, i: nat)
    requires i < |ls| && AnchorEnd(ls[i]) != Some(anchor)
    ensures Collecting(ls[i..], anchor)
            == (if Unmarked(ls[i]) then [ls[i]] else []) + Collecting(ls[i + 1..], anchor)
  {
    assert ls[i..][0] == ls[i] && ls[i..][1..] == ls[i + 1..];
  }

  /** `take_anchored_lines`: a scan over the lines of `s` that starts
      collecting after the opening marker for `anchor`, drops marker lines,
      and stops at the closing marker for `anchor`. */
  method TakeAnchoredLines(s: string, anchor: string) returns (r: string)
    ensures r == Join(AnchoredLines(s, anchor), "\n")
  {
    var retained: seq<string> := [];
    var anchorFound := false;
    var ls := Lines(s);
    assert ls[|ls|..] == [];
    for i := 0 to |ls|
      invariant !anchorFound ==> retained == [] && Seeking(ls, anchor) == Seeking(ls[i..], anchor)
      invariant anchorFound ==> Seeking(ls, anchor) == retained + Collecting(ls[i..], anchor)
    {
      var l := ls[i];
      if anchorFound {
        var endName := AnchorEnd(l);
        if endName == Some(anchor) {
          CollectingStops(ls, anchor, i);
          break;
        }
        CollectingGoesOn(ls, anchor, i);
        if endName.None? && AnchorStart(l).None? {
          assert retained + ([l] + Collecting(ls[i + 1..], anchor)) == (retained + [l]) + Collecting(ls[i + 1..], anchor);
          retained := retained + [l];
        } else {
          assert [] + Collecting(ls[i + 1..], anchor) == Collecting(ls[i + 1..], anchor);
        }
      } else {
        SeekingStep(ls, anchor, i);
        var startName := AnchorStart(l);
        if startName == Some(anchor) {
          assert [] + Collecting(ls[i + 1..], anchor) == Collecting(ls[i + 1..], anchor);
          anchorFound := true;
        }
      }
    }
    assert Seeking(ls, anchor) == retained;
    r := Join(retained, "\n");
  }

  /** The lines of `ls` that carry no marker, in order. */
  function UnmarkedLines(ls: seq<string>): (r: seq<string>)
    ensures forall k :: 0 <= k < |r| ==> Unmarked(r[k])
    ensures |r| <= |ls|
    decreases |ls|
  {
    if ls == [] then []
    else (if Unmarked(ls[0]) then [ls[0]] else []) + UnmarkedLines(ls[1..])
  }

  /** Without an opening marker for `anchor`, nothing is retained. */
  lemma {:induction false} NoOpeningMarker(ls: seq<string>, anchor: string)
    requires forall j :: 0 <= j < |ls| ==> AnchorStart(ls[j]) != Some(anchor)
    ensures Seeking(ls, anchor) == []
    decreases |ls|
  {
    if ls != [] {
      NoOpeningMarker(ls[1..], anchor);
    }
  }

  /** While collecting from line `a`, every unmarked line up to the closing
      marker at `e` (or the end) is kept and every marker line of another
      kind or name is dropped. */
  lemma {:induction false} CollectingBlock(ls: seq<string>, anchor: string, a: nat, e: nat)
    requires a <= e <= |ls|
    requires forall j :: a <= j < e ==> AnchorEnd(ls[j]) != Some(anchor)
    requires e < |ls| ==> AnchorEnd(ls[e]) == Some(anchor)
    ensures Collecting(ls[a..], anchor) == UnmarkedLines(ls[a..e])
    decreases e - a
  {
    if a == e {
      if e < |ls| {
        CollectingStops(ls, anchor, e);
      }
    } else {
      CollectingGoesOn(ls, anchor, a);
      CollectingBlock(ls, anchor, a + 1, e);
      UnmarkedLinesStep(ls, a, e);
    }
  }

  /** The unmarked lines of `ls[a..e]` are those of its first line followed
      by those of the rest. */
  lemma UnmarkedLinesStep(ls: seq<string>, a: nat, e: nat)
    requires a < e <= |ls|
    ensures UnmarkedLines(ls[a..e]) == (if Unmarked(ls[a]) then [ls[a]] else []) + UnmarkedLines(ls[a + 1..e])
  {
    var block := ls[a..e];
    assert block[0] == ls[a] && block[1..] == ls[a + 1..e];
  }

  /** While seeking from line `a`, lines before the first opening marker
      for `anchor` are skipped. */
  lemma {:induction false} SeekingSkips(ls: seq<string>, anchor: string, a: nat, k: nat)
    requires a <= k <= |ls|
    requires forall j :: a <= j < k ==> AnchorStart(ls[j]) != Some(anchor)
    ensures Seeking(ls[a..], anchor) == Seeking(ls[k..], anchor)
    decreases k - a
  {
    if a < k {
      SeekingStep(ls, anchor, a);
      SeekingSkips(ls, anchor, a + 1, k);
    }
  }

  /** The reference reading of `take_anchored_lines`: with `k` the first
      line whose opening marker names `anchor` and `e` the first later line
      whose closing marker names it (or the end), the retained lines are the
      unmarked lines strictly between `k` and `e`. */
  lemma AnchoredBlock(ls: seq<string>, anchor: string, k: nat, e: nat)
    requires k < e <= |ls|
    requires AnchorStart(ls[k]) == Some(anchor)
    requires forall j :: 0 <= j < k ==> AnchorStart(ls[j]) != Some(anchor)
    requires forall j :: k + 1 <= j < e ==> AnchorEnd(ls[j]) != Some(anchor)
    requires e < |ls| ==> AnchorEnd(ls[e]) == Some(anchor)
    ensures Seeking(ls, anchor) == UnmarkedLines(ls[k + 1..e])
  {
    SeekingToCollecting(ls, anchor, k);
    CollectingBlock(ls, anchor, k + 1, e);
  }

  /** Seeking up to the first opening marker for the anchor, at line `k`,
      turns into collecting from line `k + 1`. */
  lemma SeekingToCollecting(ls: seq<string>, anchor: string, k: nat)
    requires k < |ls| && AnchorStart(ls[k]) == Some(anchor)
    requires forall j :: 0 <= j < k ==> AnchorStart(ls[j]) != Some(anchor)
    ensures Seeking(ls, anchor) == Collecting(ls[k + 1..], anchor)
  {
    SeekingSkips(ls, anchor, 0, k);
    assert ls[0..] == ls;
    SeekingEnters(ls, anchor, k);
  }

  /** The opening marker at line `k` switches to collecting from the next line. */
  lemma SeekingEnters(ls: seq<string>, anchor: string, k: nat)
    requires k < |ls| && AnchorStart(ls[k]) == Some(anchor)
    ensures Seeking(ls[k..], anchor) == Collecting(ls[k + 1..], anchor)
  {
    SeekingStep(ls, anchor, k);
  }

  /** No retained line carries a marker. */
  lemma {:induction false} AnchoredLinesUnmarked(ls: seq<string>, anchor: string)
    ensures forall k :: 0 <= k < |Seeking(ls, anchor)| ==> Unmarked(Seeking(ls, anchor)[k])
    decreases |ls|
  {
    if ls != [] {
      if AnchorStart(ls[0]) == Some(anchor) {
        CollectingUnmarked(ls[1..], anchor);
      } else {
        AnchoredLinesUnmarked(ls[1..], anchor);
      }
    }
  }

  lemma {:induction false} CollectingUnmarked(ls: seq<string>, anchor: string)
    ensures forall k :: 0 <= k < |Collecting(ls, anchor)| ==> Unmarked(Collecting(ls, anchor)[k])
    decreases |ls|
  {
    if ls != [] {
      CollectingUnmarked(ls[1..], anchor);
    }
  }
}
