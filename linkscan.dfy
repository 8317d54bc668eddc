/** The link scanner of src/webinclude.rs (`find_links`, `LinkIter`,
    `Link::from_capture`). The pattern
        \\\{\{\#.*\}\}  |  \{\{\s*\#([a-zA-Z0-9_]+)\s+([^}]+)\}\}
    is matched by hand: `EscapedEnd` and `DirectiveAt` try each alternative
    at one position, `CaptureAt` tries both, `NextCapture` finds the leftmost
    position where one applies, and `LinkIter` resumes after each match. */
module LinkScan {
  import opened Strings
  import opened IncludeArgs

  const ESCAPE_CHAR: char := '\\'

  /** The class `[a-zA-Z0-9_]` of a link kind. */
  predicate IsKindChar(c: char)
  {
    ('a' <= c <= 'z') || ('A' <= c <= 'Z') || ('0' <= c <= '9') || c == '_'
  }

  /** The class `[^}]` of link arguments. */
  predicate NotCloseBrace(c: char) { c != '}' }

  /** `}}` ends just before position `e`. */
  predicate ClosesAt(s: string, e: nat)
  {
    2 <= e <= |s| && s[e - 2] == '}' && s[e - 1] == '}'
  }

  // ---------------------------------------------------------------------
  // First alternative: an escaped link  \\\{\{\#.*\}\}
  // ---------------------------------------------------------------------

  /** `s[i..e]` is a match of the escaped alternative: `\{{#`, characters
      other than a line feed, then `}}`. */
  ghost predicate EscapedShape(s: string, i: nat, e: nat)
  {
    i + 6 <= e <= |s| && s[i..i + 4] == "\\{{#" && ClosesAt(s, e)
    && forall k :: i + 4 <= k < e - 2 ==> s[k] != '\n'
  }

  /** The last `e` in `[lo + 2, hi]` at which a `}}` ends. */
  function LastCloseEnd(s: string, lo: nat, hi: nat): (r: Option<nat>)
    requires lo <= hi <= |s|
    ensures r.Some? ==> lo + 2 <= r.value <= hi && ClosesAt(s, r.value)
    ensures forall e :: lo + 2 <= e <= hi && ClosesAt(s, e) ==> r.Some? && e <= r.value
    decreases hi
  {
    if hi < lo + 2 then None
    else if ClosesAt(s, hi) then Some(hi)
    else LastCloseEnd(s, lo, hi - 1)
  }

  /** The end of the escaped alternative's match at `i`, if any. The greedy
      `.*` cannot cross a line feed, so the match runs to the last `}}` of
      the line: the longest match there is. */
  function EscapedEnd(s: string, i: nat): (r: Option<nat>)
    requires i <= |s|
    ensures r.Some? ==> EscapedShape(s, i, r.value)
    ensures forall e: nat :: EscapedShape(s, i, e) ==> r.Some? && e <= r.value
  {
    if i + 4 <= |s| && s[i..i + 4] == "\\{{#" then
      var lineEnd := IndexOf(s, '\n', i + 4);
      var r := LastCloseEnd(s, i + 4, lineEnd);
      assert forall e: nat :: EscapedShape(s, i, e) ==> e <= lineEnd by {
        if lineEnd < |s| { assert s[lineEnd] == '\n'; }
      }
      r
    else None
  }

  // ---------------------------------------------------------------------
  // Second alternative: a link  \{\{\s*\#([a-zA-Z0-9_]+)\s+([^}]+)\}\}
  // ---------------------------------------------------------------------

  /** Where the parts of a directive match lie: the `#`, the end of the
      kind, the start of the arguments and the end of the match. */
  datatype DirMatch = DirMatch(hash: nat, kindEnd: nat, argsStart: nat, end: nat)

  /** `s[i..m.end]` is a match of the directive alternative split as `m`
      says: `{{`, whitespace, `#`, kind characters, at least one whitespace,
      at least one argument character other than `}`, then `}}`. */
  ghost predicate DirectiveShape(s: string, i: nat, m: DirMatch)
  {
    i + 2 <= m.hash && m.hash + 1 < m.kindEnd < m.argsStart < m.end - 2 && m.end <= |s|
    && s[i] == '{' && s[i + 1] == '{'
    && (forall k :: i + 2 <= k < m.hash ==> IsSpace(s[k])) && s[m.hash] == '#'
    && (forall k :: m.hash < k < m.kindEnd ==> IsKindChar(s[k]))
    && (forall k :: m.kindEnd <= k < m.argsStart ==> IsSpace(s[k]))
    && (forall k :: m.argsStart <= k < m.end - 2 ==> NotCloseBrace(s[k]))
    && ClosesAt(s, m.end)
  }

  /** The directive alternative tried at `i`, taking each part as the
      backtracking matcher does: maximal runs, except that the separating
      whitespace gives back one character when the arguments would
      otherwise be empty. */
  function DirectiveAt(s: string, i: nat): (r: Option<DirMatch>)
    requires i <= |s|
    ensures r.Some? ==> DirectiveShape(s, i, r.value)
  {
    if i + 2 > |s| || s[i] != '{' || s[i + 1] != '{' then None
    else
      var h := SpanWhile(s, i + 2, IsSpace);
      if h == |s| || s[h] != '#' then None
      else
        var k := SpanWhile(s, h + 1, IsKindChar);
        if k == h + 1 then None
        else
          var w := SpanWhile(s, k, IsSpace);
          if w == k then None
          else
            var q := SpanWhile(s, w, NotCloseBrace);
            var a := if q > w then w else w - 1;
            if a == k || q + 2 > |s| || s[q + 1] != '}' then None
            else
              RunsMakeDirective(s, i, h, k, w, q);
              Some(DirMatch(h, k, a, q + 2))
  }

  /** The runs `DirectiveAt` takes form a directive match when they close
      with `}}` and leave a separator. */
  lemma RunsMakeDirective(s: string, i: nat, h: nat, k: nat, w: nat, q: nat)
    requires i + 2 <= |s| && s[i] == '{' && s[i + 1] == '{'
    requires h == SpanWhile(s, i + 2, IsSpace) && h < |s| && s[h] == '#'
    requires k == SpanWhile(s, h + 1, IsKindChar) && k > h + 1
    requires w == SpanWhile(s, k, IsSpace) && w > k
    requires q == SpanWhile(s, w, NotCloseBrace) && q + 2 <= |s| && s[q + 1] == '}'
    requires (if q > w then w else w - 1) != k
    ensures DirectiveShape(s, i, DirMatch(h, k, if q > w then w else w - 1, q + 2))
  {
    if q == w {
      assert IsSpace(s[w - 1]);
    }
  }

  /** `DirectiveAt` is the regular expression's reading of the directive
      alternative: it finds a match whenever one exists, every match ends
      where it ends and splits the kind where it does, and of the possible
      splits between separator and arguments it takes the greedy one. */
  lemma DirectiveAtIsGreedyMatch(s: string, i: nat, m: DirMatch)
    requires i <= |s|
    requires DirectiveShape(s, i, m)
    ensures DirectiveAt(s, i).Some?
    ensures var d := DirectiveAt(s, i).value;
            m.hash == d.hash && m.kindEnd == d.kindEnd && m.end == d.end && m.argsStart <= d.argsStart
  {
    GreedyHashAndKind(s, i, m);
    GreedyArgs(s, i, m);
    var h := SpanWhile(s, i + 2, IsSpace);
    assert h == m.hash && h < |s| && s[h] == '#';
    var k := SpanWhile(s, h + 1, IsKindChar);
    assert k == m.kindEnd && k != h + 1;
    var w := SpanWhile(s, k, IsSpace);
    assert w != k;
    var q := SpanWhile(s, w, NotCloseBrace);
    assert q == m.end - 2 && q + 2 <= |s| && s[q + 1] == '}';
    assert (if q > w then w else w - 1) != k;
    DirectiveAtRuns(s, i, h, k, w, q);
  }

  /** When the runs close with `}}` and leave a separator, `DirectiveAt`
      returns the match they delimit. */
  lemma DirectiveAtRuns(s: string, i: nat, h: nat, k: nat, w: nat, q: nat)
    requires i + 2 <= |s| && s[i] == '{' && s[i + 1] == '{'
    requires h == SpanWhile(s, i + 2, IsSpace) && h < |s| && s[h] == '#'
    requires k == SpanWhile(s, h + 1, IsKindChar) && k > h + 1
    requires w == SpanWhile(s, k, IsSpace) && w > k
    requires q == SpanWhile(s, w, NotCloseBrace) && q + 2 <= |s| && s[q + 1] == '}'
    requires (if q > w then w else w - 1) != k
    ensures DirectiveAt(s, i) == Some(DirMatch(h, k, if q > w then w else w - 1, q + 2))
  {
  }

  /** The leading whitespace and the kind of any directive match are the
      maximal runs the matcher takes. */
  lemma GreedyHashAndKind(s: string, i: nat, m: DirMatch)
    requires i <= |s|
    requires DirectiveShape(s, i, m)
    ensures SpanWhile(s, i + 2, IsSpace) == m.hash
    ensures SpanWhile(s, m.hash + 1, IsKindChar) == m.kindEnd
  {
    SpanWhileAt(s, i + 2, IsSpace, m.hash);
    assert IsSpace(s[m.kindEnd]);
    SpanWhileAt(s, m.hash + 1, IsKindChar, m.kindEnd);
  }

  /** In any directive match the maximal separator run reaches the
      arguments without swallowing the closing braces, and the arguments
      run from there to the closing braces. */
  lemma GreedyArgs(s: string, i: nat, m: DirMatch)
    requires i <= |s|
    requires DirectiveShape(s, i, m)
    ensures var w := SpanWhile(s, m.kindEnd, IsSpace);
            m.argsStart <= w <= m.end - 2 && SpanWhile(s, w, NotCloseBrace) == m.end - 2
  {
    SpanWhileCovers(s, m.kindEnd, IsSpace, m.argsStart);
    SpanWhileStops(s, m.kindEnd, IsSpace, m.end - 2);
    var w := SpanWhile(s, m.kindEnd, IsSpace);
    SpanWhileAt(s, w, NotCloseBrace, m.end - 2);
  }

  // ---------------------------------------------------------------------
  // Captures
  // ---------------------------------------------------------------------

  /** A match of the link pattern. `groups` holds the kind and the arguments
      for the directive alternative and is absent for an escaped link. */
  datatype Capture = Capture(start: nat, end: nat, text: string, groups: Option<(string, string)>)

  /** The pattern tried at position `i`: the escaped alternative first. The
      two alternatives begin with different characters, so at most one of
      them can apply. */
  function CaptureAt(s: string, i: nat): (r: Option<Capture>)
    requires i <= |s|
    ensures r.Some? ==> r.value.start == i < r.value.end <= |s| && r.value.text == s[i..r.value.end]
  {
    match EscapedEnd(s, i)
    case Some(e) => Some(Capture(i, e, s[i..e], None))
    case None =>
      match DirectiveAt(s, i)
      case Some(m) =>
        Some(Capture(i, m.end, s[i..m.end], Some((s[m.hash + 1..m.kindEnd], s[m.argsStart..m.end - 2]))))
      case None => None
  }

  /** No match of either alternative starts at `i` exactly when `CaptureAt` finds none. */
  lemma NoCaptureIffNoMatch(s: string, i: nat)
    requires i <= |s|
    ensures CaptureAt(s, i).None?
            <==> (forall e: nat :: !EscapedShape(s, i, e)) && (forall m :: !DirectiveShape(s, i, m))
  {
    if CaptureAt(s, i).None? {
      forall m | DirectiveShape(s, i, m) ensures false {
        DirectiveAtIsGreedyMatch(s, i, m);
      }
    }
  }

  /** `captures_iter`'s next step: the leftmost match at or after `pos`. */
  function NextCapture(s: string, pos: nat): (r: Option<Capture>)
    requires pos <= |s|
    ensures r.Some? ==> pos <= r.value.start <= |s| && CaptureAt(s, r.value.start) == r
    ensures forall p :: pos <= p <= |s| && (r.None? || p < r.value.start) ==> CaptureAt(s, p).None?
    decreases |s| - pos
  {
    match CaptureAt(s, pos)
    case Some(c) => Some(c)
    case None => if pos == |s| then None else NextCapture(s, pos + 1)
  }

  /** The text of an escaped capture starts with the escape character, so
      `from_capture`'s `starts_with` test never rejects one. */
  lemma EscapedCaptureStartsWithEscape(s: string, i: nat)
    requires i <= |s|
    requires CaptureAt(s, i).Some? && CaptureAt(s, i).value.groups.None?
    ensures |CaptureAt(s, i).value.text| > 0 && CaptureAt(s, i).value.text[0] == ESCAPE_CHAR
  {
    var e := EscapedEnd(s, i).value;
    assert s[i..e][0] == s[i..i + 4][0];
  }

  // ---------------------------------------------------------------------
  // Links
  // ---------------------------------------------------------------------

  /** `Link`: where a token lies, what it asks for and its literal text. */
  datatype Link = Link(start: nat, end: nat, linkType: LinkType, text: string)

  /** `Link::from_capture`: a `webinclude` directive is parsed (a bad URL
      panics), an escaped token is kept as `Escaped`, any other capture
      yields no link. */
  function FromCapture(cap: Capture, urlIsValid: string -> bool): (r: Abortable<Option<Link>>)
    ensures r.Value? && r.value.Some? ==>
              var l := r.value.value;
              l.start == cap.start && l.end == cap.end && l.text == cap.text
              && (l.linkType.Escaped? <==> cap.groups.None?)
              && (l.linkType.Escaped? ==> |l.text| > 0 && l.text[0] == ESCAPE_CHAR)
              && (cap.groups.Some? ==> cap.groups.value.0 == "webinclude")
    ensures r.Panicked? ==> cap.groups.Some? && cap.groups.value.0 == "webinclude"
    ensures cap.groups.Some? && cap.groups.value.0 != "webinclude" ==> r == Value(None)
  {
    match cap.groups
    case Some((kind, args)) =>
      if kind == "webinclude" then
        match ParseIncludePath(args, urlIsValid)
        case Value(linkType) => Value(Some(Link(cap.start, cap.end, linkType, cap.text)))
        case Panicked => Panicked
      else Value(None)
    case None =>
      if |cap.text| > 0 && cap.text[0] == ESCAPE_CHAR then Value(Some(Link(cap.start, cap.end, Escaped, cap.text)))
      else Value(None)
  }

  /** A link lies inside `s`, its text is the slice it spans, and an escaped
      link's text starts with the escape character. */
  predicate LinkIn(s: string, l: Link)
  {
    l.start < l.end <= |s| && l.text == s[l.start..l.end]
    && (l.linkType.Escaped? ==> l.text[0] == ESCAPE_CHAR)
  }

  /** Links inside `s`, at or after `from`, in increasing order and
      pairwise disjoint. */
  ghost predicate Ordered(s: string, links: seq<Link>, from: nat)
  {
    from <= |s|
    && (forall i :: 0 <= i < |links| ==> LinkIn(s, links[i]) && from <= links[i].start)
    && (forall i, j :: 0 <= i < j < |links| ==> links[i].end <= links[j].start)
  }

  /** A link followed by an outcome of further links. */
  function Cons(l: Link, rest: Abortable<seq<Link>>): Abortable<seq<Link>>
  {
    match rest
    case Value(ls) => Value([l] + ls)
    case Panicked => Panicked
  }

  /** Every link the iterator yields from `pos` on, or a panic if one of
      the directives it reaches has a URL that does not parse. */
  function ScanFrom(s: string, pos: nat, urlIsValid: string -> bool): (r: Abortable<seq<Link>>)
    requires pos <= |s|
    ensures r.Value? ==> Ordered(s, r.value, pos)
    decreases |s| - pos
  {
    match NextCapture(s, pos)
    case None => Value([])
    case Some(cap) =>
      match FromCapture(cap, urlIsValid)
      case Panicked => Panicked
      case Value(None) => ScanFrom(s, cap.end, urlIsValid)
      case Value(Some(link)) =>
        var rest := ScanFrom(s, cap.end, urlIsValid);
        ConsOrdered(s, link, rest, pos);
        Cons(link, rest)
  }

  /** A link in front of ordered links that start after it keeps them ordered. */
  lemma ConsOrdered(s: string, l: Link, rest: Abortable<seq<Link>>, from: nat)
    requires LinkIn(s, l) && from <= l.start
    requires rest.Value? ==> Ordered(s, rest.value, l.end)
    ensures Cons(l, rest).Value? ==> Ordered(s, Cons(l, rest).value, from)
  {
  }

  /** Every link `find_links(s)` yields, in order. */
  function FindLinks(s: string, urlIsValid: string -> bool): (r: Abortable<seq<Link>>)
    ensures r.Value? ==> Ordered(s, r.value, 0)
  {
    ScanFrom(s, 0, urlIsValid)
  }

  /** Each yielded link is the leftmost capture at or after the previous
      link's end, and it is a `webinclude` directive or an escaped token. */
  lemma {:induction false} ScannedLinksAreCaptures(s: string, pos: nat, urlIsValid: string -> bool)
    requires pos <= |s|
    requires ScanFrom(s, pos, urlIsValid).Value?
    ensures forall l :: l in ScanFrom(s, pos, urlIsValid).value ==>
              CaptureAt(s, l.start).Some? && FromCapture(CaptureAt(s, l.start).value, urlIsValid) == Value(Some(l))
              && (l.linkType.Escaped? || CaptureAt(s, l.start).value.groups == Some(("webinclude", IncludedArgs(s, l))))
    decreases |s| - pos
  {
    match NextCapture(s, pos)
    case None =>
    case Some(cap) =>
      ScannedLinksAreCaptures(s, cap.end, urlIsValid);
  }

  /** The arguments group of the directive capture at a link's start. */
  function IncludedArgs(s: string, l: Link): string
    requires l.start <= |s|
  {
    match CaptureAt(s, l.start)
    case Some(Capture(_, _, _, Some((_, args)))) => args
    case _ => ""
  }

  // ---------------------------------------------------------------------
  // LinkIter
  // ---------------------------------------------------------------------

  /** `LinkIter`: the capture iterator over `text`; `pos` is where it
      resumes searching. `find_links(text)` is its constructor. */
  class LinkIter {
    const text: string
    const urlIsValid: string -> bool
    var pos: nat

    ghost predicate Valid()
      reads this
    {
      pos <= |text|
    }

    constructor (contents: string, urlIsValid: string -> bool)
      ensures Valid() && text == contents && this.urlIsValid == urlIsValid && pos == 0
      ensures ScanFrom(text, pos, urlIsValid) == FindLinks(contents, urlIsValid)
    {
      text := contents;
      this.urlIsValid := urlIsValid;
      pos := 0;
    }

    /** `LinkIter::next`: consumes captures until one is a link. The caller
        receives the next link, the end of the links, or the panic of a
        directive whose URL does not parse. */
    method Next() returns (r: Abortable<Option<Link>>)
      requires Valid()
      modifies this
      ensures Valid() && old(pos) <= pos
      ensures r.Panicked? ==> ScanFrom(text, old(pos), urlIsValid).Panicked?
      ensures r == Value(None) ==> ScanFrom(text, old(pos), urlIsValid) == Value([])
      ensures r.Value? && r.value.Some? ==>
                LinkIn(text, r.value.value) && old(pos) <= r.value.value.start && r.value.value.end == pos
                && ScanFrom(text, old(pos), urlIsValid) == Cons(r.value.value, ScanFrom(text, pos, urlIsValid))
    {
      while true
        invariant Valid() && old(pos) <= pos
        invariant ScanFrom(text, old(pos), urlIsValid) == ScanFrom(text, pos, urlIsValid)
        decreases |text| - pos
      {
        var cap := NextCapture(text, pos);
        if cap.None? {
          return Value(None);
        }
        pos := cap.value.end;
        var link := FromCapture(cap.value, urlIsValid);
        if link.Panicked? {
          return Panicked;
        }
        if link.value.Some? {
          return link;
        }
      }
    }
  }
}
