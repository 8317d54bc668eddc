/** The substitution driver of src/webinclude.rs: rendering one link
    (`Link::render_with_url`) and splicing rendered links back into the
    text, recursively up to a fixed depth (`replace_all`). The network is a
    parameter: a `World` says which URLs parse and what a request returns. */
module WebInclude {
  import opened Strings
  import opened Utils
  import opened IncludeArgs
  import opened LinkScan

  // ---------------------------------------------------------------------
  // Configuration and the outside world
  // ---------------------------------------------------------------------

  /** A value of the preprocessor's TOML configuration. Only strings matter
      here; the other kinds are told apart but carry nothing. */
  datatype TomlValue = TString(text: string) | TInteger(n: int) | TFloat | TBoolean(b: bool) | TDatetime | TArray | TTable

  /** The `headers` table, in its iteration order. */
  type Table = seq<(string, TomlValue)>

  /** What a request gives back: a body decoded as UTF-8, a failed call
      (transport error or error status), or a body that could not be read
      as UTF-8. */
  datatype Response = Body(text: string) | CallFailed | ReadFailed

  /** The URL parser's verdict and the HTTP client, as fixed functions. */
  datatype World = World(urlIsValid: string -> bool, get: (string, seq<(string, string)>) -> Response)

  /** The two ways rendering a link fails, with the URL and the link text
      the error message names. */
  datatype RenderError = CouldNotQuery(url: string, linkText: string) | ExpectedUtf8(url: string, linkText: string)

  /** The headers set on a request: the string-valued entries of the table,
      in table order; entries of any other kind are skipped. */
  function StringEntries(t: Table): (r: seq<(string, string)>)
    ensures |r| <= |t|
    ensures forall p :: p in r ==> (p.0, TString(p.1)) in t
    ensures forall e :: e in t && e.1.TString? ==> (e.0, e.1.text) in r
    decreases |t|
  {
    if |t| == 0 then []
    else
      var last := t[|t| - 1];
      assert t == t[..|t| - 1] + [last];
      StringEntries(t[..|t| - 1]) + (if last.1.TString? then [(last.0, last.1.text)] else [])
  }

  /** The headers of a request when the configuration may have no table. */
  function RequestHeaders(headers: Option<Table>): seq<(string, string)>
  {
    match headers
    case None => []
    case Some(t) => StringEntries(t)
  }

  // ---------------------------------------------------------------------
  // Rendering one link
  // ---------------------------------------------------------------------

  /** The part of a fetched body a span selects. A line range always gives
      one contiguous block of the body's lines, and the whole range gives
      back a body that has no carriage return and no final line feed. */
  function Excerpt(body: string, span: RangeOrAnchor): (r: string)
    ensures span.Range? ==> exists lo: nat, hi: nat :: JoinedBlock(Lines(body), lo, hi, r)
    ensures span == Range(Full) && '\r' !in body && (body == [] || body[|body| - 1] != '\n') ==> r == body
  {
    match span
    case Range(range) =>
      TakeLinesFull(body);
      TakeLines(body, StartBound(range), EndBound(range))
    case Anchor(name) => Join(AnchoredLines(body, name), "\n")
  }

  /** What `render_with_url` returns. An escaped token never fails and
      loses exactly its first character; a directive fails only when the
      request does, with an error naming its URL and its text. */
  function Rendered(link: Link, headers: Option<Table>, world: World): (r: Result<string, RenderError>)
    requires link.linkType.Escaped? ==> |link.text| >= 1
    ensures link.linkType.Escaped? ==> r.Ok? && [link.text[0]] + r.value == link.text
    ensures r.Err? ==> link.linkType.WebInclude? && r.error.url == link.linkType.url && r.error.linkText == link.text
    ensures link.linkType.WebInclude? ==>
              (r.Ok? <==> world.get(link.linkType.url, RequestHeaders(headers)).Body?)
  {
    match link.linkType
    case Escaped => Ok(link.text[1..])
    case WebInclude(url, span) =>
      match world.get(url, RequestHeaders(headers))
      case Body(body) => Ok(Excerpt(body, span))
      case CallFailed => Err(CouldNotQuery(url, link.text))
      case ReadFailed => Err(ExpectedUtf8(url, link.text))
  }

  /** A fetched body goes through the line extractor its span names. */
  lemma RenderedBody(link: Link, headers: Option<Table>, world: World, body: string)
    requires link.linkType.WebInclude?
    requires world.get(link.linkType.url, RequestHeaders(headers)) == Body(body)
    ensures link.linkType.span.Range? ==>
              Rendered(link, headers, world)
              == Ok(TakeLines(body, StartBound(link.linkType.span.range), EndBound(link.linkType.span.range)))
    ensures link.linkType.span.Anchor? ==>
              Rendered(link, headers, world) == Ok(Join(AnchoredLines(body, link.linkType.span.name), "\n"))
  {
  }

  /** `Link::render_with_url`: builds the request headers one table entry
      at a time, sends the request and cuts the body down to the span. */
  method RenderWithUrl(link: Link, headers: Option<Table>, world: World) returns (r: Result<string, RenderError>)
    requires link.linkType.Escaped? ==> |link.text| >= 1
    ensures r == Rendered(link, headers, world)
  {
    match link.linkType
    case Escaped =>
      r := Ok(link.text[1..]);
    case WebInclude(url, span) =>
      var requestHeaders: seq<(string, string)> := [];
      if headers.Some? {
        var t := headers.value;
        for j := 0 to |t|
          invariant requestHeaders == StringEntries(t[..j])
        {
          assert t[..j + 1][..j] == t[..j];
          if t[j].1.TString? {
            requestHeaders := requestHeaders + [(t[j].0, t[j].1.text)];
          }
        }
        assert t[..|t|] == t;
      }
      match world.get(url, requestHeaders) {
        case Body(body) =>
          match span {
            case Range(range) =>
              r := Ok(TakeLines(body, StartBound(range), EndBound(range)));
            case Anchor(name) =>
              var excerpt := TakeAnchoredLines(body, name);
              r := Ok(excerpt);
          }
        case CallFailed =>
          r := Err(CouldNotQuery(url, link.text));
        case ReadFailed =>
          r := Err(ExpectedUtf8(url, link.text));
      }
  }

  // ---------------------------------------------------------------------
  // The driver
  // ---------------------------------------------------------------------

  const MAX_LINK_NESTED_DEPTH: nat := 10

  /** How many more levels of nesting may still be expanded. */
  function DepthBudget(depth: nat): nat
  {
    if depth < MAX_LINK_NESTED_DEPTH then MAX_LINK_NESTED_DEPTH - depth else 0
  }

  /** What is done with the rendered text of an escaped token: the program
      scans it again like a fetched body; `KeepEscaped` is the reading in
      which the unescaped directive is kept as literal text. */
  datatype EscapeMode = RescanEscaped | KeepEscaped

  /** `replace_all(s, depth, headers)`: the text with its links expanded,
      or a panic when a directive with a malformed URL is reached. */
  function Expand(s: string, depth: nat, headers: Option<Table>, world: World, mode: EscapeMode): (r: Abortable<string>)
    ensures FindLinks(s, world.urlIsValid).Panicked? ==> r.Panicked?
    ensures FindLinks(s, world.urlIsValid) == Value([]) ==> r == Value(s)
    decreases DepthBudget(depth), 1, 0
  {
    match FindLinks(s, world.urlIsValid)
    case Panicked => Panicked
    case Value(links) =>
      assert s[0..] == s;
      Splice(s, links, 0, depth, headers, world, mode)
  }

  /** The loop of `replace_all` from the point where the remaining links
      are `links` and `prev` is `previous_end_index`: each link's gap is
      copied, a rendered link is expanded one level deeper while the depth
      allows (and contributes nothing beyond it), and a failed link leaves
      `prev` at its start so that its text is copied with the next gap. */
  function Splice(s: string, links: seq<Link>, prev: nat, depth: nat, headers: Option<Table>, world: World, mode: EscapeMode): (r: Abortable<string>)
    requires Ordered(s, links, prev)
    ensures r.Value? && |links| > 0 ==> s[prev..links[0].start] <= r.value
    decreases DepthBudget(depth), 0, |links|
  {
    if |links| == 0 then Value(s[prev..])
    else
      var link := links[0];
      var gap := Value(s[prev..link.start]);
      match Rendered(link, headers, world)
      case Err(_) => Cat(gap, Splice(s, links[1..], link.start, depth, headers, world, mode))
      case Ok(content) =>
        Cat(gap, Cat(Nested(link, content, depth, headers, world, mode), Splice(s, links[1..], link.end, depth, headers, world, mode)))
  }

  /** Whatever the links render to, the text after the last one ends the
      output unchanged. */
  lemma {:induction false} SpliceKeepsTail(s: string, links: seq<Link>, prev: nat, depth: nat, headers: Option<Table>, world: World, mode: EscapeMode)
    requires Ordered(s, links, prev) && |links| > 0
    ensures var r := Splice(s, links, prev, depth, headers, world, mode);
            r.Value? ==> EndsWith(r.value, s[links[|links| - 1].end..])
    decreases |links|
  {
    var link := links[0];
    var last := links[|links| - 1];
    var gap := Value(s[prev..link.start]);
    var from := if Rendered(link, headers, world).Err? then link.start else link.end;
    var tail := Splice(s, links[1..], from, depth, headers, world, mode);
    if |links| == 1 {
      assert links[1..] == [];
      SliceEndsWith(s, from, link.end);
    } else {
      assert links[1..][|links| - 2] == last;
      SpliceKeepsTail(s, links[1..], from, depth, headers, world, mode);
    }
    match Rendered(link, headers, world)
    case Err(_) =>
      EndsWithConcat(gap, tail, s[last.end..]);
    case Ok(content) =>
      var nested := Nested(link, content, depth, headers, world, mode);
      EndsWithConcat(nested, tail, s[last.end..]);
      EndsWithConcat(gap, Cat(nested, tail), s[last.end..]);
  }

  /** `t` ends with `suffix`. */
  predicate EndsWith(t: string, suffix: string)
  {
    |suffix| <= |t| && t[|t| - |suffix|..] == suffix
  }

  lemma SliceEndsWith(s: string, a: nat, b: nat)
    requires a <= b <= |s|
    ensures EndsWith(s[a..], s[b..])
  {
    assert s[a..][|s[a..]| - |s[b..]|..] == s[b..];
  }

  lemma EndsWithConcat(a: Abortable<string>, b: Abortable<string>, suffix: string)
    requires b.Value? ==> EndsWith(b.value, suffix)
    ensures Cat(a, b).Value? ==> EndsWith(Cat(a, b).value, suffix)
  {
    if Cat(a, b).Value? {
      var t := a.value + b.value;
      assert t[|t| - |suffix|..] == b.value[|b.value| - |suffix|..];
    }
  }

  /** What a rendered link contributes: nothing at the depth cap, otherwise
      its rendering expanded one level deeper (kept as it is for an escaped
      token under `KeepEscaped`). */
  function Nested(link: Link, content: string, depth: nat, headers: Option<Table>, world: World, mode: EscapeMode): (r: Abortable<string>)
    ensures depth >= MAX_LINK_NESTED_DEPTH ==> r == Value("")
    ensures link.linkType.Escaped? && mode == KeepEscaped ==> r.Value?
    decreases DepthBudget(depth), 0, 0
  {
    if depth >= MAX_LINK_NESTED_DEPTH then Value("")
    else if link.linkType.Escaped? && mode == KeepEscaped then Value(content)
    else Expand(content, depth + 1, headers, world, mode)
  }

  /** Below the cap, a rendering with no links in it is appended unchanged. */
  lemma NestedWithoutLinks(link: Link, content: string, depth: nat, headers: Option<Table>, world: World, mode: EscapeMode)
    requires depth < MAX_LINK_NESTED_DEPTH && FindLinks(content, world.urlIsValid) == Value([])
    ensures Nested(link, content, depth, headers, world, mode) == Value(content)
  {
  }

  // ---------------------------------------------------------------------
  // The driver as a substitution
  // ---------------------------------------------------------------------

  /** What one link is replaced by: its own text when rendering fails, the
      nested expansion of its rendering below the depth cap, nothing at it. */
  function Replacement(link: Link, depth: nat, headers: Option<Table>, world: World, mode: EscapeMode): Abortable<string>
    requires link.linkType.Escaped? ==> |link.text| >= 1
  {
    match Rendered(link, headers, world)
    case Err(_) => Value(link.text)
    case Ok(content) => Nested(link, content, depth, headers, world, mode)
  }

  /** The replacement of every link, in order. */
  function Replacements(links: seq<Link>, depth: nat, headers: Option<Table>, world: World, mode: EscapeMode): (reps: seq<Abortable<string>>)
    requires forall i :: 0 <= i < |links| ==> links[i].linkType.Escaped? ==> |links[i].text| >= 1
    ensures |reps| == |links|
    ensures forall i :: 0 <= i < |links| ==> reps[i] == Replacement(links[i], depth, headers, world, mode)
  {
    seq(|links|, i requires 0 <= i < |links| => Replacement(links[i], depth, headers, world, mode))
  }

  /** `s` from `from` on with each link's span replaced by the matching
      entry of `reps`: gaps and replacements concatenated in order. */
  function Stitch(s: string, links: seq<Link>, from: nat, reps: seq<Abortable<string>>): Abortable<string>
    requires Ordered(s, links, from) && |reps| == |links|
    decreases |links|
  {
    if |links| == 0 then Value(s[from..])
    else Cat(Value(s[from..links[0].start]), Cat(reps[0], Stitch(s, links[1..], links[0].end, reps[1..])))
  }

  /** Starting the splice earlier only prefixes the skipped text. */
  lemma SpliceFromEarlier(s: string, links: seq<Link>, a: nat, b: nat, depth: nat, headers: Option<Table>, world: World, mode: EscapeMode)
    requires a <= b && Ordered(s, links, b)
    ensures Splice(s, links, a, depth, headers, world, mode)
            == Cat(Value(s[a..b]), Splice(s, links, b, depth, headers, world, mode))
  {
    if |links| == 0 {
      assert s[a..] == s[a..b] + s[b..];
    } else {
      var link := links[0];
      assert s[a..link.start] == s[a..b] + s[b..link.start];
      match Rendered(link, headers, world) {
        case Err(_) =>
          CatValues(s[a..b], s[b..link.start], Splice(s, links[1..], link.start, depth, headers, world, mode));
        case Ok(content) =>
          var nested := Nested(link, content, depth, headers, world, mode);
          CatValues(s[a..b], s[b..link.start], Cat(nested, Splice(s, links[1..], link.end, depth, headers, world, mode)));
      }
    }
  }

  /** The loop of `replace_all` computes the substitution: failed links keep
      their text, rendered links give way to their replacement. */
  lemma {:induction false} SpliceIsStitch(s: string, links: seq<Link>, prev: nat, depth: nat, headers: Option<Table>, world: World, mode: EscapeMode)
    requires Ordered(s, links, prev)
    ensures Splice(s, links, prev, depth, headers, world, mode)
            == Stitch(s, links, prev, Replacements(links, depth, headers, world, mode))
    decreases |links|
  {
    if |links| > 0 {
      var link := links[0];
      var reps := Replacements(links, depth, headers, world, mode);
      assert reps[1..] == Replacements(links[1..], depth, headers, world, mode);
      SpliceIsStitch(s, links[1..], link.end, depth, headers, world, mode);
      if Rendered(link, headers, world).Err? {
        SpliceFromEarlier(s, links[1..], link.start, link.end, depth, headers, world, mode);
      }
    }
  }

  /** `replace_all`'s output is the in-order concatenation of the untouched
      gaps and the links' replacements. */
  lemma ExpandIsStitch(s: string, depth: nat, headers: Option<Table>, world: World, mode: EscapeMode)
    requires FindLinks(s, world.urlIsValid).Value?
    ensures var links := FindLinks(s, world.urlIsValid).value;
            Expand(s, depth, headers, world, mode) == Stitch(s, links, 0, Replacements(links, depth, headers, world, mode))
  {
    SpliceIsStitch(s, FindLinks(s, world.urlIsValid).value, 0, depth, headers, world, mode);
  }

  /** A text with a single link expands to the text before it, its
      replacement and the text after it. */
  lemma ExpandSingleLink(s: string, link: Link, depth: nat, headers: Option<Table>, world: World, mode: EscapeMode)
    requires FindLinks(s, world.urlIsValid) == Value([link])
    ensures LinkIn(s, link)
    ensures Expand(s, depth, headers, world, mode)
            == Cat(Value(s[..link.start]), Cat(Replacement(link, depth, headers, world, mode), Value(s[link.end..])))
  {
    ExpandIsStitch(s, depth, headers, world, mode);
    assert [link][1..] == [];
    assert s[0..link.start] == s[..link.start];
  }

  /** Replacing every link by its own text gives the text back. */
  lemma {:induction false} StitchIdentity(s: string, links: seq<Link>, from: nat, reps: seq<Abortable<string>>)
    requires Ordered(s, links, from) && |reps| == |links|
    requires forall i :: 0 <= i < |links| ==> reps[i] == Value(links[i].text)
    ensures Stitch(s, links, from, reps) == Value(s[from..])
    decreases |links|
  {
    if |links| > 0 {
      var l := links[0];
      assert LinkIn(s, l) && reps[0] == Value(s[l.start..l.end]);
      StitchIdentity(s, links[1..], l.end, reps[1..]);
      CatValues(s[l.start..l.end], s[l.end..], Value(""));
      assert s[from..] == s[from..l.start] + (s[l.start..l.end] + s[l.end..]);
    }
  }

  /** A text without links comes out unchanged. */
  lemma ExpandNoLinks(s: string, depth: nat, headers: Option<Table>, world: World, mode: EscapeMode)
    requires FindLinks(s, world.urlIsValid) == Value([])
    ensures Expand(s, depth, headers, world, mode) == Value(s)
  {
  }

  /** When every link fails to render, the output is the input unchanged:
      each failed token's text is kept verbatim. */
  lemma ExpandAllFail(s: string, depth: nat, headers: Option<Table>, world: World, mode: EscapeMode)
    requires FindLinks(s, world.urlIsValid).Value?
    requires var links := FindLinks(s, world.urlIsValid).value;
             forall i :: 0 <= i < |links| ==> Rendered(links[i], headers, world).Err?
    ensures Expand(s, depth, headers, world, mode) == Value(s)
  {
    var links := FindLinks(s, world.urlIsValid).value;
    ExpandIsStitch(s, depth, headers, world, mode);
    StitchIdentity(s, links, 0, Replacements(links, depth, headers, world, mode));
  }

  /** At the depth cap a link that renders is consumed and contributes the
      empty string; no further level is expanded. */
  lemma ExpandAtCap(s: string, depth: nat, headers: Option<Table>, world: World, mode: EscapeMode)
    requires depth >= MAX_LINK_NESTED_DEPTH
    requires FindLinks(s, world.urlIsValid).Value?
    ensures var links := FindLinks(s, world.urlIsValid).value;
            var reps := Replacements(links, depth, headers, world, mode);
            Expand(s, depth, headers, world, mode) == Stitch(s, links, 0, reps)
            && forall i :: 0 <= i < |links| ==>
                 reps[i] == (if Rendered(links[i], headers, world).Ok? then Value("") else Value(links[i].text))
  {
    ExpandIsStitch(s, depth, headers, world, mode);
  }

  /** Below the cap the program renders an escaped token as its text without
      the backslash and then expands that text one level deeper, so the
      directive it names is fetched after all. */
  lemma EscapedRescanned(link: Link, depth: nat, headers: Option<Table>, world: World)
    requires link.linkType.Escaped? && |link.text| >= 1 && depth < MAX_LINK_NESTED_DEPTH
    ensures Replacement(link, depth, headers, world, RescanEscaped)
            == Expand(link.text[1..], depth + 1, headers, world, RescanEscaped)
  {
  }

  /** With `KeepEscaped`, an escaped token below the cap is replaced by its
      text without the backslash, literally. */
  lemma EscapedKeptLiteral(link: Link, depth: nat, headers: Option<Table>, world: World)
    requires link.linkType.Escaped? && |link.text| >= 1 && depth < MAX_LINK_NESTED_DEPTH
    ensures Replacement(link, depth, headers, world, KeepEscaped) == Value(link.text[1..])
  {
  }

  // ---------------------------------------------------------------------
  // replace_all
  // ---------------------------------------------------------------------

  /** The rest of the loop once the iterator stands at `pos`. */
  function Resume(s: string, pos: nat, prev: nat, depth: nat, headers: Option<Table>, world: World, mode: EscapeMode): Abortable<string>
    requires prev <= pos <= |s|
  {
    match ScanFrom(s, pos, world.urlIsValid)
    case Panicked => Panicked
    case Value(links) => Splice(s, links, prev, depth, headers, world, mode)
  }

  /** One turn of the loop: the rest of the output after the next link is
      found is the gap before it, then what becomes of that link, then the
      rest after it. */
  lemma ResumeAtLink(s: string, pos: nat, prev: nat, link: Link, depth: nat, headers: Option<Table>, world: World, mode: EscapeMode)
    requires prev <= pos && LinkIn(s, link) && pos <= link.start
    requires ScanFrom(s, pos, world.urlIsValid) == Cons(link, ScanFrom(s, link.end, world.urlIsValid))
    ensures Resume(s, pos, prev, depth, headers, world, mode)
            == Cat(Value(s[prev..link.start]),
                   match Rendered(link, headers, world)
                   case Err(_) => Resume(s, link.end, link.start, depth, headers, world, mode)
                   case Ok(content) => Cat(Nested(link, content, depth, headers, world, mode), Resume(s, link.end, link.end, depth, headers, world, mode)))
  {
    match ScanFrom(s, link.end, world.urlIsValid) {
      case Panicked =>
      case Value(rest) =>
        assert ([link] + rest)[1..] == rest;
    }
  }

  /** The loop invariant of `replace_all` carried past one link: the gap
      before it joins the finished output, and what remains is what becomes
      of the link followed by the rest of the text. */
  lemma AfterLink(target: Abortable<string>, replaced: string, s: string, pos: nat, prev: nat, link: Link, depth: nat, headers: Option<Table>, world: World, mode: EscapeMode)
    requires prev <= pos && LinkIn(s, link) && pos <= link.start
    requires ScanFrom(s, pos, world.urlIsValid) == Cons(link, ScanFrom(s, link.end, world.urlIsValid))
    requires target == Cat(Value(replaced), Resume(s, pos, prev, depth, headers, world, mode))
    ensures Rendered(link, headers, world).Err? ==>
              target == Cat(Value(replaced + s[prev..link.start]), Resume(s, link.end, link.start, depth, headers, world, mode))
    ensures Rendered(link, headers, world).Ok? ==>
              target == Cat(Value(replaced + s[prev..link.start]),
                            Cat(Nested(link, Rendered(link, headers, world).value, depth, headers, world, mode),
                                Resume(s, link.end, link.end, depth, headers, world, mode)))
  {
    ResumeAtLink(s, pos, prev, link, depth, headers, world, mode);
    match Rendered(link, headers, world) {
      case Err(_) =>
        CatValues(replaced, s[prev..link.start], Resume(s, link.end, link.start, depth, headers, world, mode));
      case Ok(content) =>
        CatValues(replaced, s[prev..link.start],
                  Cat(Nested(link, content, depth, headers, world, mode), Resume(s, link.end, link.end, depth, headers, world, mode)));
    }
  }

  /** What `replace_all` appends for a link that rendered as `content`:
      the rendering expanded one level deeper while the depth allows, the
      empty text past the cap. Under `KeepEscaped` an escaped token's
      rendering is appended as it is. */
  method ExpandNested(link: Link, content: string, depth: nat, headers: Option<Table>, world: World, mode: EscapeMode)
    returns (r: Abortable<string>)
    ensures r == Nested(link, content, depth, headers, world, mode)
    decreases DepthBudget(depth), 0
  {
    ghost var target := Nested(link, content, depth, headers, world, mode);
    if depth >= MAX_LINK_NESTED_DEPTH {
      r := Value("");
    } else if link.linkType.Escaped? && mode == KeepEscaped {
      r := Value(content);
    } else {
      assert target == Expand(content, depth + 1, headers, world, mode);
      r := ReplaceAll(content, depth + 1, headers, world, mode);
    }
  }

  /** `replace_all`: walks the links of `s`, appending each gap and each
      expansion to `replaced`; a panic while scanning or below aborts.
      `RescanEscaped` is the program as written. */
  method ReplaceAll(s: string, depth: nat, headers: Option<Table>, world: World, mode: EscapeMode) returns (r: Abortable<string>)
    ensures r == Expand(s, depth, headers, world, mode)
    decreases DepthBudget(depth), 1
  {
    ghost var target := Expand(s, depth, headers, world, mode);
    var previousEnd: nat := 0;
    var replaced := "";
    var iter := new LinkIter(s, world.urlIsValid);
    CatUnit(Resume(s, 0, 0, depth, headers, world, mode));
    while true
      invariant iter.Valid() && iter.text == s && iter.urlIsValid == world.urlIsValid
      invariant previousEnd <= iter.pos
      invariant target == Cat(Value(replaced), Resume(s, iter.pos, previousEnd, depth, headers, world, mode))
      decreases |s| - iter.pos
    {
      ghost var pos := iter.pos;
      var next := iter.Next();
      if next.Panicked? {
        return Panicked;
      }
      if next.value.None? {
        replaced := replaced + s[previousEnd..];
        return Value(replaced);
      }
      var link := next.value.value;
      AfterLink(target, replaced, s, pos, previousEnd, link, depth, headers, world, mode);
      replaced := replaced + s[previousEnd..link.start];
      var rendered := RenderWithUrl(link, headers, world);
      match rendered {
        case Err(_) =>
          previousEnd := link.start;
        case Ok(content) =>
          var nested := ExpandNested(link, content, depth, headers, world, mode);
          if nested.Panicked? {
            return Panicked;
          }
          CatValues(replaced, nested.value, Resume(s, link.end, link.end, depth, headers, world, mode));
          replaced := replaced + nested.value;
          previousEnd := link.end;
      }
    }
  }
}
