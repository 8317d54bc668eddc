# mdbook-webinclude, modelled in Dafny

mdbook-webinclude is an mdBook preprocessor. It replaces each
`{{#webinclude URL [span]}}` directive in a chapter with text fetched from
`URL`. The optional span picks part of the fetched body:

- `5` picks line 5;
- `2:4` picks lines 2 to 4, and `2:` or `:3` leave one end open;
- an anchor name picks the lines between `ANCHOR: name` and `ANCHOR_END: name`.

The inserted text is scanned again for directives, at most ten levels deep.
A directive written with a leading backslash (`\{{#webinclude …}}`) is meant
to come out literally, without the backslash.

The model has six modules:

- `Strings` — optional values, results, and `Abortable`, the outcome of code
  that may panic. It also holds the scanning primitives the others share:
  `IndexOf`, `SpanWhile` and `Join`.
- `Utils` — `src/utils.rs`:
  - `str::lines`, `take_lines` and the `Bound` cases of a range;
  - the anchor marker patterns and `take_anchored_lines`, which is an
    imperative loop proved against the two-state reference `Seeking`/`Collecting`.
- `IncludeArgs` — the directive payload:
  - `LineRange`, `RangeOrAnchor` and `LinkType`;
  - `str::parse::<usize>` and `splitn(3, ':')`;
  - `parse_range_or_anchor` and `parse_include_path`.
- `LinkScan` — the link pattern, matched by hand with the regular
  expression's leftmost-first, greedy semantics, and `Link::from_capture`.
  `find_links` and `LinkIter` are a class whose `Next` is proved against the
  function `ScanFrom`.
- `WebInclude` — `render_with_url` and `replace_all`:
  - both are imperative methods proved equal to the functions `Rendered` and
    `Expand`;
  - lemmas describe `Expand` as a substitution: each link's span is replaced
    by its rendering, or kept when rendering fails.
- `Scenarios` — worked inputs: an anchored block, and an escaped directive
  followed through the scanner and the driver.

The network and the URL parser are parameters. A `World` holds two fixed
functions:

- `urlIsValid` — whether `Url::from_str` accepts a string;
- `get` — what a request with the given headers returns. It yields a decoded
  body, a failed call, or a body that is not UTF-8.

A URL that does not parse panics the whole run, and the model reports this as
`Panicked`.

The driver takes an `EscapeMode` parameter:

- `RescanEscaped` is the program as written;
- `KeepEscaped` is the reading in which an escaped token stays literal (see
  Findings).

The lemmas about the driver take the mode as a parameter and hold for both,
except the four about an escaped token below the cap, which each fix one
mode: `EscapedRescanned` and `EscapedDirectiveIsFetched` are about
`RescanEscaped`, and `EscapedKeptLiteral` and `EscapedDirectiveKept` are
about `KeepEscaped`.

### Behaviour worth knowing

- While collecting anchored lines, a closing marker for a different anchor
  is dropped from the output like an opening one (`src/utils.rs:40-51`).
- At the depth cap, a link that rendered contributes nothing: the rendered
  text is not appended (`src/webinclude.rs:67-75`).
- An escaped token runs to the last `}}` on its line, because the escaped
  alternative's `.*` is greedy (`src/webinclude.rs:279`).
- An escaped token is scanned again one level deeper, so the directive it
  spells out is fetched (`src/webinclude.rs:65-68`). See Findings.

## Model

| member | source | states |
|---|---|---|
| `Utils.SatSub` | src/utils.rs:16 | `saturating_sub` never goes below zero and is exact when no clamping occurs |
| `Utils.Lines` | src/utils.rs:13 | no line contains a line feed; only the empty text has no lines |
| `Utils.LinesCons` | src/utils.rs:13 | a first line without a line feed or a trailing carriage return comes off as the first of the lines |
| `Utils.LinesCrLf` | src/utils.rs:13 | a first line ended by a line feed comes off as the first of the lines, less one carriage return just before the line feed |
| `Utils.LinesFinalNewline` | src/utils.rs:13 | a final line feed does not add an empty last line |
| `Utils.JoinOfLines` | src/utils.rs:13-23 | joining the lines of a text with no carriage returns and no final line feed gives the text back |
| `Utils.LinesOfJoin` | src/utils.rs:13-23 | conversely, well-formed lines are the lines of their join |
| `Utils.Skip` | src/utils.rs:13 | `skip(n)` drops exactly the first `min(n, len)` lines |
| `Utils.Take` | src/utils.rs:16 | `take(n)` keeps exactly the first `min(n, len)` lines |
| `Utils.TakenLines` | src/utils.rs:7-22 | the lines kept for any pair of bounds are one contiguous block of the input's lines, starting at the start bound's line (clamped to the end) |
| `Utils.TakeLines` | src/utils.rs:7-25 | `take_lines` always returns one contiguous block of the input's lines joined by line feeds, and never fails |
| `Utils.TakenRange` | src/utils.rs:7-18 | `a..b` selects the contiguous block of `min(b - a, len - a)` lines starting at `a`, clamped, and never more |
| `Utils.TakeLinesInverted` | src/utils.rs:15-18 | an empty or inverted range `a..b` with `a >= b` yields the empty text |
| `Utils.TakenFrom` | src/utils.rs:8-13 | `a..` selects every line from `a` on |
| `Utils.TakenTo` | src/utils.rs:14-18 | `..b` selects the first `min(b, len)` lines |
| `Utils.TakeLinesFull` | src/utils.rs:23 | `..` is the join of all lines, which is the text itself when it has no carriage returns and no final line feed |
| `Utils.TakeLinesFinalNewline` | src/utils.rs:13-23 | `..` on a text without carriage returns that ends in a single line feed gives the text without that line feed |
| `Utils.NameAfter` | src/utils.rs:28-30 | the captured anchor name consists of name characters only |
| `Utils.NameAfterGreedy` | src/utils.rs:28-30 | the captured name is what greedy `\s*` then `[\w_-]+` take: all the whitespace after the marker is skipped, and the name runs up to the first character that is not a name character |
| `Utils.FindMarker` | src/utils.rs:27-30 | the marker pattern's leftmost match position, or no match anywhere |
| `Utils.MarkerName` | src/utils.rs:40-42 | a marker's captured name is never empty |
| `Utils.MarkerNameMatches` | src/utils.rs:40-42 | a line yields no name exactly when the marker matches nowhere in it |
| `Utils.AnchorStart` | src/utils.rs:27-28 | the `ANCHOR_START` capture of a line, when there is one, is a non-empty name |
| `Utils.AnchorEnd` | src/utils.rs:29-30 | the `ANCHOR_END` capture of a line, when there is one, is a non-empty name |
| `Utils.AnchorMarkersMatch` | src/utils.rs:27-30 | a line counts as opening (closing) exactly when the `ANCHOR:` (`ANCHOR_END:`) pattern matches somewhere in it |
| `Utils.MarkerNameLeftmost` | src/utils.rs:40-42 | when the marker's leftmost match in a line is at `i`, the line yields the name captured after that match |
| `Utils.SeekingStep` | src/utils.rs:52-56 | while seeking, the opening marker for the anchor switches to collecting and any other line is skipped |
| `Utils.SeekingEnters` | src/utils.rs:52-55 | the opening marker at line `k` starts collecting from line `k + 1` |
| `Utils.CollectingStops` | src/utils.rs:40-44 | while collecting, the closing marker for the anchor ends the scan |
| `Utils.CollectingGoesOn` | src/utils.rs:45-50 | while collecting, an unmarked line is kept, any other marker line is dropped, and the scan goes on |
| `Utils.TakeAnchoredLines` | src/utils.rs:34-60 | the loop returns the join of the lines the two-state reference retains |
| `Utils.UnmarkedLines` | src/utils.rs:46-49 | the reference filter keeps only lines with no marker, and never more lines than it is given |
| `Utils.NoOpeningMarker` | src/utils.rs:52-56 | without an opening marker for the anchor, nothing is retained |
| `Utils.SeekingSkips` | src/utils.rs:52-56 | while seeking, lines before the first opening marker are skipped |
| `Utils.CollectingBlock` | src/utils.rs:39-51 | collecting from line `a` keeps exactly the unmarked lines before the first closing marker for the anchor, or the end of the text |
| `Utils.UnmarkedLinesStep` | src/utils.rs:46-49 | the unmarked lines of a block are those of its first line followed by those of the rest |
| `Utils.SeekingToCollecting` | src/utils.rs:52-56 | seeking up to the first opening marker for the anchor turns into collecting from the line after it |
| `Utils.AnchoredBlock` | src/utils.rs:34-60 | `take_anchored_lines` retains exactly the unmarked lines strictly between the first opening marker and the next closing marker for the anchor, or the end of the text |
| `Utils.AnchoredLinesUnmarked` | src/utils.rs:46-49 | no retained line carries a marker |
| `Utils.CollectingUnmarked` | src/utils.rs:46-49 | no line kept while collecting carries a marker |
| `IncludeArgs.StartBound` | src/webinclude.rs:115-123 | a range's start bound is never exclusive; it is inclusive of the start exactly for `a..b` and `a..`, and unbounded otherwise |
| `IncludeArgs.EndBound` | src/webinclude.rs:124-133 | a range's end bound is never inclusive; it is exclusive of the end exactly for `a..b` and `..b`, and unbounded otherwise |
| `IncludeArgs.ParseUsize` | src/webinclude.rs:175 | a parsed number fits in a `usize` and comes from a non-empty field of ASCII digits with at most a leading `+`; every digit string whose value fits parses to that value |
| `IncludeArgs.ParseDecimal` | src/webinclude.rs:175 | every `usize`, printed in decimal with or without a `+`, parses back to itself |
| `IncludeArgs.SplitColon3` | src/webinclude.rs:172 | `splitn(3, ':')` gives one to three fields that join back to the input, and only the last of three fields may hold a colon |
| `IncludeArgs.ParseRangeOrAnchor` | src/webinclude.rs:171-199 | a range always fits in a `usize`; an anchor name is never empty and holds no colon |
| `IncludeArgs.ParseIncludePath` | src/webinclude.rs:159-169 | a parsed payload is always a `webinclude` link |
| `IncludeArgs.SpanExamplesSingle` | src/webinclude.rs:175-195 | `5` selects line index 4 alone; `0` and `1` both select line index 0 |
| `IncludeArgs.SpanExampleLeadingZero` | src/webinclude.rs:175-195 | `05` selects line index 4 alone: a leading zero is accepted |
| `IncludeArgs.SpanExamplePlus` | src/webinclude.rs:175-193 | `+2:4` selects lines 1 up to 4: a leading `+` is accepted |
| `IncludeArgs.SpanExampleBounded` | src/webinclude.rs:192-193 | `2:4` selects lines 1 up to 4, 0-based |
| `IncludeArgs.SpanExampleTo` | src/webinclude.rs:196 | `:3` selects the first three lines |
| `IncludeArgs.SpanExampleFrom` | src/webinclude.rs:194 | `2:` selects every line from index 1 on |
| `IncludeArgs.SpanExampleThirdField` | src/webinclude.rs:172-193 | `2:4:x` reads as `2:4` |
| `IncludeArgs.SpanExamplesFull` | src/webinclude.rs:197 | no span, an empty span and `:` all select the whole body |
| `IncludeArgs.SpanExampleAnchor` | src/webinclude.rs:180-181 | `intro` names the anchor `intro` |
| `IncludeArgs.SpanExampleAnchorRest` | src/webinclude.rs:172-181 | `intro:5` also names the anchor `intro`: what follows the name is not read |
| `IncludeArgs.SingleLine` | src/webinclude.rs:175-195 | any single field that parses as the number `n` selects line `n - 1` alone, saturating at 0 |
| `IncludeArgs.StartAndEnd` | src/webinclude.rs:175-193 | any `a:b` whose fields parse as numbers selects `a - 1` up to `b`: only the start is shifted to 0-based |
| `IncludeArgs.EndOnly` | src/webinclude.rs:178-196 | any `:b` whose second field parses as a number selects the first `b` lines |
| `IncludeArgs.EmptyStartUnparsedEnd` | src/webinclude.rs:178-197 | `:x`, where `x` is not a number or is empty, selects the whole body |
| `IncludeArgs.StartOnly` | src/webinclude.rs:186-194 | any `a:x` whose first field parses as a number, where `x` is not a number or is empty, selects every line from `a - 1` on |
| `IncludeArgs.ThirdFieldIgnored` | src/webinclude.rs:172-190 | fields after the second never change the result |
| `IncludeArgs.AnchorIffNotNumber` | src/webinclude.rs:174-184 | the span is an anchor exactly when its first field is non-empty and not a number, and the anchor is that field |
| `IncludeArgs.AnchorName` | src/webinclude.rs:180-181 | the anchor name is the text before the first colon |
| `IncludeArgs.SplitTwo` | src/webinclude.rs:172 | `f1:f2` splits into exactly `f1` and `f2` |
| `IncludeArgs.SplitThree` | src/webinclude.rs:172 | `f1:f2:rest` splits into `f1`, `f2` and the whole of `rest` |
| `IncludeArgs.IncludePathNoSpace` | src/webinclude.rs:159-169 | without a space, the whole payload is the URL and the whole body is selected; an invalid URL panics |
| `IncludeArgs.IncludePathSplit` | src/webinclude.rs:159-166 | the URL is the text before the first space and the span is everything after it; an invalid URL panics |
| `LinkScan.LastCloseEnd` | src/webinclude.rs:279 | the last position in a window at which a `}}` ends; no later one exists |
| `LinkScan.EscapedEnd` | src/webinclude.rs:279 | the escaped alternative matches here exactly when `EscapedEnd` finds an end, and it finds the longest match |
| `LinkScan.DirectiveAt` | src/webinclude.rs:281-285 | what the directive alternative finds is a match of that alternative |
| `LinkScan.RunsMakeDirective` | src/webinclude.rs:281-285 | the maximal runs, closed by `}}` and leaving a separator, form a directive match |
| `LinkScan.DirectiveAtRuns` | src/webinclude.rs:281-285 | in that case, the directive alternative returns the match those runs delimit |
| `LinkScan.DirectiveAtIsGreedyMatch` | src/webinclude.rs:281-285 | whenever a directive match exists, it is found with the same `#`, kind and end, and the greedy separator |
| `LinkScan.GreedyHashAndKind` | src/webinclude.rs:281-282 | in any match, the leading whitespace and the kind are the maximal runs |
| `LinkScan.GreedyArgs` | src/webinclude.rs:283-284 | in any match, the maximal separator stops before the closing braces and the arguments run up to them |
| `LinkScan.CaptureAt` | src/webinclude.rs:278-285 | a capture starts at the position tried, is non-empty, and its text is the slice it spans |
| `LinkScan.NoCaptureIffNoMatch` | src/webinclude.rs:278-285 | no capture is found at a position exactly when neither alternative matches there |
| `LinkScan.NextCapture` | src/webinclude.rs:290 | `captures_iter` finds the leftmost capture at or after the resume position |
| `LinkScan.EscapedCaptureStartsWithEscape` | src/webinclude.rs:215 | an escaped capture always starts with the escape character |
| `LinkScan.FromCapture` | src/webinclude.rs:210-229 | a link spans its capture and keeps its text; it is escaped exactly when the capture has no groups; a panic or a directive link needs the kind `webinclude`; other kinds yield no link |
| `LinkScan.ScanFrom` | src/webinclude.rs:261-273 | the yielded links lie in the text, in increasing order and pairwise disjoint |
| `LinkScan.ConsOrdered` | src/webinclude.rs:265-272 | a link in front of ordered links that start after it keeps them ordered |
| `LinkScan.FindLinks` | src/webinclude.rs:275-291 | `find_links` yields ordered, disjoint links inside the text |
| `LinkScan.ScannedLinksAreCaptures` | src/webinclude.rs:265-272 | every yielded link comes from the capture at its start and is either escaped or a `webinclude` directive with that capture's arguments |
| `LinkScan.LinkIter.constructor` | src/webinclude.rs:290 | a fresh iterator stands at the start of the text, and what it yields is `find_links` of the text |
| `LinkScan.LinkIter.Next` | src/webinclude.rs:265-272 | each call yields the next link that the reference scan yields, the end of the links, or the scan's panic; the iterator resumes after the yielded link |
| `WebInclude.Excerpt` | src/webinclude.rs:252-255 | a line range always yields one contiguous block of the body's lines; the whole range yields a body with no carriage return and no final line feed unchanged |
| `WebInclude.StringEntries` | src/webinclude.rs:237-243 | the request headers are exactly the string-valued table entries |
| `WebInclude.Rendered` | src/webinclude.rs:231-258 | an escaped token never fails and loses exactly its first character; a directive succeeds exactly when the request does; an error names the link's URL and text |
| `WebInclude.RenderedBody` | src/webinclude.rs:252-255 | a fetched body goes through `take_lines` or `take_anchored_lines`, as the span says |
| `WebInclude.RenderWithUrl` | src/webinclude.rs:231-258 | the method builds the headers entry by entry, requests and cuts the body, and equals `Rendered` |
| `WebInclude.Expand` | src/webinclude.rs:58-92 | a panic while scanning the text is the outcome of the whole expansion, and a text without links comes out unchanged |
| `WebInclude.Splice` | src/webinclude.rs:62-85 | when the loop succeeds, its output starts with the text before the first remaining link |
| `WebInclude.SpliceKeepsTail` | src/webinclude.rs:62-90 | when the loop succeeds, its output ends with the text after the last link, whatever the links render to |
| `WebInclude.Nested` | src/webinclude.rs:64-75 | at the depth cap a rendered link contributes the empty text; an escaped token kept literally never panics |
| `WebInclude.NestedWithoutLinks` | src/webinclude.rs:64-75 | below the cap, a rendering with no links in it is appended unchanged |
| `WebInclude.Replacements` | src/webinclude.rs:62-88 | one replacement per link, in order |
| `WebInclude.SpliceFromEarlier` | src/webinclude.rs:63-85 | starting the splice earlier only prefixes the skipped text |
| `WebInclude.SpliceIsStitch` | src/webinclude.rs:58-92 | the loop computes the substitution: gaps copied, each link replaced by its replacement |
| `WebInclude.ExpandIsStitch` | src/webinclude.rs:58-92 | `replace_all` is the in-order concatenation of untouched gaps and link replacements |
| `WebInclude.ExpandSingleLink` | src/webinclude.rs:62-90 | with one link, the output is the text before it, its replacement, and the text after it |
| `WebInclude.StitchIdentity` | src/webinclude.rs:83-85 | replacing every link by its own text gives the input back |
| `WebInclude.ExpandNoLinks` | src/webinclude.rs:90 | a text without links comes out unchanged |
| `WebInclude.ExpandAllFail` | src/webinclude.rs:77-86 | when every link fails to render, the output equals the input |
| `WebInclude.ExpandAtCap` | src/webinclude.rs:67-74 | at the depth cap, each rendered link contributes the empty text and each failed link keeps its text |
| `WebInclude.EscapedRescanned` | src/webinclude.rs:65-68 | as written, an escaped token below the cap is replaced by the expansion one level deeper of its text without the backslash |
| `WebInclude.EscapedKeptLiteral` | src/webinclude.rs:233-234 | in the corrected reading, an escaped token below the cap is replaced by its text without the backslash, literally |
| `WebInclude.ResumeAtLink` | src/webinclude.rs:62-87 | one turn of the loop: the gap, then what becomes of the link, then the rest of the text from the right index |
| `WebInclude.AfterLink` | src/webinclude.rs:62-87 | the loop invariant carried past one link, for both the failure and the success branch |
| `WebInclude.ExpandNested` | src/webinclude.rs:66-75 | a rendered link contributes its expansion one level deeper below the cap, and nothing at the cap |
| `WebInclude.ReplaceAll` | src/webinclude.rs:58-92 | the loop over the link iterator computes `Expand`, including the panics of a bad URL in the text or below it |
| `Scenarios.ShortLineUnmarked` | src/utils.rs:27-30 | a line shorter than a marker's literal carries no marker |
| `Scenarios.OpeningFoo` | src/utils.rs:27-28 | `ANCHOR: foo` opens the anchor `foo` |
| `Scenarios.ClosingFoo` | src/utils.rs:29-30 | `ANCHOR_END: foo` closes the anchor `foo` |
| `Scenarios.ExampleTextLines` | src/utils.rs:38 | the example text has the six expected lines |
| `Scenarios.SixLineBlock` | src/utils.rs:34-60 | with the markers on the second and fifth lines, exactly the two lines between them are retained |
| `Scenarios.ExampleMarkers` | src/utils.rs:40-56 | how the lines of the example are marked |
| `Scenarios.AnchoredExample` | src/utils.rs:34-60 | the lines between `ANCHOR: foo` and `ANCHOR_END: foo` are `A` and `B` |
| `Scenarios.AnchoredExampleText` | src/utils.rs:59 | the anchored excerpt of the example is `A\nB` |
| `Scenarios.EscapedCaptured` | src/webinclude.rs:279 | an escaped directive is captured whole, without groups |
| `Scenarios.EscapedLinks` | src/webinclude.rs:275-291 | the scanner yields the escaped directive as a single escaped link |
| `Scenarios.DirectiveMatched` | src/webinclude.rs:281-285 | `{{#webinclude u}}` splits as kind `webinclude` and arguments `u` |
| `Scenarios.DirectiveCaptured` | src/webinclude.rs:278-285 | the directive is captured with groups `webinclude` and `u` |
| `Scenarios.BareUrl` | src/webinclude.rs:159-168 | a bare URL asks for the whole body |
| `Scenarios.DirectiveLinks` | src/webinclude.rs:275-291 | the directive yields one link that asks for all of `u` |
| `Scenarios.DirectiveExpanded` | src/webinclude.rs:62-90 | below the cap, the directive expands to the fetched body |
| `Scenarios.EscapedSpliced` | src/webinclude.rs:62-90 | the escaped text expands to what its one link contributes |
| `Scenarios.EscapedDirectiveIsFetched` | src/webinclude.rs:65-68 | as written, `\{{#webinclude u}}` becomes the body of `u`, not the literal directive |
| `Scenarios.EscapedDirectiveKept` | src/webinclude.rs:233-234 | in the corrected reading, `\{{#webinclude u}}` becomes `{{#webinclude u}}` |

## Left out

- The mdBook glue (`src/webinclude.rs:17-57`) is not modelled. That covers the
  `Preprocessor` implementation, the walk over chapters, and reading the
  `headers` table from the configuration. The model starts at `replace_all`
  with the table, or its absence, as a parameter.
- The HTTP client (`ureq`) and UTF-8 decoding are folded into `World.get`. The
  error message is kept only as the two error kinds and the URL and link text
  they name; the wording and the error cause chain are left out.
- URL parsing is the abstract `World.urlIsValid`. A link keeps its URL as the
  argument text that parsed. `Url`'s normalised serialisation, used for the
  request, is folded into `get`.
- Logging (`error!`, `warn!`, `src/webinclude.rs:70-73` and `78-81`) is left
  out: it has no effect on the output.
- The regular-expression engine and `Lazy` statics are replaced by
  hand-written matchers with the same leftmost-first, greedy semantics. Only the
  two patterns used here are modelled.
- `Utils.IsAnchorNameChar`: `\w` in the anchor pattern is Unicode-aware; the
  model accepts only ASCII letters, digits, `_` and `-`.
- Positions are character indices, not UTF-8 byte offsets. Slicing a text at a
  link's start and end gives the same pieces either way.
- The `From` conversions into `LineRange` (`src/webinclude.rs:135-157`) are
  plain constructor applications in the model.
- `TakenLines` keeps the `Excluded` start and `Included` end bounds of
  `take_lines`. No `LineRange` produces them.
- `WebInclude.StringEntries`: the headers table is an ordered list. The model
  does not decide what the client does with a repeated key; that is left to
  `get`.
- `IncludeArgs.USIZE_MAX`: `usize` is taken to be 64 bits wide. The width
  decides where a long numeral stops parsing as a number and becomes an
  anchor name; on a 32-bit target that happens from 2^32 on.
- `Utils.Lines` follows the current `str::lines`: a final line without a line
  feed keeps a trailing carriage return. Older versions of the standard library
  stripped it there too.
- `take_lines` computes `n + 1` and `end + 1` in `usize` arithmetic. Neither can
  overflow for the bounds a `LineRange` yields, so the model uses unbounded
  naturals.
- `WebInclude.ReplaceAll` and `WebInclude.ExpandNested` take the `EscapeMode`
  parameter. `RescanEscaped` is the code as written.

## Findings

| source | as written | input that shows it | evidently intended | confidence | as-written member | corrected member |
|---|---|---|---|---|---|---|
| src/webinclude.rs:65-68 | an escaped token renders as its text without the backslash (line 234), and that text is passed to `replace_all` one level deeper, which scans it again and fetches the directive | the chapter text `\{{#webinclude u}}`, with every URL valid and every request returning `X`: the page gets `X` | the escape keeps the directive literal: the page gets `{{#webinclude u}}`. The escape syntax exists for this, and the comment at line 233 says only that the escape character is dropped | not executed | `Scenarios.EscapedDirectiveIsFetched` | `Scenarios.EscapedDirectiveKept` |
