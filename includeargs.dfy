/** The directive payload of `{{#webinclude URL [span]}}` (src/webinclude.rs):
    the link and span types, `usize` parsing, `parse_include_path` and
    `parse_range_or_anchor`. */
module IncludeArgs {
  import opened Strings
  import opened Utils

  /** `usize::MAX` on a 64-bit target. */
  const USIZE_MAX: nat := 0xFFFF_FFFF_FFFF_FFFF

  /** `LineRange`: the four range shapes a span can denote (0-based, end
      exclusive): `Bounded` is `LineRange::Range(a..b)`, `From` is
      `RangeFrom(a..)`, `To` is `RangeTo(..b)` and `Full` is `RangeFull(..)`. */
  datatype LineRange =
    | Bounded(start: nat, end: nat)
    | From(start: nat)
    | To(end: nat)
    | Full

  /** `RangeOrAnchor`: what part of the fetched body a link selects. */
  datatype RangeOrAnchor = Range(range: LineRange) | Anchor(name: string)

  /** `LinkType`. The URL is kept as the text that parsed as a URL. */
  datatype LinkType = Escaped | WebInclude(url: string, span: RangeOrAnchor)

  /** `RangeBounds::start_bound` for `LineRange`: never exclusive, and
      inclusive of the start exactly for the shapes that have one. */
  function StartBound(r: LineRange): (b: Bound)
    ensures !b.Excluded?
    ensures b.Included? <==> r.Bounded? || r.From?
    ensures b.Included? ==> b.n == r.start
  {
    match r
    case Bounded(a, _) => Included(a)
    case From(a) => Included(a)
    case To(_) => Unbounded
    case Full => Unbounded
  }

  /** `RangeBounds::end_bound` for `LineRange`: never inclusive, and
      exclusive of the end exactly for the shapes that have one. */
  function EndBound(r: LineRange): (b: Bound)
    ensures !b.Included?
    ensures b.Excluded? <==> r.Bounded? || r.To?
    ensures b.Excluded? ==> b.n == r.end
  {
    match r
    case Bounded(_, b) => Excluded(b)
    case From(_) => Unbounded
    case To(b) => Excluded(b)
    case Full => Unbounded
  }

  /** Every bound of the range fits in a `usize`. */
  predicate FitsUsize(r: LineRange)
  {
    match r
    case Bounded(a, b) => a <= USIZE_MAX && b <= USIZE_MAX
    case From(a) => a <= USIZE_MAX
    case To(b) => b <= USIZE_MAX
    case Full => true
  }

  // ---------------------------------------------------------------------
  // str::parse::<usize>
  // ---------------------------------------------------------------------

  predicate IsDigit(c: char) { '0' <= c <= '9' }

  predicate AllDigits(ds: string) { forall i :: 0 <= i < |ds| ==> IsDigit(ds[i]) }

  function DigitValue(c: char): nat requires IsDigit(c) { c as int - '0' as int }

  /** The decimal value of a digit string, most significant digit first. */
  function DigitsValue(ds: string): nat
    requires AllDigits(ds)
    decreases |ds|
  {
    if ds == [] then 0 else DigitsValue(ds[..|ds| - 1]) * 10 + DigitValue(ds[|ds| - 1])
  }

  /** `<usize as FromStr>::from_str`: an optional `+`, then one or more ASCII
      digits whose value fits in a `usize`. */
  function ParseUsize(t: string): (r: Option<nat>)
    ensures r.Some? ==> r.value <= USIZE_MAX
    ensures r.Some? ==> t != [] && ':' !in t
    ensures r.Some? ==> forall i :: 0 <= i < |t| ==> IsDigit(t[i]) || (i == 0 && t[i] == '+')
    ensures t != [] && AllDigits(t) && DigitsValue(t) <= USIZE_MAX ==> r == Some(DigitsValue(t))
  {
    var ds := if |t| > 0 && t[0] == '+' then t[1..] else t;
    if ds != [] && AllDigits(ds) && DigitsValue(ds) <= USIZE_MAX then
      assert ':' !in ds;
      assert forall i :: 1 <= i < |t| && ds == t[1..] ==> t[i] == ds[i - 1];
      Some(DigitsValue(ds))
    else None
  }

  /** The decimal numeral of `n`, without leading zeros. */
  function Decimal(n: nat): (ds: string)
    ensures ds != [] && AllDigits(ds)
    decreases n
  {
    if n < 10 then [('0' as int + n) as char]
    else Decimal(n / 10) + [('0' as int + n % 10) as char]
  }

  lemma {:induction false} DecimalValue(n: nat)
    ensures DigitsValue(Decimal(n)) == n
    decreases n
  {
    if n >= 10 {
      DecimalValue(n / 10);
      var ds := Decimal(n);
      assert ds[..|ds| - 1] == Decimal(n / 10);
    }
  }

  /** Parsing reads back every printed `usize`, with or without a `+`. */
  lemma ParseDecimal(n: nat)
    requires n <= USIZE_MAX
    ensures ParseUsize(Decimal(n)) == Some(n)
    ensures ParseUsize("+" + Decimal(n)) == Some(n)
  {
    DecimalValue(n);
    assert ("+" + Decimal(n))[1..] == Decimal(n);
  }

  // ---------------------------------------------------------------------
  // str::splitn(3, ':')
  // ---------------------------------------------------------------------

  /** `t.splitn(3, ':')`: at most three fields; the third keeps any further colons. */
  function SplitColon3(t: string): (fields: seq<string>)
    ensures 1 <= |fields| <= 3
    ensures Join(fields, ":") == t
    ensures forall i :: 0 <= i < |fields| && (i < 2 || |fields| < 3) ==> ':' !in fields[i]
  {
    var i := IndexOf(t, ':', 0);
    assert ':' !in t[..i];
    if i == |t| then [t]
    else
      var rest := t[i + 1..];
      var j := IndexOf(rest, ':', 0);
      assert ':' !in rest[..j];
      if j == |rest| then
        assert t == t[..i] + ":" + rest;
        [t[..i], rest]
      else
        assert rest == rest[..j] + ":" + rest[j + 1..];
        assert t == t[..i] + ":" + rest;
        JoinCons(rest[..j], [rest[j + 1..]], ":");
        JoinCons(t[..i], [rest[..j], rest[j + 1..]], ":");
        assert [t[..i]] + [rest[..j], rest[j + 1..]] == [t[..i], rest[..j], rest[j + 1..]];
        [t[..i], rest[..j], rest[j + 1..]]
  }

  // ---------------------------------------------------------------------
  // parse_range_or_anchor and parse_include_path
  // ---------------------------------------------------------------------

  /** `parse_range_or_anchor`: the span after the URL, as a range of
      0-based lines or an anchor name. */
  function ParseRangeOrAnchor(parts: Option<string>): (r: RangeOrAnchor)
    ensures r.Range? ==> FitsUsize(r.range)
    ensures r.Anchor? ==> r.name != [] && ':' !in r.name
  {
    var fields := SplitColon3(match parts case Some(p) => p case None => "");
    var first := fields[0];
    var end: Option<Option<nat>> := if |fields| >= 2 then Some(ParseUsize(fields[1])) else None;
    match ParseUsize(first)
    case Some(value) =>
      var start := SatSub(value, 1);
      (match end
       case Some(Some(e)) => Range(Bounded(start, e))
       case Some(None) => Range(From(start))
       case None => Range(Bounded(start, start + 1)))
    case None =>
      if first == "" then
        (match end
         case Some(Some(e)) => Range(To(e))
         case _ => Range(Full))
      else Anchor(first)
  }

  /** `parse_include_path`: the URL is the text before the first space, the
      span everything after it. A URL that does not parse panics the run. */
  function ParseIncludePath(args: string, urlIsValid: string -> bool): (r: Abortable<LinkType>)
    ensures r.Value? ==> r.value.WebInclude?
  {
    var i := IndexOf(args, ' ', 0);
    var url := args[..i];
    var span := if i < |args| then Some(args[i + 1..]) else None;
    if urlIsValid(url) then Value(WebInclude(url, ParseRangeOrAnchor(span))) else Panicked
  }

  // ---------------------------------------------------------------------
  // Properties of the span mini-language
  // ---------------------------------------------------------------------

  /** Sample spans: single line numbers, 1-based, with `0` acting as `1`. */
  lemma SpanExamplesSingle()
    ensures ParseRangeOrAnchor(Some("5")) == Range(Bounded(4, 5))
    ensures ParseRangeOrAnchor(Some("0")) == Range(Bounded(0, 1))
    ensures ParseRangeOrAnchor(Some("1")) == Range(Bounded(0, 1))
  {
    assert Decimal(0) == "0" && Decimal(1) == "1" && Decimal(5) == "5";
    ParseDecimal(5);
    ParseDecimal(0);
    ParseDecimal(1);
    SingleLine("5", 5);
    SingleLine("0", 0);
    SingleLine("1", 1);
  }

  /** Sample span with a leading zero, which `usize` parsing accepts: `05`
      is line 4. */
  lemma SpanExampleLeadingZero()
    ensures ParseRangeOrAnchor(Some("05")) == Range(Bounded(4, 5))
  {
    assert DigitsValue("05") == 5 by {
      assert "05"[..1] == "0" && "0"[..0] == "";
    }
    SingleLine("05", 5);
  }

  /** Sample span with a plus sign, which `usize` parsing accepts: `+2:4`
      is lines 1 to 3. */
  lemma SpanExamplePlus()
    ensures ParseRangeOrAnchor(Some("+2:4")) == Range(Bounded(1, 4))
  {
    assert Decimal(2) == "2" && Decimal(4) == "4";
    ParseDecimal(2);
    ParseDecimal(4);
    assert "+" + "2" == "+2";
    StartAndEnd("+2", "4", 2, 4);
    assert "+2" + ":" + "4" == "+2:4";
  }

  /** Sample span with both bounds: `2:4` is lines 1 to 3, 0-based. */
  lemma SpanExampleBounded()
    ensures ParseRangeOrAnchor(Some("2:4")) == Range(Bounded(1, 4))
  {
    assert Decimal(2) == "2" && Decimal(4) == "4";
    ParseDecimal(2);
    ParseDecimal(4);
    StartAndEnd("2", "4", 2, 4);
    assert "2" + ":" + "4" == "2:4";
  }

  /** Sample span with only an end: `:3` is the first three lines. */
  lemma SpanExampleTo()
    ensures ParseRangeOrAnchor(Some(":3")) == Range(To(3))
  {
    assert Decimal(3) == "3";
    ParseDecimal(3);
    EndOnly("3", 3);
    assert ":" + "3" == ":3";
  }

  /** Sample span with an empty end field: `2:` is every line from 1 on. */
  lemma SpanExampleFrom()
    ensures ParseRangeOrAnchor(Some("2:")) == Range(From(1))
  {
    assert Decimal(2) == "2";
    ParseDecimal(2);
    assert ParseUsize("") == None;
    StartOnly("2", 2, "");
    assert "2" + ":" + "" == "2:";
  }

  /** Sample span with a third field: `2:4:x` reads as `2:4`. */
  lemma SpanExampleThirdField()
    ensures ParseRangeOrAnchor(Some("2:4:x")) == Range(Bounded(1, 4))
  {
    assert Decimal(2) == "2" && Decimal(4) == "4";
    ParseDecimal(2);
    ParseDecimal(4);
    assert "2" + ":" + "4" + ":" + "x" == "2:4:x";
    SplitThree("2", "4", "x");
  }

  /** Sample spans that select the whole body. */
  lemma SpanExamplesFull()
    ensures ParseRangeOrAnchor(None) == Range(Full)
    ensures ParseRangeOrAnchor(Some("")) == Range(Full)
    ensures ParseRangeOrAnchor(Some(":")) == Range(Full)
  {
    SplitTwo("", "");
    assert "" + ":" + "" == ":";
    assert ParseUsize("") == None;
  }

  /** Sample span that names an anchor: `intro`. */
  lemma SpanExampleAnchor()
    ensures ParseRangeOrAnchor(Some("intro")) == Anchor("intro")
  {
    var name := "intro";
    assert ParseUsize(name) == None by { assert !IsDigit(name[0]) && name[0] != '+'; }
    AnchorName(name, "");
    assert name + "" == name;
  }

  /** Sample span that names an anchor and goes on: `intro:5` still names
      the anchor `intro`. */
  lemma SpanExampleAnchorRest()
    ensures ParseRangeOrAnchor(Some("intro:5")) == Anchor("intro")
  {
    var name := "intro";
    assert ParseUsize(name) == None by { assert !IsDigit(name[0]) && name[0] != '+'; }
    AnchorName(name, ":5");
    assert name + ":5" == "intro:5";
  }

  /** A single field `f` that parses as the number `n` selects line `n - 1`
      alone (`0` acts as `1`). */
  lemma SingleLine(f: string, n: nat)
    requires ParseUsize(f) == Some(n)
    ensures ParseRangeOrAnchor(Some(f)) == Range(Bounded(SatSub(n, 1), SatSub(n, 1) + 1))
  {
    IndexOfAt(f, ':', 0, |f|);
  }

  /** `a:b` selects lines `a - 1` up to, not including, `b`: only the start
      is shifted to 0-based. */
  lemma StartAndEnd(f1: string, f2: string, a: nat, b: nat)
    requires ParseUsize(f1) == Some(a) && ParseUsize(f2) == Some(b)
    ensures ParseRangeOrAnchor(Some(f1 + ":" + f2)) == Range(Bounded(SatSub(a, 1), b))
  {
    SplitTwo(f1, f2);
  }

  /** `:b` selects the first `b` lines. */
  lemma EndOnly(f: string, b: nat)
    requires ParseUsize(f) == Some(b)
    ensures ParseRangeOrAnchor(Some(":" + f)) == Range(To(b))
  {
    SplitTwo("", f);
    assert "" + ":" + f == ":" + f;
  }

  /** `:x` with an `x` that is not a number (empty included) selects the
      whole body. */
  lemma EmptyStartUnparsedEnd(x: string)
    requires ':' !in x && ParseUsize(x).None?
    ensures ParseRangeOrAnchor(Some(":" + x)) == Range(Full)
  {
    SplitTwo("", x);
    assert "" + ":" + x == ":" + x;
    assert ParseUsize("") == None;
  }

  /** `a:x` with an `x` that is not a number (empty included) selects every
      line from `a - 1` on. */
  lemma StartOnly(f: string, a: nat, x: string)
    requires ParseUsize(f) == Some(a) && ':' !in x && ParseUsize(x).None?
    ensures ParseRangeOrAnchor(Some(f + ":" + x)) == Range(From(SatSub(a, 1)))
  {
    SplitTwo(f, x);
  }

  /** Fields after the second are never read. */
  lemma ThirdFieldIgnored(f1: string, f2: string, rest: string)
    requires ':' !in f1 && ':' !in f2
    ensures ParseRangeOrAnchor(Some(f1 + ":" + f2 + ":" + rest)) == ParseRangeOrAnchor(Some(f1 + ":" + f2))
  {
    SplitTwo(f1, f2);
    SplitThree(f1, f2, rest);
  }

  /** A first field that is not empty and not a number is an anchor name,
      whatever follows it; otherwise the span is a range. */
  lemma AnchorIffNotNumber(t: string)
    ensures var first := SplitColon3(t)[0];
            ParseRangeOrAnchor(Some(t)).Anchor? <==> first != "" && ParseUsize(first).None?
    ensures ParseRangeOrAnchor(Some(t)).Anchor? ==> ParseRangeOrAnchor(Some(t)).name == SplitColon3(t)[0]
  {
  }

  /** The anchor name is the text before the first colon. */
  lemma AnchorName(name: string, rest: string)
    requires name != "" && ':' !in name && ParseUsize(name).None?
    requires rest == "" || rest[0] == ':'
    ensures ParseRangeOrAnchor(Some(name + rest)) == Anchor(name)
  {
    var t := name + rest;
    IndexOfConcat(name, rest, ':');
    if rest != "" { IndexOfAt(rest, ':', 0, 0); }
    assert t[..|name|] == name;
    assert SplitColon3(t)[0] == name;
  }

  /** The fields of `f1:f2` for colon-free `f1` and `f2`. */
  lemma SplitTwo(f1: string, f2: string)
    requires ':' !in f1 && ':' !in f2
    ensures SplitColon3(f1 + ":" + f2) == [f1, f2]
  {
    var t := f1 + ":" + f2;
    assert t == f1 + (":" + f2);
    IndexOfConcat(f1, ":" + f2, ':');
    IndexOfAt(":" + f2, ':', 0, 0);
    assert t[..|f1|] == f1 && t[|f1| + 1..] == f2;
    IndexOfAt(f2, ':', 0, |f2|);
  }

  /** The fields of `f1:f2:rest` for colon-free `f1` and `f2`. */
  lemma SplitThree(f1: string, f2: string, rest: string)
    requires ':' !in f1 && ':' !in f2
    ensures SplitColon3(f1 + ":" + f2 + ":" + rest) == [f1, f2, rest]
  {
    var t := f1 + ":" + f2 + ":" + rest;
    var tail := f2 + ":" + rest;
    assert t == f1 + (":" + tail);
    IndexOfConcat(f1, ":" + tail, ':');
    IndexOfAt(":" + tail, ':', 0, 0);
    assert t[..|f1|] == f1 && t[|f1| + 1..] == tail;
    assert tail == f2 + (":" + rest);
    IndexOfConcat(f2, ":" + rest, ':');
    IndexOfAt(":" + rest, ':', 0, 0);
    assert tail[..|f2|] == f2 && tail[|f2| + 1..] == rest;
  }

  /** Without a space the whole payload is the URL and the span is the
      whole body; an invalid URL panics. */
  lemma IncludePathNoSpace(args: string, urlIsValid: string -> bool)
    requires ' ' !in args
    ensures ParseIncludePath(args, urlIsValid)
            == if urlIsValid(args) then Value(WebInclude(args, Range(Full))) else Panicked
  {
    IndexOfAt(args, ' ', 0, |args|);
    assert args[..|args|] == args;
  }

  /** With a space the URL is the text before the first one and the span
      everything after it; an invalid URL panics. */
  lemma IncludePathSplit(url: string, span: string, urlIsValid: string -> bool)
    requires ' ' !in url
    ensures ParseIncludePath(url + " " + span, urlIsValid)
            == if urlIsValid(url) then Value(WebInclude(url, ParseRangeOrAnchor(Some(span)))) else Panicked
  {
    var t := url + " " + span;
    assert t == url + (" " + span);
    IndexOfConcat(url, " " + span, ' ');
    IndexOfAt(" " + span, ' ', 0, 0);
    assert t[..|url|] == url && t[|url| + 1..] == span;
  }
}
