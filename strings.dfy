/** Small shared vocabulary: optional values, results, the outcome of a
    computation that may panic, and the string scanning primitives that the
    line extractor, the argument parser and the link scanner all use. */
module Strings {

  datatype Option<+T> = None | Some(value: T)

  datatype Result<+T, +E> = Ok(value: T) | Err(error: E)

  /** The outcome of code that can panic: a panic aborts the whole run. */
  datatype Abortable<+T> = Value(value: T) | Panicked

  /** Concatenation of two outcomes; a panic in either one wins. */
  function Cat(a: Abortable<string>, b: Abortable<string>): (r: Abortable<string>)
    ensures r.Value? <==> a.Value? && b.Value?
    ensures r.Value? ==> r.value == a.value + b.value
  {
    match (a, b)
    case (Value(x), Value(y)) => Value(x + y)
    case _ => Panicked
  }

  /** The empty text is a unit of `Cat`. */
  lemma CatUnit(x: Abortable<string>)
    ensures Cat(Value(""), x) == x
  {
    if x.Value? { assert "" + x.value == x.value; }
  }

  /** The empty text after an outcome changes nothing. */
  lemma CatEmptyRight(x: Abortable<string>)
    ensures Cat(x, Value("")) == x
  {
    if x.Value? { assert x.value + "" == x.value; }
  }

  /** Two texts in front of an outcome are their concatenation in front of it. */
  lemma CatValues(a: string, b: string, x: Abortable<string>)
    ensures Cat(Value(a), Cat(Value(b), x)) == Cat(Value(a + b), x)
  {
    if x.Value? { assert a + (b + x.value) == (a + b) + x.value; }
  }

  /** End of the maximal run of characters satisfying `p` that starts at `from`. */
  function SpanWhile(s: string, from: nat, p: char -> bool): (k: nat)
    requires from <= |s|
    ensures from <= k <= |s|
    ensures forall j :: from <= j < k ==> p(s[j])
    ensures k < |s| ==> !p(s[k])
    decreases |s| - from
  {
    if from == |s| || !p(s[from]) then from else SpanWhile(s, from + 1, p)
  }

  /** Index of the first `c` at or after `from`, or `|s|` when there is none. */
  function IndexOf(s: string, c: char, from: nat): (k: nat)
    requires from <= |s|
    ensures from <= k <= |s|
    ensures forall j :: from <= j < k ==> s[j] != c
    ensures k < |s| ==> s[k] == c
    decreases |s| - from
  {
    if from == |s| || s[from] == c then from else IndexOf(s, c, from + 1)
  }

  /** `SpanWhile` ends at the first position from `from` on whose character fails `p`. */
  lemma SpanWhileAt(s: string, from: nat, p: char -> bool, k: nat)
    requires from <= k <= |s|
    requires forall j :: from <= j < k ==> p(s[j])
    requires k == |s| || !p(s[k])
    ensures SpanWhile(s, from, p) == k
  {
  }

  /** A stretch of characters satisfying `p` lies inside the run `SpanWhile` finds. */
  lemma SpanWhileCovers(s: string, from: nat, p: char -> bool, k: nat)
    requires from <= k <= |s|
    requires forall j :: from <= j < k ==> p(s[j])
    ensures k <= SpanWhile(s, from, p)
  {
  }

  /** The run `SpanWhile` finds stops at or before any character failing `p`. */
  lemma SpanWhileStops(s: string, from: nat, p: char -> bool, k: nat)
    requires from <= k < |s| && !p(s[k])
    ensures SpanWhile(s, from, p) <= k
  {
  }

  /** `IndexOf` finds the first `c`: any position that bounds a `c`-free stretch is it. */
  lemma IndexOfAt(s: string, c: char, from: nat, k: nat)
    requires from <= k <= |s|
    requires forall j :: from <= j < k ==> s[j] != c
    requires k == |s| || s[k] == c
    ensures IndexOf(s, c, from) == k
  {
  }

  /** Searching a concatenation whose first part has no `c` skips that part. */
  lemma IndexOfConcat(a: string, b: string, c: char)
    requires c !in a
    ensures IndexOf(a + b, c, 0) == |a| + IndexOf(b, c, 0)
  {
    var s := a + b;
    var k := IndexOf(b, c, 0);
    forall j | 0 <= j < |a| + k ensures s[j] != c {
      if j < |a| { assert s[j] == a[j]; } else { assert s[j] == b[j - |a|]; }
    }
    if |a| + k < |s| { assert s[|a| + k] == b[k]; }
    IndexOfAt(s, c, 0, |a| + k);
  }

  /** `parts` joined with `sep` between neighbours, as `[&str]::join` does. */
  function Join(parts: seq<string>, sep: string): string
    decreases |parts|
  {
    if |parts| == 0 then ""
    else if |parts| == 1 then parts[0]
    else parts[0] + sep + Join(parts[1..], sep)
  }

  /** Joining a part in front of a non-empty sequence of parts. */
  lemma JoinCons(p: string, rest: seq<string>, sep: string)
    requires |rest| > 0
    ensures Join([p] + rest, sep) == p + sep + Join(rest, sep)
  {
    assert ([p] + rest)[1..] == rest;
  }

  /** Joining the parts from `k` on puts part `k` in front of the join of the rest. */
  lemma JoinSuffix(parts: seq<string>, k: nat, sep: string)
    requires k + 1 < |parts|
    ensures Join(parts[k..], sep) == parts[k] + sep + Join(parts[k + 1..], sep)
  {
    JoinCons(parts[k], parts[k + 1..], sep);
    assert [parts[k]] + parts[k + 1..] == parts[k..];
  }

  /** The regular-expression class `\s`: the Unicode White_Space property. */
  predicate IsSpace(c: char)
  {
    ('\t' <= c <= '\r') || c == ' ' || c == '\U{85}' || c == '\U{A0}' || c == '\U{1680}'
    || ('\U{2000}' <= c <= '\U{200A}') || c == '\U{2028}' || c == '\U{2029}'
    || c == '\U{202F}' || c == '\U{205F}' || c == '\U{3000}'
  }
}
