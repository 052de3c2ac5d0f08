/** Turning a visual judge's free-text reply into 1-based labels: first as a
    JSON object carrying a `selected_indices` list, and failing that as every
    run of digits in the reply. JSON decoding itself is an oracle `decode`
    (`None` for a decode error); provider calls are an oracle `attempt`
    (`None` when the call raised). Digits are ASCII digits. */
module Verdict {
  import opened Wrappers
  import opened Seqs
  import opened Decimal

  /** A decoded JSON value. */
  datatype Json =
    | JNull
    | JBool(b: bool)
    | JInt(i: int)
    | JFloat(f: real)
    | JStr(s: string)
    | JArray(items: seq<Json>)
    | JObject(fields: map<string, Json>)

  /** The field the judge is asked to answer in. */
  const SelectedField: string := "selected_indices"

  /** Provider calls made before giving up. */
  const Retries: nat := 3

  /** A half-open character range `[start, end)` of the reply. */
  datatype Span = Span(start: nat, end: nat)

  function FirstIndexOf(s: string, c: char): (r: Option<nat>)
    ensures r.Some? ==> r.value < |s| && s[r.value] == c && forall k :: 0 <= k < r.value ==> s[k] != c
    ensures r.None? ==> forall k :: 0 <= k < |s| ==> s[k] != c
  {
    if |s| == 0 then None
    else if s[0] == c then Some(0)
    else match FirstIndexOf(s[1..], c)
      case None => None
      case Some(k) => Some(k + 1)
  }

  function LastIndexOf(s: string, c: char): (r: Option<nat>)
    ensures r.Some? ==> r.value < |s| && s[r.value] == c && forall k :: r.value < k < |s| ==> s[k] != c
    ensures r.None? ==> forall k :: 0 <= k < |s| ==> s[k] != c
  {
    if |s| == 0 then None
    else if s[|s| - 1] == c then Some(|s| - 1)
    else LastIndexOf(s[..|s| - 1], c)
  }

  /** The match of the greedy, dot-matches-newline pattern `\{.*\}`: it starts
      at the first `{` and ends just after the last `}`; there is none exactly
      when no `}` follows a `{`. */
  function JsonSpan(s: string): (r: Option<Span>)
    ensures r.Some? ==>
      && r.value.start < r.value.end <= |s|
      && s[r.value.start] == '{' && s[r.value.end - 1] == '}'
      && (forall k :: 0 <= k < r.value.start ==> s[k] != '{')
      && (forall k :: r.value.end <= k < |s| ==> s[k] != '}')
    ensures r.None? <==> forall i, j :: 0 <= i < j < |s| && s[i] == '{' ==> s[j] != '}'
  {
    match (FirstIndexOf(s, '{'), LastIndexOf(s, '}'))
    case (Some(a), Some(b)) => if a < b then Some(Span(a, b + 1)) else None
    case _ => None
  }

  /** `data.get("selected_indices")` when the span decodes to an object whose
      field is a list. Every other outcome (no span, a decode error, a value
      that is not an object, a missing field, a field that is not a list) is
      `None`, which sends the parser to its fallback. */
  function StructuredIndices(text: string, decode: string -> Option<Json>): (r: Option<seq<Json>>)
    ensures r.Some? <==> JsonSpan(text).Some? && IsSelectionObject(decode(SpanText(text)))
    ensures r.Some? ==> r.value == decode(SpanText(text)).value.fields[SelectedField].items
  {
    match JsonSpan(text)
    case None => None
    case Some(sp) =>
      match decode(text[sp.start..sp.end])
      case Some(JObject(m)) =>
        if SelectedField in m && m[SelectedField].JArray? then Some(m[SelectedField].items) else None
      case _ => None
  }

  /** The text matched by `\{.*\}`, empty when there is no match. */
  function SpanText(text: string): (m: string)
    ensures JsonSpan(text).Some? ==> |m| >= 2 && m[0] == '{' && m[|m| - 1] == '}'
    ensures JsonSpan(text).None? ==> m == []
  {
    match JsonSpan(text)
    case None => []
    case Some(sp) => text[sp.start..sp.end]
  }

  /** `isinstance(n, (int, str)) and str(n).isdigit()`: a non-negative integer
      or a string of digits. Booleans print as `True`/`False` and negative
      integers carry a sign, so both fail the digit test. */
  predicate Accepted(v: Json)
  {
    (v.JInt? && v.i >= 0) || (v.JStr? && IsDigits(v.s))
  }

  /** `int(n)` of an accepted element: a number is itself, and a digit string
      written as `str` writes numbers is the number it spells. */
  function LabelOf(v: Json): (n: nat)
    requires Accepted(v)
    ensures v.JInt? ==> n == v.i
    ensures v.JStr? && Canonical(v.s) ==> ShowNat(n) == v.s
  {
    if v.JInt? then v.i
    else if Canonical(v.s) then ShowParse(v.s); ParseNat(v.s)
    else ParseNat(v.s)
  }

  /** The accepted elements of the list, converted, in order. */
  function AcceptedLabels(xs: seq<Json>): (r: seq<nat>)
    ensures |r| <= |xs|
    ensures |r| == |xs| <==> forall k :: 0 <= k < |xs| ==> Accepted(xs[k])
    ensures r == [] <==> forall k :: 0 <= k < |xs| ==> !Accepted(xs[k])
  {
    if |xs| == 0 then []
    else
      var rest := AcceptedLabels(xs[1..]);
      assert forall k :: 1 <= k < |xs| ==> xs[k] == xs[1..][k - 1];
      if Accepted(xs[0]) then [LabelOf(xs[0])] + rest else rest
  }

  /** Filtering a list piecewise is filtering it whole. */
  lemma {:induction false} AcceptedAppend(a: seq<Json>, b: seq<Json>)
    ensures AcceptedLabels(a + b) == AcceptedLabels(a) + AcceptedLabels(b)
  {
    if |a| == 0 {
      assert a + b == b;
    } else {
      assert (a + b)[1..] == a[1..] + b;
      AcceptedAppend(a[1..], b);
    }
  }

  /** One element: kept and converted when accepted, dropped otherwise. With
      `AcceptedAppend` this determines the filter on every list. */
  lemma AcceptedSingle(v: Json)
    ensures Accepted(v) ==> AcceptedLabels([v]) == [LabelOf(v)]
    ensures !Accepted(v) ==> AcceptedLabels([v]) == []
  {
    assert [v][1..] == [];
  }

  /** A label written as a number, or as the decimal text of that number,
      reads back as itself. */
  lemma AcceptedRoundTrip(n: nat)
    ensures AcceptedLabels([JInt(n)]) == [n]
    ensures AcceptedLabels([JStr(ShowNat(n))]) == [n]
  {
    AcceptedSingle(JInt(n));
    AcceptedSingle(JStr(ShowNat(n)));
    ParseShow(n);
  }

  /** Negative numbers, booleans, floats, nulls, lists and objects are dropped. */
  lemma RejectedKinds(i: int, b: bool, f: real, xs: seq<Json>, m: map<string, Json>)
    requires i < 0
    ensures AcceptedLabels([JInt(i), JBool(b), JFloat(f), JNull, JArray(xs), JObject(m)]) == []
  {
  }

  /** The length of the run of digits at the front of `s`. */
  function DigitPrefix(s: string): (n: nat)
    ensures n <= |s|
    ensures forall k :: 0 <= k < n ==> IsDigit(s[k])
    ensures n < |s| ==> !IsDigit(s[n])
  {
    if |s| > 0 && IsDigit(s[0]) then 1 + DigitPrefix(s[1..]) else 0
  }

  /** The digits of `s`, in order. */
  function Digits(s: string): (d: string)
  {
    if |s| == 0 then [] else (if IsDigit(s[0]) then [s[0]] else []) + Digits(s[1..])
  }

  /** `re.findall(r'\d+', s)`: the maximal runs of digits, left to right.
      Every run is a non-empty digit string. */
  function DigitRuns(s: string): (runs: seq<string>)
    ensures forall k :: 0 <= k < |runs| ==> IsDigits(runs[k])
    decreases |s|
  {
    if |s| == 0 then []
    else if !IsDigit(s[0]) then DigitRuns(s[1..])
    else
      var n := DigitPrefix(s);
      [s[..n]] + DigitRuns(s[n..])
  }

  /** Together the runs hold exactly the digits of `s`, in order: nothing is
      lost between runs and nothing is read twice. */
  lemma {:induction false} RunsHoldDigits(s: string)
    ensures Flatten(DigitRuns(s)) == Digits(s)
    decreases |s|
  {
    if |s| > 0 {
      if !IsDigit(s[0]) {
        RunsHoldDigits(s[1..]);
      } else {
        var n := DigitPrefix(s);
        RunsHoldDigits(s[n..]);
        DigitsOfRun(s, n);
        FlattenAppend([s[..n]], DigitRuns(s[n..]));
        assert Flatten([s[..n]]) == s[..n] by {
          FlattenAppend([s[..n]], []);
        }
      }
    }
  }

  lemma {:induction false} DigitsOfRun(s: string, n: nat)
    requires n <= |s| && forall k :: 0 <= k < n ==> IsDigit(s[k])
    ensures Digits(s) == s[..n] + Digits(s[n..])
  {
    if n > 0 {
      DigitsOfRun(s[1..], n - 1);
      assert s[1..][n - 1..] == s[n..];
      assert s[..n] == [s[0]] + s[1..][..n - 1];
    }
  }

  /** A non-digit character ends a run. */
  lemma {:induction false} DigitPrefixSplit(a: string, c: char, b: string)
    requires !IsDigit(c)
    requires forall k :: 0 <= k < |a| ==> IsDigit(a[k])
    ensures DigitPrefix(a + [c] + b) == |a|
  {
    if |a| > 0 {
      assert (a + [c] + b)[1..] == a[1..] + [c] + b;
      DigitPrefixSplit(a[1..], c, b);
    } else {
      assert (a + [c] + b)[0] == c;
    }
  }

  /** Runs never cross a non-digit character. */
  lemma {:induction false} RunsSplit(a: string, c: char, b: string)
    requires !IsDigit(c)
    ensures DigitRuns(a + [c] + b) == DigitRuns(a) + DigitRuns(b)
    decreases |a|
  {
    if |a| == 0 {
      RunsSplitEmpty(a, c, b);
    } else if !IsDigit(a[0]) {
      RunsSplit(a[1..], c, b);
      RunsSplitSkip(a, c, b);
    } else if DigitPrefix(a) == |a| {
      RunsSplitWhole(a, c, b);
    } else {
      RunsSplit(a[DigitPrefix(a)..], c, b);
      RunsSplitPart(a, c, b);
    }
  }

  lemma RunsSplitEmpty(a: string, c: char, b: string)
    requires |a| == 0 && !IsDigit(c)
    ensures DigitRuns(a + [c] + b) == DigitRuns(a) + DigitRuns(b)
  {
    var s := a + [c] + b;
    assert s == [c] + b;
    assert s[1..] == b;
  }

  lemma RunsSplitSkip(a: string, c: char, b: string)
    requires |a| > 0 && !IsDigit(a[0]) && !IsDigit(c)
    requires DigitRuns(a[1..] + [c] + b) == DigitRuns(a[1..]) + DigitRuns(b)
    ensures DigitRuns(a + [c] + b) == DigitRuns(a) + DigitRuns(b)
  {
    assert (a + [c] + b)[1..] == a[1..] + [c] + b;
  }

  lemma RunsSplitWhole(a: string, c: char, b: string)
    requires |a| > 0 && IsDigit(a[0]) && DigitPrefix(a) == |a| && !IsDigit(c)
    ensures DigitRuns(a + [c] + b) == DigitRuns(a) + DigitRuns(b)
  {
    var s := a + [c] + b;
    var n := |a|;
    DigitPrefixSplit(a, c, b);
    assert s[0] == a[0];
    assert s[..n] == a && s[n..] == [c] + b;
    assert DigitRuns(s) == [a] + DigitRuns([c] + b);
    assert ([c] + b)[1..] == b;
    assert a[..n] == a && a[n..] == [];
    assert DigitRuns(a) == [a] + DigitRuns([]);
  }

  lemma RunsSplitPart(a: string, c: char, b: string)
    requires |a| > 0 && IsDigit(a[0]) && DigitPrefix(a) < |a| && !IsDigit(c)
    requires DigitRuns(a[DigitPrefix(a)..] + [c] + b) == DigitRuns(a[DigitPrefix(a)..]) + DigitRuns(b)
    ensures DigitRuns(a + [c] + b) == DigitRuns(a) + DigitRuns(b)
  {
    PrefixOfJoin(a, c, b);
    RunsTake(a + [c] + b);
    RunsTake(a);
  }

  /** Appending after a non-digit leaves the leading run of `a` in place. */
  lemma PrefixOfJoin(a: string, c: char, b: string)
    requires DigitPrefix(a) < |a|
    ensures var s, n := a + [c] + b, DigitPrefix(a);
      DigitPrefix(s) == n && s[..n] == a[..n] && s[n..] == a[n..] + [c] + b
  {
    var n := DigitPrefix(a);
    JoinAt(a, n, c, b);
    DigitPrefixSplit(a[..n], a[n], a[n + 1..] + [c] + b);
  }

  lemma JoinAt(a: string, n: nat, c: char, b: string)
    requires n < |a|
    ensures var s := a + [c] + b;
      && a[..n] + [a[n]] + (a[n + 1..] + [c] + b) == s
      && s[..n] == a[..n] && s[n..] == a[n..] + [c] + b
  {
    assert a == a[..n] + [a[n]] + a[n + 1..];
  }

  /** A string starting with a digit opens with its leading run. */
  lemma RunsTake(x: string)
    requires |x| > 0 && IsDigit(x[0])
    ensures DigitRuns(x) == [x[..DigitPrefix(x)]] + DigitRuns(x[DigitPrefix(x)..])
  {
  }

  /** A string of digits is one run: runs are maximal. */
  lemma WholeRun(d: string)
    requires IsDigits(d)
    ensures DigitRuns(d) == [d]
  {
    assert d[..|d|] == d && d[|d|..] == [];
  }

  /** The integers of the digit runs, in order, duplicates kept. */
  function RunValues(runs: seq<string>): (r: seq<nat>)
    requires forall k :: 0 <= k < |runs| ==> IsDigits(runs[k])
    ensures |r| == |runs|
    ensures forall k :: 0 <= k < |runs| && IsDigits(runs[k]) ==> r[k] == ParseNat(runs[k])
    ensures forall k :: 0 <= k < |runs| ==> (r[k] == 0 <==> forall i :: 0 <= i < |runs[k]| ==> runs[k][i] == '0')
  {
    seq(|runs|, k requires 0 <= k < |runs| && IsDigits(runs[k]) => ParseNat(runs[k]))
  }

  /** Each run written as `str` writes numbers is the decimal text of its
      value, so the fallback reads back exactly the numbers the reply spells. */
  lemma RunValuesShow(runs: seq<string>, k: nat)
    requires forall j :: 0 <= j < |runs| ==> IsDigits(runs[j])
    requires k < |runs| && Canonical(runs[k])
    ensures ShowNat(RunValues(runs)[k]) == runs[k]
  {
    ShowParse(runs[k]);
  }

  /** The labels read from one reply: the accepted elements of
      `selected_indices` when that field is found, otherwise the integer of
      every run of digits in the whole reply. The fallback is empty exactly
      when the reply holds no digit, which is a valid "nothing selected". */
  function ParseReply(text: string, decode: string -> Option<Json>): (r: seq<nat>)
    ensures StructuredIndices(text, decode).None? ==> (r == [] <==> Digits(text) == [])
    ensures StructuredIndices(text, decode).None? ==> |r| == |DigitRuns(text)|
  {
    match StructuredIndices(text, decode)
    case Some(xs) => AcceptedLabels(xs)
    case None =>
      var runs := DigitRuns(text);
      RunsHoldDigits(text);
      assert runs != [] ==> Flatten(runs) != [] by {
        if runs != [] { assert |runs[0]| > 0; }
      }
      RunValues(runs)
  }

  /** When the matched span decodes to an object whose `selected_indices` is a
      list, the reply's labels are that list's accepted elements, converted,
      in order; the fallback is not consulted. */
  lemma StructuredHit(text: string, decode: string -> Option<Json>)
    requires JsonSpan(text).Some? && IsSelectionObject(decode(SpanText(text)))
    ensures ParseReply(text, decode) == AcceptedLabels(decode(SpanText(text)).value.fields[SelectedField].items)
  {
  }

  /** A reply that is exactly the requested JSON record yields its labels. */
  lemma ParseJsonExample(decode: string -> Option<Json>)
    requires decode("{\"selected_indices\": [2, 4]}") == Some(JObject(map["selected_indices" := JArray([JInt(2), JInt(4)])]))
    ensures ParseReply("{\"selected_indices\": [2, 4]}", decode) == [2, 4]
  {
    var j := "{\"selected_indices\": [2, 4]}";
    JsonSpanOfRecord();
    assert SpanText(j) == j by {
      assert j[0..|j|] == j;
    }
    StructuredHit(j, decode);
    AcceptedOfRecord();
  }

  lemma JsonSpanOfRecord()
    ensures JsonSpan("{\"selected_indices\": [2, 4]}") == Some(Span(0, |"{\"selected_indices\": [2, 4]}"|))
  {
  }

  lemma AcceptedOfRecord()
    ensures AcceptedLabels([JInt(2), JInt(4)]) == [2, 4]
  {
    AcceptedSingle(JInt(2));
    AcceptedSingle(JInt(4));
    AcceptedAppend([JInt(2)], [JInt(4)]);
    assert [JInt(2)] + [JInt(4)] == [JInt(2), JInt(4)];
  }

  /** Free text falls back to the numbers it mentions. */
  lemma ParseTextExample(decode: string -> Option<Json>)
    ensures ParseReply("I pick 2 and 4", decode) == [2, 4]
  {
    NoBraceInText();
    NoBraceFallsBack("I pick 2 and 4", decode);
    RunsOfExample();
    ValuesOfRuns();
  }

  lemma NoBraceInText()
    ensures forall k :: 0 <= k < |"I pick 2 and 4"| ==> "I pick 2 and 4"[k] != '{'
  {
  }

  lemma ValuesOfRuns()
    ensures RunValues(["2", "4"]) == [2, 4]
  {
    assert ParseNat("2") == 2 && ParseNat("4") == 4;
  }

  /** Whenever the JSON record is not found, the reply is read by the
      digit-run fallback rather than raising. */
  lemma Unstructured(text: string, decode: string -> Option<Json>)
    requires StructuredIndices(text, decode).None?
    ensures ParseReply(text, decode) == RunValues(DigitRuns(text))
  {
  }

  /** A reply without a `{` has no JSON span and falls back. */
  lemma NoBraceFallsBack(text: string, decode: string -> Option<Json>)
    requires forall k :: 0 <= k < |text| ==> text[k] != '{'
    ensures StructuredIndices(text, decode).None?
    ensures ParseReply(text, decode) == RunValues(DigitRuns(text))
  {
    Unstructured(text, decode);
  }

  /** A span that fails to decode (a decode error), or decodes to a
      non-object (the attribute error of `.get`), or to an object whose
      `selected_indices` is missing or not a list, falls back too. */
  lemma BadRecordFallsBack(text: string, decode: string -> Option<Json>)
    requires JsonSpan(text).Some?
    requires !IsSelectionObject(decode(SpanText(text)))
    ensures StructuredIndices(text, decode).None?
    ensures ParseReply(text, decode) == RunValues(DigitRuns(text))
  {
    Unstructured(text, decode);
  }

  /** A decoder result that carries a `selected_indices` list. */
  predicate IsSelectionObject(d: Option<Json>)
  {
    && d.Some? && d.value.JObject?
    && SelectedField in d.value.fields && d.value.fields[SelectedField].JArray?
  }

  lemma RunsOfExample()
    ensures DigitRuns("I pick 2 and 4") == ["2", "4"]
  {
    RunsOfExampleTail();
    NoRunsInWords();
    assert "I pick" + [' '] + "2 and 4" == "I pick 2 and 4";
    RunsSplit("I pick", ' ', "2 and 4");
  }

  lemma NoRunsInWords()
    ensures DigitRuns("I pick") == []
  {
    NoRuns("I pick");
  }

  lemma RunsOfExampleTail()
    ensures DigitRuns("2 and 4") == ["2", "4"]
  {
    RunsOfAnd4();
    assert "2" + [' '] + "and 4" == "2 and 4";
    RunsSplit("2", ' ', "and 4");
    WholeRun("2");
  }

  lemma RunsOfAnd4()
    ensures DigitRuns("and 4") == ["4"]
  {
    assert "and" + [' '] + "4" == "and 4";
    RunsSplit("and", ' ', "4");
    NoRuns("and");
    WholeRun("4");
  }

  lemma {:induction false} NoRuns(s: string)
    requires forall k :: 0 <= k < |s| ==> !IsDigit(s[k])
    ensures DigitRuns(s) == []
  {
    if |s| > 0 {
      NoRuns(s[1..]);
    }
  }

  /** A reply without digits selects nothing, and that is an answer, not an error. */
  lemma ParseNothingExample(decode: string -> Option<Json>)
    ensures ParseReply("none match", decode) == []
  {
    assert JsonSpan("none match").None?;
  }

  /** `select_from_collage`: up to `Retries` provider calls; the first that
      answers is parsed and its labels returned, whether or not they are
      empty; when every call raises, the result is empty. */
  function SelectFromCollage(attempt: nat -> Option<string>, decode: string -> Option<Json>): (r: seq<nat>)
    ensures (forall a :: 0 <= a < Retries ==> attempt(a).None?) ==> r == []
    ensures forall a :: 0 <= a < Retries && attempt(a).Some? && (forall b :: 0 <= b < a ==> attempt(b).None?) ==>
      r == ParseReply(attempt(a).value, decode)
  {
    match FirstReply(0, attempt)
    case None => []
    case Some(text) => ParseReply(text, decode)
  }

  /** The reply of the first call from `a` on that answers, if one of the
      calls before `Retries` does. */
  function FirstReply(a: nat, attempt: nat -> Option<string>): (r: Option<string>)
    ensures r.None? <==> forall b :: a <= b < Retries ==> attempt(b).None?
    ensures forall c :: a <= c < Retries && attempt(c).Some? && (forall b :: a <= b < c ==> attempt(b).None?) ==>
      r == attempt(c)
    decreases Retries - a
  {
    if a >= Retries then None
    else if attempt(a).Some? then attempt(a)
    else FirstReply(a + 1, attempt)
  }

  /** Only the first `Retries` calls matter: providers that agree on them give
      the same labels. */
  lemma AtMostRetries(p: nat -> Option<string>, q: nat -> Option<string>, decode: string -> Option<Json>)
    requires forall b :: 0 <= b < Retries ==> p(b) == q(b)
    ensures SelectFromCollage(p, decode) == SelectFromCollage(q, decode)
  {
    SameFirstReply(p, q, 0);
  }

  lemma {:induction false} SameFirstReply(p: nat -> Option<string>, q: nat -> Option<string>, a: nat)
    requires forall b :: a <= b < Retries ==> p(b) == q(b)
    ensures FirstReply(a, p) == FirstReply(a, q)
    decreases Retries - a
  {
    if a < Retries {
      assert p(a) == q(a);
      if p(a).None? {
        SameFirstReply(p, q, a + 1);
      }
    }
  }
}
