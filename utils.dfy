/** `utils.ts`: recognising component sources by their path, pulling the inline template
    out of a component, and `stripBOM`. The two regular expressions are written out as
    the search the regular-expression engine performs: try each start position in turn,
    leftmost first. */
module Utils {
  import opened Wrappers
  import opened JsString

  /** `/\.ts|js$/i` matches at position `i`: `.ts` starts there, or `js` starts there and
      ends the string; letters compare without regard to ASCII case. */
  predicate ComponentPatternAt(path: string, i: nat) {
    || (i + 3 <= |path| && path[i] == '.' && LowerChar(path[i + 1]) == 't' && LowerChar(path[i + 2]) == 's')
    || (i + 2 == |path| && LowerChar(path[i]) == 'j' && LowerChar(path[i + 1]) == 's')
  }

  /** The pattern matches at some position from `i` on. */
  predicate ComponentPatternFrom(path: string, i: nat)
    decreases |path| - i
  {
    i <= |path| && (ComponentPatternAt(path, i) || ComponentPatternFrom(path, i + 1))
  }

  lemma {:induction false} ComponentPatternFromSpec(path: string, i: nat)
    requires i <= |path|
    ensures ComponentPatternFrom(path, i) <==> exists j :: i <= j <= |path| && ComponentPatternAt(path, j)
    decreases |path| - i
  {
    if i < |path| {
      ComponentPatternFromSpec(path, i + 1);
    }
  }

  /** A match at `j` is an occurrence of `.ts`, or the `js` ending, in the lower-cased path. */
  lemma PatternAtFound(path: string, j: nat)
    requires ComponentPatternAt(path, j)
    ensures Contains(ToLowerCase(path), ".ts") || EndsWith(ToLowerCase(path), "js")
  {
    var lower := ToLowerCase(path);
    if j + 3 <= |path| && path[j] == '.' && LowerChar(path[j + 1]) == 't' && LowerChar(path[j + 2]) == 's' {
      assert lower[j..j + 3] == ".ts";
      assert OccursAt(lower, ".ts", j);
    } else {
      assert lower[|lower| - 2..] == "js";
    }
  }

  /** An occurrence of `.ts` in the lower-cased path is a match at its position. */
  lemma OccurrenceMatches(path: string, j: int)
    requires OccursAt(ToLowerCase(path), ".ts", j)
    ensures 0 <= j <= |path| && ComponentPatternAt(path, j)
  {
    var lower := ToLowerCase(path);
    assert lower[j] == '.' && lower[j + 1] == 't' && lower[j + 2] == 's' by {
      assert lower[j..j + 3] == ".ts";
    }
    assert LowerChar(path[j]) == '.';
  }

  /** The `js` ending of the lower-cased path is a match two positions from the end. */
  lemma EndingMatches(path: string)
    requires EndsWith(ToLowerCase(path), "js")
    ensures ComponentPatternAt(path, |path| - 2)
  {
    var lower := ToLowerCase(path);
    assert lower[|lower| - 2..] == "js";
    assert lower[|path| - 2] == 'j' && lower[|path| - 1] == 's';
  }

  /** The search succeeds exactly when the lower-cased path contains `.ts` or ends with
      `js`. */
  lemma ComponentPatternSpec(path: string)
    ensures ComponentPatternFrom(path, 0) <==> Contains(ToLowerCase(path), ".ts") || EndsWith(ToLowerCase(path), "js")
  {
    var lower := ToLowerCase(path);
    ComponentPatternFromSpec(path, 0);
    if ComponentPatternFrom(path, 0) {
      var j :| 0 <= j <= |path| && ComponentPatternAt(path, j);
      PatternAtFound(path, j);
    } else {
      if Contains(lower, ".ts") {
        var j :| 0 <= j <= |lower| - 3 && OccursAt(lower, ".ts", j);
        OccurrenceMatches(path, j);
      }
      if EndsWith(lower, "js") {
        EndingMatches(path);
      }
    }
  }

  /** `isPathAngularComponent`: the lower-cased path contains `.ts` anywhere or ends with
      `js`. */
  function IsPathAngularComponent(path: string): (r: bool)
    ensures r <==> Contains(ToLowerCase(path), ".ts") || EndsWith(ToLowerCase(path), "js")
  {
    ComponentPatternSpec(path);
    ComponentPatternFrom(path, 0)
  }

  predicate IsQuote(c: char) {
    c == '"' || c == '\'' || c == '`'
  }

  /** `t` stands in `s` at position `a`, between two equal quote characters it does not
      contain. */
  predicate Delimited(s: string, t: string, a: int) {
    0 < a && a + |t| < |s| && s[a..a + |t|] == t
    && IsQuote(s[a - 1]) && s[a + |t|] == s[a - 1] && s[a - 1] !in t
  }

  /** The number of whitespace code units at the front of `s[i..]`, as the greedy `\s*`
      takes them. */
  function WhitespaceRun(s: string, i: nat): (n: nat)
    requires i <= |s|
    ensures i + n <= |s|
    ensures forall k :: i <= k < i + n ==> IsWhitespace(s[k])
    ensures i + n == |s| || !IsWhitespace(s[i + n])
    decreases |s| - i
  {
    if i < |s| && IsWhitespace(s[i]) then 1 + WhitespaceRun(s, i + 1) else 0
  }

  /** The first position at or after `i` holding `q`, as the lazy `[\s\S]*?` followed by
      the back-reference finds it. */
  function NextQuote(s: string, i: nat, q: char): (r: Option<nat>)
    requires i <= |s|
    ensures r.Some? ==> i <= r.value < |s| && s[r.value] == q && q !in s[i..r.value]
    ensures r.None? ==> q !in s[i..]
    decreases |s| - i
  {
    if i == |s| then None
    else if s[i] == q then Some(i)
    else
      var r := NextQuote(s, i + 1, q);
      assert s[i..] == [s[i]] + s[i + 1..];
      if r.Some? then
        assert s[i..r.value] == [s[i]] + s[i + 1..r.value];
        r
      else r
  }

  /** `/template\s*:\s*(["'`])([\s\S]*?)\1/` tried at position `i`: the bounds of the
      second group when the match succeeds there. */
  function TemplateMatchAt(s: string, i: nat): (r: Option<(nat, nat)>)
    requires i <= |s|
    ensures r.Some? ==> 0 < r.value.0 <= r.value.1 < |s| && Delimited(s, s[r.value.0..r.value.1], r.value.0)
    ensures r.Some? ==> StartsWith(s[i..], "template")
  {
    if !StartsWith(s[i..], "template") then None
    else
      var colon := i + 8 + WhitespaceRun(s, i + 8);
      if colon == |s| || s[colon] != ':' then None
      else
        var open := colon + 1 + WhitespaceRun(s, colon + 1);
        if open == |s| || !IsQuote(s[open]) then None
        else
          match NextQuote(s, open + 1, s[open])
          case None => None
          case Some(close) => Some((open + 1, close))
  }

  /** The pattern matches at `j` and at no position from `i` up to `j`. */
  ghost predicate LeftmostMatch(s: string, i: nat, j: nat) {
    i <= j <= |s| && TemplateMatchAt(s, j).Some? && forall k :: i <= k < j ==> TemplateMatchAt(s, k).None?
  }

  /** `regExp.exec(contents)`: the match at the leftmost position from `i` on at which
      the pattern matches. */
  function TemplateExec(s: string, i: nat): (r: Option<(nat, nat)>)
    requires i <= |s|
    ensures r.Some? ==> exists j :: LeftmostMatch(s, i, j) && TemplateMatchAt(s, j) == r
    ensures r.None? ==> forall j :: i <= j <= |s| ==> TemplateMatchAt(s, j).None?
    decreases |s| - i
  {
    match TemplateMatchAt(s, i)
    case Some(m) => Some(m)
    case None =>
      if i == |s| then None
      else
        LeftmostStep(s, i);
        TemplateExec(s, i + 1)
  }

  lemma LeftmostStep(s: string, i: nat)
    requires i < |s| && TemplateMatchAt(s, i).None?
    ensures forall j :: LeftmostMatch(s, i + 1, j) ==> LeftmostMatch(s, i, j)
  {
  }

  /** There is only one leftmost match. */
  lemma LeftmostUnique(s: string, i: nat, j1: nat, j2: nat)
    requires LeftmostMatch(s, i, j1) && LeftmostMatch(s, i, j2)
    ensures j1 == j2
  {
  }

  /** `extractComponentInlineTemplate`: the text between the quote opening the first
      `template: ` and the next occurrence of the same quote, or `''` without a match. */
  function ExtractComponentInlineTemplate(contents: string): (r: string)
    ensures r != "" ==> exists a :: Delimited(contents, r, a)
    ensures TemplateExec(contents, 0).None? ==> r == ""
  {
    match TemplateExec(contents, 0)
    case Some((a, b)) => contents[a..b]
    case None => ""
  }

  /** The inline template is the second group of the leftmost match of the pattern. */
  lemma InlineTemplateLeftmost(contents: string, j: nat)
    requires LeftmostMatch(contents, 0, j)
    ensures ExtractComponentInlineTemplate(contents)
      == contents[TemplateMatchAt(contents, j).value.0..TemplateMatchAt(contents, j).value.1]
  {
    var j0 :| LeftmostMatch(contents, 0, j0) && TemplateMatchAt(contents, j0) == TemplateExec(contents, 0);
    LeftmostUnique(contents, 0, j0, j);
  }

  /** A component source whose first `t` starts `template: '…'`, the template holding no
      `'`, gives back exactly that template, whatever follows it. */
  lemma InlineTemplateRoundTrip(prefix: string, template: string, rest: string)
    requires 't' !in prefix && '\'' !in template
    ensures ExtractComponentInlineTemplate(prefix + "template: '" + template + "'" + rest) == template
  {
    var s := prefix + "template: '" + template + "'" + rest;
    NoMatchBefore(prefix, s);
    MatchAfter(prefix, template, rest);
    ExtractedAt(s, |prefix|, template);
  }

  lemma ExtractedAt(s: string, n: nat, template: string)
    requires n + 11 + |template| <= |s|
    requires forall k :: 0 <= k < n ==> TemplateMatchAt(s, k).None?
    requires TemplateMatchAt(s, n) == Some((n + 11, n + 11 + |template|))
    requires s[n + 11..n + 11 + |template|] == template
    ensures ExtractComponentInlineTemplate(s) == template
  {
    assert LeftmostMatch(s, 0, n);
    InlineTemplateLeftmost(s, n);
  }

  /** No match starts inside a prefix without `t`. */
  lemma NoMatchBefore(prefix: string, s: string)
    requires 't' !in prefix && |prefix| <= |s| && s[..|prefix|] == prefix
    ensures forall k :: 0 <= k < |prefix| ==> TemplateMatchAt(s, k).None?
  {
    forall k | 0 <= k < |prefix| ensures TemplateMatchAt(s, k).None? {
      assert s[k] == prefix[k];
      assert s[k..][0] == s[k];
    }
  }

  /** `template: '…'` matches where it is written. */
  lemma MatchAfter(prefix: string, template: string, rest: string)
    requires '\'' !in template
    ensures var s := prefix + "template: '" + template + "'" + rest;
      TemplateMatchAt(s, |prefix|) == Some((|prefix| + 11, |prefix| + 11 + |template|))
      && s[|prefix| + 11..|prefix| + 11 + |template|] == template
  {
    var s := prefix + "template: '" + template + "'" + rest;
    var n := |prefix|;
    assert s[n..][..8] == "template";
    assert s[n + 8] == ':' && s[n + 9] == ' ' && s[n + 10] == '\'';
    assert s[n + 11..n + 11 + |template|] == template;
    assert s[n + 11 + |template|] == '\'';
    MatchAtQuoted(s, n, template);
  }

  lemma MatchAtQuoted(s: string, n: nat, template: string)
    requires n + 11 + |template| < |s| && '\'' !in template
    requires StartsWith(s[n..], "template")
    requires s[n + 8] == ':' && s[n + 9] == ' ' && s[n + 10] == '\''
    requires s[n + 11..n + 11 + |template|] == template && s[n + 11 + |template|] == '\''
    ensures TemplateMatchAt(s, n) == Some((n + 11, n + 11 + |template|))
  {
    NoRunAt(s, n + 8);
    NoRunAt(s, n + 10);
    assert WhitespaceRun(s, n + 9) == 1;
    NextQuoteFinds(s, n + 11, '\'', n + 11 + |template|);
  }

  lemma NoRunAt(s: string, i: nat)
    requires i < |s| && !IsWhitespace(s[i])
    ensures WhitespaceRun(s, i) == 0
  {
  }

  lemma {:induction false} NextQuoteFinds(s: string, i: nat, q: char, close: nat)
    requires i <= close < |s| && s[close] == q && q !in s[i..close]
    ensures NextQuote(s, i, q) == Some(close)
    decreases close - i
  {
    if i < close {
      assert s[i] == s[i..close][0];
      assert s[i + 1..close] == s[i..close][1..];
      NextQuoteFinds(s, i + 1, q, close);
    }
  }

  /** `stripBOM`: `contents.trim()`. */
  function StripBom(contents: string): (r: string)
    ensures Trim(r) == r
    ensures LeadingWhitespace(contents) + |r| <= |contents|
    ensures r == contents[LeadingWhitespace(contents)..LeadingWhitespace(contents) + |r|]
    ensures r == [] || (!IsWhitespace(r[0]) && !IsWhitespace(r[|r| - 1]))
  {
    TrimIdempotent(contents);
    Trim(contents)
  }

  /** Stripping twice is stripping once. */
  lemma StripBomIdempotent(contents: string)
    ensures StripBom(StripBom(contents)) == StripBom(contents)
  {
    TrimIdempotent(contents);
  }
}
