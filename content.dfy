/** The cleanup applied to the text the language model returns for a tweet
    or a reply: trim it, then remove the quotes around it with a global
    regular expression that matches a quote at the start or a quote at the end.

    The global replacement removes a quote (`"` or `'`) standing at the very
    start and a quote standing at the very end. The two matches are found
    independently, and a string made of one quote matches only the first
    alternative, so it becomes empty. */
module Content {
  import opened Text

  predicate IsQuote(c: char) {
    c == '"' || c == '\''
  }

  predicate StartsWithQuote(s: string) {
    s != [] && IsQuote(s[0])
  }

  predicate EndsWithQuote(s: string) {
    s != [] && IsQuote(s[|s| - 1])
  }

  /** The quote strip: the global replacement of a leading or a trailing
      quote by nothing. */
  function StripQuotes(s: string): (r: string)
    ensures |s| - 2 <= |r| <= |s|
  {
    var start := if StartsWithQuote(s) then 1 else 0;
    var end := if |s| > start && EndsWithQuote(s) then |s| - 1 else |s|;
    s[start..end]
  }

  /** `raw.trim()` followed by the quote strip. */
  function Cleanup(raw: string): (r: string)
    ensures |r| <= |raw|
  {
    TrimLength(raw);
    StripQuotes(Trim(raw))
  }

  lemma TrimLength(s: string)
    ensures |Trim(s)| <= |s|
  {
    TrimSpec(s);
  }

  /** The result is what lies between an optional leading quote and an
      optional trailing quote: one leading quote goes exactly when the string
      starts with one, one trailing quote exactly when the string ends with
      one that is not also that leading quote; everything else stays, in
      order. */
  lemma StripQuotesSpec(s: string)
    ensures var r, lead := StripQuotes(s), if StartsWithQuote(s) then 1 else 0;
      var trail := |s| - lead - |r|;
      && (trail == 0 || trail == 1)
      && r == s[lead..|s| - trail]
      && (trail == 1 <==> EndsWithQuote(s) && |s| >= 2)
  {
  }

  /** The text comes back unchanged exactly when it neither starts nor ends
      with a quote. */
  lemma StripQuotesUnchanged(s: string)
    ensures StripQuotes(s) == s <==> !StartsWithQuote(s) && !EndsWithQuote(s)
  {
    if StripQuotes(s) == s && s != [] {
      assert |StripQuotes(s)| == |s|;
    }
  }

  /** A text wrapped in a pair of quotes, of either kind, is unwrapped to
      exactly the text, even when the text itself begins or ends with a
      quote: only one quote is removed at each end. */
  lemma StripQuotesUnwraps(open: char, x: string, close: char)
    requires IsQuote(open) && IsQuote(close)
    ensures StripQuotes([open] + x + [close]) == x
  {
    var s := [open] + x + [close];
    assert s[1..|s| - 1] == x;
  }

  /** Only the leading quote goes when the text does not end with one. */
  lemma StripQuotesLeadingOnly(open: char, x: string)
    requires IsQuote(open) && !EndsWithQuote(x)
    ensures StripQuotes([open] + x) == x
  {
    var s := [open] + x;
    assert s[1..] == x;
  }

  /** Only the trailing quote goes when the text does not start with one. */
  lemma StripQuotesTrailingOnly(x: string, close: char)
    requires IsQuote(close) && !StartsWithQuote(x)
    ensures StripQuotes(x + [close]) == x
  {
    var s := x + [close];
    assert s[..|s| - 1] == x;
  }

  /** A lone quote becomes the empty string. */
  lemma StripQuotesLoneQuote(q: char)
    requires IsQuote(q)
    ensures StripQuotes([q]) == []
  {
  }

  lemma {:induction false} TrimStartPrefix(pre: string, body: string)
    requires forall i :: 0 <= i < |pre| ==> IsJsWhitespace(pre[i])
    requires body == [] || !IsJsWhitespace(body[0])
    ensures TrimStart(pre + body) == body
  {
    if pre != [] {
      assert (pre + body)[1..] == pre[1..] + body;
      TrimStartPrefix(pre[1..], body);
    } else {
      assert pre + body == body;
    }
  }

  lemma {:induction false} TrimEndSuffix(body: string, post: string)
    requires forall i :: 0 <= i < |post| ==> IsJsWhitespace(post[i])
    requires body == [] || !IsJsWhitespace(body[|body| - 1])
    ensures TrimEnd(body + post) == body
  {
    if post != [] {
      var s := body + post;
      assert s[..|s| - 1] == body + post[..|post| - 1];
      TrimEndSuffix(body, post[..|post| - 1]);
    } else {
      assert body + post == body;
    }
  }

  /** A completion that is a quoted text surrounded by white space cleans
      up to the text itself. */
  lemma CleanupQuotedCompletion(pre: string, open: char, x: string, close: char, post: string)
    requires forall i :: 0 <= i < |pre| ==> IsJsWhitespace(pre[i])
    requires forall i :: 0 <= i < |post| ==> IsJsWhitespace(post[i])
    requires IsQuote(open) && IsQuote(close)
    ensures Cleanup(pre + [open] + x + [close] + post) == x
  {
    var quoted := [open] + x + [close];
    assert pre + [open] + x + [close] + post == pre + (quoted + post);
    TrimStartPrefix(pre, quoted + post);
    TrimEndSuffix(quoted, post);
    StripQuotesUnwraps(open, x, close);
  }

  /** The cleaned text is a contiguous piece of the completion: the trimmed
      text with a leading quote removed exactly when it starts with one, and
      a trailing quote removed exactly when it ends with one that is not also
      that leading quote. */
  lemma CleanupSpec(raw: string)
    ensures var t, r := Trim(raw), Cleanup(raw);
      var lead := if StartsWithQuote(t) then 1 else 0;
      var trail := |t| - lead - |r|;
      && |t| - 2 <= |r| <= |t|
      && r == t[lead..lead + |r|]
      && (trail == 0 || trail == 1)
      && (trail == 1 <==> EndsWithQuote(t) && |t| >= 2)
      && (r == [] || !IsJsWhitespace(r[0]) || lead == 1)
  {
    var t := Trim(raw);
    TrimSpec(raw);
    StripQuotesSpec(t);
  }
}
