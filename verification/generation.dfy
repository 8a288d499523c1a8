/** `ArticleProcessor.generate_html` and `_validate_html`: the model is
    called at most three times; each response is stripped, cut down to its
    `<article>` fragment and validated; failures are classified and either
    end the loop or wait before the next attempt.

    The model is replaced by a sequence of outcomes, one per attempt, and
    `random.uniform(0, 2)` by a sequence of jitters; `time.sleep` becomes
    the returned sequence of waits. The HTML tokenizer is the function
    `tokenize`, which turns a fragment into tag events. */
module Generation {
  import opened Wrappers
  import opened Text
  import opened Decimal
  import opened ApiErrors
  import opened HtmlValidator
  import opened ExtractionMessages

  const MaxRetries: nat := 3
  const BaseDelay: nat := 5

  const ArticleOpen: string := "<article"
  const ArticleClose: string := "</article>"


  /** What one call of the model produced: a response text, or a failure
      whose `str()` is `message`. */
  datatype ModelOutcome = Response(content: string) | Failure(message: string)

  // ---------------------------------------------------------------------
  // Extraction
  // ---------------------------------------------------------------------

  /** Python's `s[a:b]` for in-range bounds: empty when `b < a`. */
  function PySlice(s: string, a: nat, b: nat): (r: string)
    requires a <= |s| && b <= |s|
    ensures a <= b ==> r == s[a..b]
    ensures b < a ==> r == []
  {
    if a <= b then s[a..b] else []
  }

  /** From the first `<article` to the end of the last `</article>` of an
      already stripped response, or the message of the error raised. */
  function ExtractArticle(h: string): (r: Result<string, string>)
    ensures |h| == 0 ==> r == Err(EmptyResponseMessage)
    ensures |h| > 0 && Find(h, ArticleOpen).None? ==> r == Err(MissingOpenMessage)
    ensures |h| > 0 && Find(h, ArticleOpen).Some? && RFind(h, ArticleClose).None? ==> r == Err(MissingCloseMessage)
    ensures r.Ok? <==> |h| > 0 && Find(h, ArticleOpen).Some? && RFind(h, ArticleClose).Some?
    ensures r.Ok? ==> (|r.value| == 0 <==> RFind(h, ArticleClose).value < Find(h, ArticleOpen).value)
    ensures r.Ok? && |r.value| > 0 ==>
      && StartsWith(r.value, ArticleOpen)
      && EndsWith(r.value, ArticleClose)
      && exists i :: (OccursAt(h, r.value, i)
                      && (forall j :: 0 <= j < i ==> !OccursAt(h, ArticleOpen, j))
                      && (forall j :: i + |r.value| - |ArticleClose| < j ==> !OccursAt(h, ArticleClose, j)))
  {
    if |h| == 0 then Err(EmptyResponseMessage)
    else
      match Find(h, ArticleOpen)
      case None => Err(MissingOpenMessage)
      case Some(start) =>
        match RFind(h, ArticleClose)
        case None => Err(MissingCloseMessage)
        case Some(end) =>
          var fragment := PySlice(h, start, end + |ArticleClose|);
          if start <= end then
            assert h[start..start + |ArticleOpen|] == ArticleOpen;
            assert fragment[..|ArticleOpen|] == h[start..start + |ArticleOpen|] by {
              CloseAfterOpen(h, start, end);
            }
            assert fragment[|fragment| - |ArticleClose|..] == h[end..end + |ArticleClose|];
            assert OccursAt(h, fragment, start);
            Ok(fragment)
          else
            CloseBeforeOpen(h, start, end);
            Ok(fragment)
  }

  /** An open marker at or before a close marker ends no later than the
      close marker does. */
  lemma CloseAfterOpen(h: string, start: nat, end: nat)
    requires OccursAt(h, ArticleOpen, start) && OccursAt(h, ArticleClose, end) && start <= end
    ensures start + |ArticleOpen| <= end + |ArticleClose|
  {
  }

  /** A close marker before the first open marker ends at or before it:
      the open marker starts with `<`, and the close marker holds `<` only
      at its first position. */
  lemma CloseBeforeOpen(h: string, start: nat, end: nat)
    requires OccursAt(h, ArticleOpen, start) && OccursAt(h, ArticleClose, end) && end < start
    ensures end + |ArticleClose| <= start
  {
    CharOfOccurrence(h, ArticleOpen, start, 0);
    CloseMarkerHasOneOpenBracket(h, end);
  }

  lemma CharOfOccurrence(s: string, p: string, i: nat, a: nat)
    requires OccursAt(s, p, i) && a < |p|
    ensures s[i + a] == p[a]
  {
    assert s[i..i + |p|][a] == s[i + a];
  }

  lemma CloseMarkerHasOneOpenBracket(h: string, end: nat)
    requires OccursAt(h, ArticleClose, end)
    ensures forall k :: end < k < end + |ArticleClose| ==> h[k] != '<'
  {
    forall k | end < k < end + |ArticleClose| ensures h[k] != '<' {
      CharOfOccurrence(h, ArticleClose, end, k - end);
    }
  }

  // ---------------------------------------------------------------------
  // `_validate_html`
  // ---------------------------------------------------------------------

  const UnsafePatterns: seq<string> := [
    "<script", "javascript:", "data:",
    "onclick=", "onload=", "onerror=",
    "onmouseover=", "onmouseout=", "onsubmit="
  ]

  /** No unsafe pattern is empty or holds an upper-case letter. */
  lemma PatternIsUncased(j: nat)
    requires j < |UnsafePatterns|
    ensures |UnsafePatterns[j]| > 0
    ensures forall k :: 0 <= k < |UnsafePatterns[j]| ==> !IsUpper(UnsafePatterns[j][k])
  {
  }

  /** The same passes without the lower-case test: every pattern from
      index `k` on is removed in its exact spelling, in table order. */
  function RemovePatternsFrom(html: string, k: nat): (r: string)
    requires k <= |UnsafePatterns|
    ensures |r| <= |html|
    ensures (forall j :: k <= j < |UnsafePatterns| ==> !Contains(html, UnsafePatterns[j])) ==> r == html
    decreases |UnsafePatterns| - k
  {
    if k == |UnsafePatterns| then html
    else RemovePatternsFrom(RemoveAll(html, UnsafePatterns[k]), k + 1)
  }

  /** The patterns from index `k` on, each tested on the lower-cased text
      and removed only where it occurs in exactly this case. The lower-case
      test never changes the outcome: where it fails, the exact-case pattern
      is absent as well and its removal would change nothing. */
  function SanitizeFrom(html: string, k: nat): (r: string)
    requires k <= |UnsafePatterns|
    ensures r == RemovePatternsFrom(html, k)
    ensures |r| <= |html|
    ensures (forall j :: k <= j < |UnsafePatterns| ==> !Contains(html, UnsafePatterns[j])) ==> r == html
    decreases |UnsafePatterns| - k
  {
    if k == |UnsafePatterns| then html
    else
      var p := UnsafePatterns[k];
      var next := if Contains(Lower(html), p) then RemoveAll(html, p) else html;
      PatternIsUncased(k);
      LowerKeepsUncasedOccurrence(html, p);
      SanitizeFrom(next, k + 1)
  }

  /** The clean-up loop of `_validate_html`: `html.replace(p, '')` for each
      pattern in turn. Only exact-case occurrences are ever removed: a text
      holding no pattern in exactly its lower-case spelling comes back
      unchanged, even when its lower-cased form does, and a text holding
      one comes back shorter. */
  function Sanitize(html: string): (r: string)
    ensures r == RemovePatternsFrom(html, 0)
    ensures |r| <= |html|
    ensures (forall j :: 0 <= j < |UnsafePatterns| ==> !Contains(html, UnsafePatterns[j])) ==> r == html
    ensures (exists j :: 0 <= j < |UnsafePatterns| && Contains(html, UnsafePatterns[j])) ==> |r| < |html|
  {
    RemovePatternsShrink(html, 0);
    SanitizeFrom(html, 0)
  }

  /** Some pattern from index `k` on present in exactly its spelling makes
      the passes cut out at least one character: the passes before the
      first such pattern change nothing, and its own pass cuts out at least
      one copy of it. */
  lemma {:induction false} RemovePatternsShrink(html: string, k: nat)
    requires k <= |UnsafePatterns|
    ensures (exists j :: k <= j < |UnsafePatterns| && Contains(html, UnsafePatterns[j]))
            ==> |RemovePatternsFrom(html, k)| < |html|
    decreases |UnsafePatterns| - k
  {
    if exists j :: k <= j < |UnsafePatterns| && Contains(html, UnsafePatterns[j]) {
      var j :| k <= j < |UnsafePatterns| && Contains(html, UnsafePatterns[j]);
      var p := UnsafePatterns[k];
      PatternIsUncased(k);
      var next := RemoveAll(html, p);
      assert RemovePatternsFrom(html, k) == RemovePatternsFrom(next, k + 1);
      if Contains(html, p) {
        assert |next| + |p| <= |html|;
      } else {
        assert next == html;
        RemovePatternsShrink(html, k + 1);
        assert k + 1 <= j;
      }
    }
  }

  /** An upper-case script tag passes the clean-up untouched: the test
      sees `<script` in the lower-cased text, but the removal looks for the
      lower-case spelling and finds nothing. */
  lemma UpperCaseScriptSurvives()
    ensures Contains(Lower("<SCRIPT>alert(1)</SCRIPT>"), UnsafePatterns[0])
    ensures Sanitize("<SCRIPT>alert(1)</SCRIPT>") == "<SCRIPT>alert(1)</SCRIPT>"
  {
    var s := "<SCRIPT>alert(1)</SCRIPT>";
    assert Lower(s)[..7] == UnsafePatterns[0];
    assert OccursAt(Lower(s), UnsafePatterns[0], 0);
    UpperScriptLacks('s');
    UpperScriptLacks('j');
    UpperScriptLacks('d');
    UpperScriptLacks('o');
    forall j | 0 <= j < |UnsafePatterns| ensures !Contains(s, UnsafePatterns[j]) {
      var a := if j == 0 then 1 else 0;
      AbsentCharExcludes(s, UnsafePatterns[j], a);
    }
  }

  lemma UpperScriptLacks(c: char)
    requires c == 's' || c == 'j' || c == 'd' || c == 'o'
    ensures Lacks("<SCRIPT>alert(1)</SCRIPT>", c)
  {
    var a, b, d := "<SCRIPT>", "alert(1)", "</SCRIPT>";
    assert Lacks(a, c) && Lacks(b, c) && Lacks(d, c);
    LacksAppend(a, b, c);
    LacksAppend(a + b, d, c);
    assert a + b + d == "<SCRIPT>alert(1)</SCRIPT>";
  }

  /** The clean-up is not idempotent: removing the inner `onclick=` of
      `ononclick=click=` joins its neighbours into a new `onclick=`, which
      only a second pass removes. */
  lemma SanitizeIsNotIdempotent()
    ensures Sanitize("ononclick=click=") == "onclick="
    ensures Sanitize(Sanitize("ononclick=click=")) == ""
  {
    FirstPass("ononclick=click=");
    SecondPass("onclick=");
  }

  lemma FirstPass(s: string)
    requires s == "ononclick=click="
    ensures Sanitize(s) == "onclick="
  {
    HeadPassesKeep(s);
    InnerOnclickRemoved();
    assert RemovePatternsFrom(s, 3) == RemovePatternsFrom("onclick=", 4);
    TailPassesKeep("onclick=");
  }

  lemma SecondPass(s: string)
    requires s == "onclick="
    ensures Sanitize(s) == ""
  {
    HeadPassesKeep(s);
    assert Find(s, s) == Some(0);
    assert RemoveAll(s, UnsafePatterns[3]) == [];
    assert RemovePatternsFrom(s, 3) == RemovePatternsFrom("", 4);
    TailPassesKeep("");
  }

  /** The first three patterns hold `<`, `j` and `d`, which neither text
      has, so their passes change nothing. */
  lemma HeadPassesKeep(s: string)
    requires s == "ononclick=click=" || s == "onclick="
    ensures RemovePatternsFrom(s, 0) == RemovePatternsFrom(s, 3)
  {
    assert Lacks(s, '<') && Lacks(s, 'j') && Lacks(s, 'd');
    AbsentCharExcludes(s, UnsafePatterns[0], 0);
    AbsentCharExcludes(s, UnsafePatterns[1], 0);
    AbsentCharExcludes(s, UnsafePatterns[2], 0);
    assert RemovePatternsFrom(s, 0) == RemovePatternsFrom(s, 1);
    assert RemovePatternsFrom(s, 1) == RemovePatternsFrom(s, 2);
    assert RemovePatternsFrom(s, 2) == RemovePatternsFrom(s, 3);
  }

  lemma InnerOnclickRemoved()
    ensures Find("ononclick=click=", "onclick=") == Some(2)
    ensures RemoveAll("ononclick=click=", "onclick=") == "onclick="
  {
    var s := "ononclick=click=";
    var p := "onclick=";
    assert s[2..10] == p;
    assert FindFrom(s, p, 2) == Some(2);
    assert s[1..9][0] != p[0];
    assert FindFrom(s, p, 1) == Some(2);
    assert s[0..8][2] != p[2];
    assert Find(s, p) == Some(2);
    assert s[10..] == "click=";
    assert Find("click=", p) == None;
  }

  /** The last five patterns hold `a`, `e`, `m` or `s`, which `onclick=` lacks. */
  lemma TailPassesKeep(s: string)
    requires s == "onclick=" || s == ""
    ensures RemovePatternsFrom(s, 4) == s
  {
    assert Lacks(s, 'a') && Lacks(s, 'e') && Lacks(s, 'm') && Lacks(s, 's');
    forall j | 4 <= j < |UnsafePatterns| ensures !Contains(s, UnsafePatterns[j]) {
      var a := if j == 4 then 4 else 2;
      AbsentCharExcludes(s, UnsafePatterns[j], a);
    }
  }

  datatype HtmlError =
    | ParserError(message: string)
    | MissingRequiredTags(missing: seq<string>)

  /** `str()` of the error `_validate_html` would raise. */
  function HtmlErrorText(e: HtmlError): string {
    match e
    case ParserError(m) => m
    case MissingRequiredTags(missing) => "Brakuje wymaganych tagów: " + Join(missing, ", ")
  }

  /** The required tags not in `found`. */
  function MissingTags(found: set<string>): seq<string> {
    (if "article" in found then [] else ["article"])
    + (if "h1" in found then [] else ["h1"])
    + (if "p" in found then [] else ["p"])
  }

  /** Python truthiness of the dictionary `validate()` returns. */
  predicate Truthy(d: map<string, bool>) {
    |d| > 0
  }

  /** `_validate_html`: feed the fragment to the shared validator, test the
      result dictionary for truthiness, then strip unsafe patterns. */
  function ValidateHtml(v: Validator, events: seq<TagEvent>, html: string): Result<(Validator, string), HtmlError>
  {
    match Feed(v, events)
    case Err(m) => Err(ParserError(m))
    case Ok(fed) =>
      var results := Validate(fed);
      var dict := map["is_balanced" := results.isBalanced, "has_required_tags" := results.hasRequiredTags];
      if !Truthy(dict) then
        Err(MissingRequiredTags(MissingTags(fed.found)))
      else Ok((fed, Sanitize(html)))
  }

  /** The result dictionary always has two entries, so it is always truthy:
      `_validate_html` never rejects a fragment, balanced or not, whatever
      tags are missing. */
  lemma ValidateHtmlNeverRejects(v: Validator, events: seq<TagEvent>, html: string)
    ensures ValidateHtml(v, events, html).Ok?
    ensures ValidateHtml(v, events, html).value == (Feed(v, events).value, Sanitize(html))
  {
    FeedNeverFails(v, events);
    var results := Validate(Feed(v, events).value);
    var dict := map["is_balanced" := results.isBalanced, "has_required_tags" := results.hasRequiredTags];
    assert "is_balanced" in dict;
  }

  // ---------------------------------------------------------------------
  // One attempt
  // ---------------------------------------------------------------------

  datatype AttemptResult =
    | Succeeded(html: string, validator: Validator)
    | Failed(error: ApiError)

  /** The body of the `try` block for one model outcome, with the `except`
      clause's classification of whatever was raised. */
  function RunAttempt(o: ModelOutcome, v: Validator, tokenize: string -> seq<TagEvent>): AttemptResult {
    match o
    case Failure(message) => Failed(Classify(message))
    case Response(content) =>
      match ExtractArticle(Strip(content))
      case Err(message) => Failed(Classify(message))
      case Ok(fragment) =>
        match ValidateHtml(v, tokenize(fragment), fragment)
        case Err(e) => Failed(Classify(HtmlErrorText(e)))
        case Ok((v', html)) => Succeeded(html, v')
  }

  /** A response is turned into a fragment exactly when it holds both
      markers; then the attempt succeeds with the sanitized fragment. */
  lemma ResponseAttempt(content: string, v: Validator, tokenize: string -> seq<TagEvent>)
    ensures var h := Strip(content);
      RunAttempt(Response(content), v, tokenize).Succeeded?
      <==> |h| > 0 && Find(h, ArticleOpen).Some? && RFind(h, ArticleClose).Some?
    ensures var h := Strip(content);
      ExtractArticle(h).Ok? ==>
        RunAttempt(Response(content), v, tokenize)
        == Succeeded(Sanitize(ExtractArticle(h).value), Feed(v, tokenize(ExtractArticle(h).value)).value)
  {
    var h := Strip(content);
    if ExtractArticle(h).Ok? {
      var fragment := ExtractArticle(h).value;
      ValidateHtmlNeverRejects(v, tokenize(fragment), fragment);
    }
  }

  /** The messages of the extraction errors match no table entry, so a
      response that is empty or lacks a marker fails as a non-retryable
      unknown error. */
  lemma ExtractionFailureIsFinal(content: string, v: Validator, tokenize: string -> seq<TagEvent>)
    requires ExtractArticle(Strip(content)).Err?
    ensures RunAttempt(Response(content), v, tokenize).Failed?
    ensures RunAttempt(Response(content), v, tokenize).error.kind == Unknown
    ensures !RunAttempt(Response(content), v, tokenize).error.retryable
  {
    EmptyResponseIsUnknown();
    MissingOpenIsUnknown();
    MissingCloseIsUnknown();
  }

  // ---------------------------------------------------------------------
  // Backoff and the terminal error
  // ---------------------------------------------------------------------

  function Pow2(n: nat): (r: nat)
    ensures r >= 1
  {
    if n == 0 then 1 else 2 * Pow2(n - 1)
  }

  /** The wait before the next attempt: the classifier's `retry_after` when
      it is truthy (present and non-zero), else exponential backoff plus the
      jitter. */
  function WaitTime(e: ApiError, attempt: nat, jitter: real): (w: real)
    ensures e.retryAfter.Some? && e.retryAfter.value != 0 ==> w == e.retryAfter.value as real
    ensures (e.retryAfter.None? || e.retryAfter.value == 0) ==>
      (BaseDelay * Pow2(attempt)) as real + jitter == w
  {
    match e.retryAfter
    case Some(n) => if n != 0 then n as real else (BaseDelay * Pow2(attempt)) as real + jitter
    case None => (BaseDelay * Pow2(attempt)) as real + jitter
  }

  /** Without a hint the backoff before jitter is 5, 10 and 20 seconds for
      attempts 0, 1 and 2, and the jitter adds at most 2 seconds. */
  lemma BackoffSchedule(e: ApiError, jitter: real)
    requires e.retryAfter.None? || e.retryAfter == Some(0)
    requires 0.0 <= jitter <= 2.0
    ensures WaitTime(e, 0, 0.0) == 5.0 && WaitTime(e, 1, 0.0) == 10.0 && WaitTime(e, 2, 0.0) == 20.0
    ensures forall a :: 0 <= a <= 2 ==> WaitTime(e, a, 0.0) <= WaitTime(e, a, jitter) <= WaitTime(e, a, 0.0) + 2.0
  {
  }

  /** A rate-limit message that says "retry after 0" does not wait 0
      seconds: the classifier records the hint 0, which is falsy, so the
      backoff formula applies. */
  lemma ZeroHintFallsBackToBackoff(msg: string, attempt: nat, jitter: real)
    requires PatternMatches(Lower(msg), 0)
    requires RetryAfterHint(Lower(msg)) == Some(0)
    ensures Classify(msg).kind == RateLimit && Classify(msg).retryAfter == Some(0)
    ensures WaitTime(Classify(msg), attempt, jitter) == (BaseDelay * Pow2(attempt)) as real + jitter
  {
  }

  /** With a jitter in [0, 2], a wait is either the hinted delay or at
      most two seconds above the backoff. */
  lemma WaitBound(e: ApiError, attempt: nat, jitter: real)
    requires 0.0 <= jitter <= 2.0
    ensures 0.0 <= WaitTime(e, attempt, jitter)
    ensures WaitTime(e, attempt, jitter) <= (BaseDelay * Pow2(attempt)) as real + 2.0
            || (e.retryAfter.Some? && WaitTime(e, attempt, jitter) == e.retryAfter.value as real)
  {
  }

  const ContextLengthAdvice: string := "\nTekst jest zbyt długi dla modelu. Spróbuj podzielić go na mniejsze części."
  const AuthAdvice: string := "\nSprawdź poprawność klucza API w pliku .env"

  /** The `ValueError` message raised once the loop gives up. */
  function TerminalMessage(e: ApiError): string {
    var base := "Błąd API po " + NatToString(MaxRetries) + " próbach: " + KindValue(e.kind) + " - " + e.message;
    if e.kind == ContextLength then base + ContextLengthAdvice
    else if e.kind == AuthError then base + AuthAdvice
    else base
  }

  /** The terminal message always reports three attempts and the kind, and
      carries advice for context-length and authentication errors only. */
  lemma TerminalMessageShape(e: ApiError)
    ensures StartsWith(TerminalMessage(e), "Błąd API po 3 próbach: " + KindValue(e.kind) + " - " + e.message)
    ensures e.kind == ContextLength ==> EndsWith(TerminalMessage(e), ContextLengthAdvice)
    ensures e.kind == AuthError ==> EndsWith(TerminalMessage(e), AuthAdvice)
    ensures e.kind != ContextLength && e.kind != AuthError ==>
      TerminalMessage(e) == "Błąd API po 3 próbach: " + KindValue(e.kind) + " - " + e.message
  {
    assert NatToString(3) == "3";
  }

  // ---------------------------------------------------------------------
  // The retry loop
  // ---------------------------------------------------------------------

  /** The control flow of `generate_html`'s loop over the attempts'
      results: stop at the first success, at a non-retryable failure or
      after the last attempt; otherwise wait and try again. `results[k]` is
      attempt `k`'s result and `jitters[k]` the jitter drawn after it. */
  method RetryLoop(results: seq<AttemptResult>, jitters: seq<real>, v: Validator)
    returns (r: Result<string, string>, v': Validator, calls: nat, waits: seq<real>)
    requires |results| >= MaxRetries && |jitters| >= MaxRetries
    ensures 1 <= calls <= MaxRetries
    ensures |waits| == calls - 1
    ensures forall k :: 0 <= k < calls - 1 ==> results[k].Failed? && results[k].error.retryable
    ensures forall k :: 0 <= k < |waits| ==> waits[k] == WaitTime(results[k].error, k, jitters[k])
    ensures r.Ok? <==> results[calls - 1].Succeeded?
    ensures r.Ok? ==> r.value == results[calls - 1].html && v' == results[calls - 1].validator
    ensures r.Err? ==>
      v' == v && (calls == MaxRetries || !results[calls - 1].error.retryable)
      && r.error == TerminalMessage(results[calls - 1].error)
  {
    var attempt: nat := 0;
    var stop := false;
    waits := [];
    while !stop
      invariant attempt < MaxRetries
      invariant |waits| == attempt
      invariant forall k :: 0 <= k < attempt ==> results[k].Failed? && results[k].error.retryable
      invariant forall k :: 0 <= k < attempt ==> waits[k] == WaitTime(results[k].error, k, jitters[k])
      invariant stop ==> results[attempt].Failed? && (attempt == MaxRetries - 1 || !results[attempt].error.retryable)
      decreases MaxRetries - attempt, if stop then 0 else 1
    {
      match results[attempt]
      case Succeeded(html, validator) =>
        r, v', calls := Ok(html), validator, attempt + 1;
        return;
      case Failed(e) =>
        if !e.retryable || attempt >= MaxRetries - 1 {
          stop := true;
        } else {
          waits := waits + [WaitTime(e, attempt, jitters[attempt])];
          attempt := attempt + 1;
        }
    }
    r, v', calls := Err(TerminalMessage(results[attempt].error)), v, attempt + 1;
  }

  /** What each of the `MaxRetries` attempts would come to, attempt `k`
      meeting `outcomes[k]`. Every attempt starts from the same validator:
      a failed attempt leaves it untouched. */
  function Attempts(outcomes: seq<ModelOutcome>, v: Validator, tokenize: string -> seq<TagEvent>): (r: seq<AttemptResult>)
    requires |outcomes| >= MaxRetries
    ensures |r| == MaxRetries
    ensures forall k :: 0 <= k < MaxRetries ==> r[k] == RunAttempt(outcomes[k], v, tokenize)
  {
    seq(MaxRetries, k requires 0 <= k < MaxRetries => RunAttempt(outcomes[k], v, tokenize))
  }

  /** What `generate_html` establishes between the attempts' results and
      what it returns, when `calls` attempts ran: every attempt but the
      last failed with a retryable error, and the last one decides. */
  predicate GeneratedIn(attempts: seq<AttemptResult>, calls: int, r: Result<string, string>, vIn: Validator, vOut: Validator)
    requires |attempts| >= MaxRetries
  {
    && 1 <= calls <= MaxRetries
    && (forall k :: 0 <= k < calls - 1 ==> attempts[k].Failed? && attempts[k].error.retryable)
    && (r.Ok? <==> attempts[calls - 1].Succeeded?)
    && (r.Ok? ==> r.value == attempts[calls - 1].html && vOut == attempts[calls - 1].validator)
    && (r.Err? ==> vOut == vIn && (calls == MaxRetries || !attempts[calls - 1].error.retryable)
                   && r.error == TerminalMessage(attempts[calls - 1].error))
  }

  /** `generate_html(prompt)`: `outcomes[k]` is what the model answers on
      attempt `k`, `jitters[k]` the jitter drawn after it. Returns the HTML
      or the terminal error message, the validator after the successful
      feed, the number of model calls and the waits slept in order. */
  method GenerateHtml(outcomes: seq<ModelOutcome>, jitters: seq<real>, v: Validator, tokenize: string -> seq<TagEvent>)
    returns (r: Result<string, string>, v': Validator, calls: nat, waits: seq<real>)
    requires |outcomes| >= MaxRetries && |jitters| >= MaxRetries
    requires forall k :: 0 <= k < |jitters| ==> 0.0 <= jitters[k] <= 2.0
    ensures GeneratedIn(Attempts(outcomes, v, tokenize), calls, r, v, v')
    ensures |waits| == calls - 1
    ensures var attempts := Attempts(outcomes, v, tokenize);
      forall k :: 0 <= k < |waits| ==> waits[k] == WaitTime(attempts[k].error, k, jitters[k])
    ensures var attempts := Attempts(outcomes, v, tokenize);
      forall k :: 0 <= k < |waits| ==>
        (waits[k] <= (BaseDelay * Pow2(k)) as real + 2.0
         || (attempts[k].error.retryAfter.Some? && waits[k] == attempts[k].error.retryAfter.value as real))
  {
    var attempts := Attempts(outcomes, v, tokenize);
    r, v', calls, waits := RetryLoop(attempts, jitters, v);
    forall k | 0 <= k < |waits|
      ensures waits[k] <= (BaseDelay * Pow2(k)) as real + 2.0
              || (attempts[k].error.retryAfter.Some? && waits[k] == attempts[k].error.retryAfter.value as real)
    {
      WaitBound(attempts[k].error, k, jitters[k]);
    }
  }
}
