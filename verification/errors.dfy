/** The error classifier (`APIErrorHandler.classify_error`): a failure
    message is lower-cased and matched against an ordered table of
    substrings; the first entry that occurs decides the kind. */
module ApiErrors {
  import opened Wrappers
  import opened Text
  import opened Decimal

  datatype ErrorKind =
    | RateLimit
    | ContextLength
    | InvalidRequest
    | AuthError
    | ServerError
    | Timeout
    | Unknown

  /** The enum's `.value`, which the terminal error message quotes. */
  function KindValue(k: ErrorKind): string {
    match k
    case RateLimit => "rate_limit"
    case ContextLength => "context_length"
    case InvalidRequest => "invalid_request"
    case AuthError => "auth_error"
    case ServerError => "server_error"
    case Timeout => "timeout"
    case Unknown => "unknown"
  }

  /** The `APIError` record: `retryAfter` is the optional wait in seconds. */
  datatype ApiError = ApiError(kind: ErrorKind, message: string, retryable: bool, retryAfter: Option<nat>)

  /** `ERROR_PATTERNS`, in the dictionary's insertion order. */
  const ErrorPatterns: seq<(string, ErrorKind)> := [
    ("rate limit", RateLimit),
    ("too many requests", RateLimit),
    ("context length", ContextLength),
    ("maximum context length", ContextLength),
    ("invalid request", InvalidRequest),
    ("unauthorized", AuthError),
    ("authentication failed", AuthError),
    ("internal server error", ServerError),
    ("service unavailable", ServerError),
    ("timeout", Timeout),
    ("deadline exceeded", Timeout)
  ]

  predicate IsRetryableKind(k: ErrorKind) {
    k == RateLimit || k == ServerError || k == Timeout
  }

  /** The wait a rate-limit error gets when it carries no hint. */
  const DefaultRetryAfter: nat := 60

  const RetryAfterMarker: string := "retry after "

  /** No table entry classifies as unknown. */
  lemma EveryEntryHasAKind()
    ensures forall i :: 0 <= i < |ErrorPatterns| ==> ErrorPatterns[i].1 != Unknown
  {
  }

  /** Table entry `i` occurs in the (already lower-cased) message. */
  predicate PatternMatches(lower: string, i: nat)
    requires i < |ErrorPatterns|
  {
    Contains(lower, ErrorPatterns[i].0)
  }

  /** Index of the first table entry at position `k` or later that occurs
      in `lower`. */
  function FirstMatchFrom(lower: string, k: nat): (r: Option<nat>)
    requires k <= |ErrorPatterns|
    ensures r.Some? ==> k <= r.value < |ErrorPatterns| && PatternMatches(lower, r.value)
    ensures r.Some? ==> forall j :: k <= j < r.value ==> !PatternMatches(lower, j)
    ensures r.None? ==> forall j :: k <= j < |ErrorPatterns| ==> !PatternMatches(lower, j)
    decreases |ErrorPatterns| - k
  {
    if k == |ErrorPatterns| then None
    else if Contains(lower, ErrorPatterns[k].0) then Some(k)
    else FirstMatchFrom(lower, k + 1)
  }

  // ---------------------------------------------------------------------
  // The `retry after (\d+)` hint
  // ---------------------------------------------------------------------

  /** The regular expression `retry after (\d+)` matches at index `i`. */
  predicate HintAt(s: string, i: int) {
    OccursAt(s, RetryAfterMarker, i) && i + |RetryAfterMarker| < |s| && IsDigit(s[i + |RetryAfterMarker|])
  }

  /** Leftmost match position at `k` or later, as `re.search` finds it. */
  function FirstHintFrom(s: string, k: nat): (r: Option<nat>)
    requires k <= |s|
    ensures r.Some? ==> k <= r.value && HintAt(s, r.value)
    ensures r.Some? ==> forall j :: k <= j < r.value ==> !HintAt(s, j)
    ensures r.None? ==> forall j :: k <= j ==> !HintAt(s, j)
    decreases |s| - k
  {
    if k == |s| then None
    else if HintAt(s, k) then Some(k)
    else FirstHintFrom(s, k + 1)
  }

  /** The greedy digit group of a match at `i`, as a number. */
  function HintValue(s: string, i: nat): nat
    requires HintAt(s, i)
  {
    var digits := s[i + |RetryAfterMarker|..];
    DigitsValue(digits[..DigitRun(digits)])
  }

  /** `int(re.search(r"retry after (\d+)", s).group(1))`, or `None` when the
      search fails. */
  function RetryAfterHint(s: string): (r: Option<nat>)
    ensures r.None? <==> forall j :: !HintAt(s, j)
    ensures r.Some? ==> exists i :: (HintAt(s, i) && r.value == HintValue(s, i)
                                     && forall j :: 0 <= j < i ==> !HintAt(s, j))
  {
    match FirstHintFrom(s, 0)
    case None => None
    case Some(i) => Some(HintValue(s, i))
  }

  /** A printed hint is read back as the number printed, whatever follows it
      as long as it does not extend the digit group. */
  lemma HintRoundTrip(n: nat, rest: string)
    requires |rest| == 0 || !IsDigit(rest[0])
    ensures RetryAfterHint(RetryAfterMarker + NatToString(n) + rest) == Some(n)
  {
    var digits := NatToString(n);
    var s := RetryAfterMarker + digits + rest;
    assert s[..|RetryAfterMarker|] == RetryAfterMarker;
    assert s[|RetryAfterMarker|] == digits[0];
    assert HintAt(s, 0);
    assert s[|RetryAfterMarker|..] == digits + rest;
    DigitRunOfNumeral(digits, rest);
    assert (digits + rest)[..|digits|] == digits;
    ParsePrinted(n);
  }

  lemma {:induction false} DigitRunOfNumeral(digits: string, rest: string)
    requires AllDigits(digits)
    requires |rest| == 0 || !IsDigit(rest[0])
    ensures DigitRun(digits + rest) == |digits|
    decreases |digits|
  {
    if |digits| > 0 {
      assert (digits + rest)[1..] == digits[1..] + rest;
      DigitRunOfNumeral(digits[1..], rest);
    } else {
      assert digits + rest == rest;
    }
  }

  // ---------------------------------------------------------------------
  // Classification
  // ---------------------------------------------------------------------

  /** `classify_error(e)` where `msg` is `str(e)`. */
  function Classify(msg: string): (e: ApiError)
    ensures e.message == msg
    ensures e.retryable <==> IsRetryableKind(e.kind)
    ensures e.kind == Unknown <==> forall j :: 0 <= j < |ErrorPatterns| ==> !PatternMatches(Lower(msg), j)
    ensures forall i :: (0 <= i < |ErrorPatterns| && PatternMatches(Lower(msg), i)
                         && (forall j :: 0 <= j < i ==> !PatternMatches(Lower(msg), j)))
                        ==> e.kind == ErrorPatterns[i].1
    ensures e.retryAfter.Some? <==> e.kind == RateLimit
    ensures e.kind == RateLimit && RetryAfterHint(Lower(msg)).None? ==> e.retryAfter == Some(DefaultRetryAfter)
    ensures e.kind == RateLimit && RetryAfterHint(Lower(msg)).Some? ==> e.retryAfter == RetryAfterHint(Lower(msg))
  {
    var lower := Lower(msg);
    EveryEntryHasAKind();
    match FirstMatchFrom(lower, 0)
    case None => ApiError(Unknown, msg, false, None)
    case Some(i) =>
      var kind := ErrorPatterns[i].1;
      var retryAfter :=
        if kind == RateLimit then
          match RetryAfterHint(lower)
          case Some(n) => Some(n)
          case None => Some(DefaultRetryAfter)
        else None;
      ApiError(kind, msg, IsRetryableKind(kind), retryAfter)
  }

  /** The classifier ignores case: a message and its lower-cased form are
      classified alike. */
  lemma ClassifyIgnoresCase(msg: string)
    ensures Classify(Lower(msg)).kind == Classify(msg).kind
    ensures Classify(Lower(msg)).retryAfter == Classify(msg).retryAfter
  {
    LowerIsIdempotent(msg);
  }

  /** Every message containing "maximum context length" also contains
      "context length", which stands earlier in the table; so the longer
      entry never decides a classification. */
  lemma LongContextPatternShadowed(msg: string)
    ensures FirstMatchFrom(Lower(msg), 0) != Some(3)
  {
    var lower := Lower(msg);
    if Contains(lower, "maximum context length") {
      var i := Find(lower, "maximum context length").value;
      assert lower[i..i + 22] == "maximum context length";
      assert lower[i + 8..i + 22] == lower[i..i + 22][8..];
      assert OccursAt(lower, "context length", i + 8);
    }
  }
}
