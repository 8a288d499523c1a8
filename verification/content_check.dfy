/** `ArticleProcessor._validate_content_size`: three rejections checked in a
    fixed order on the text read from the input file. */
module ContentCheck {
  import opened Text

  datatype ContentError =
    | TooShort   // stripped text shorter than 10 characters
    | TooLarge   // UTF-8 encoding larger than the configured limit
    | Unsafe     // a denylisted marker occurs, ignoring case

  datatype Verdict = Accepted | Rejected(reason: ContentError)

  const MinStrippedLength: nat := 10

  /** `MAX_FILE_SIZE_MB` when the environment does not set it. */
  const DefaultMaxFileSizeMb: int := 10

  /** The markers whose presence rejects an input. */
  const SuspiciousMarkers: seq<string> := ["<script", "javascript:", "data:"]

  /** The byte limit for a configured number of megabytes. */
  function MaxBytes(maxFileSizeMb: int): int {
    maxFileSizeMb * 1024 * 1024
  }

  /** With `MAX_FILE_SIZE_MB` unset the limit is 10 MiB: long-enough text is
      too large exactly when its UTF-8 encoding exceeds 10 485 760 bytes. */
  lemma DefaultLimit(content: string)
    ensures MaxBytes(DefaultMaxFileSizeMb) == 10485760
    ensures ValidateContentSize(content, DefaultMaxFileSizeMb) == Rejected(TooLarge) <==>
      |Strip(content)| >= MinStrippedLength && Utf8Length(content) > 10485760
  {
  }

  predicate HasSuspiciousMarker(content: string) {
    exists i :: 0 <= i < |SuspiciousMarkers| && Contains(Lower(content), SuspiciousMarkers[i])
  }

  /** `_validate_content_size(content)` with `MAX_FILE_SIZE_MB` read as
      `maxFileSizeMb`: too short first, then too large, then unsafe. */
  function ValidateContentSize(content: string, maxFileSizeMb: int): (v: Verdict)
    ensures v == Rejected(TooShort) <==> |Strip(content)| < MinStrippedLength
    ensures v == Rejected(TooLarge) <==>
      |Strip(content)| >= MinStrippedLength && Utf8Length(content) > MaxBytes(maxFileSizeMb)
    ensures v == Rejected(Unsafe) <==>
      |Strip(content)| >= MinStrippedLength && Utf8Length(content) <= MaxBytes(maxFileSizeMb)
      && HasSuspiciousMarker(content)
    ensures v == Accepted ==>
      && |content| >= MinStrippedLength
      && Utf8Length(content) <= MaxBytes(maxFileSizeMb)
      && forall i :: 0 <= i < |SuspiciousMarkers| ==> !Contains(Lower(content), SuspiciousMarkers[i])
  {
    if |content| == 0 || |Strip(content)| < MinStrippedLength then Rejected(TooShort)
    else if Utf8Length(content) > MaxBytes(maxFileSizeMb) then Rejected(TooLarge)
    else if HasSuspiciousMarker(content) then Rejected(Unsafe)
    else Accepted
  }

  /** Upper case does not hide a marker: appending a marker in any case to
      otherwise acceptable text makes it unsafe (or too large). */
  lemma MarkerRejectsWhateverCase(content: string, marker: string, maxFileSizeMb: int)
    requires Lower(marker) in SuspiciousMarkers
    requires |Strip(content)| >= MinStrippedLength
    ensures ValidateContentSize(content + marker, maxFileSizeMb) != Accepted
  {
    var s := content + marker;
    var lower := Lower(s);
    assert lower[|content|..] == Lower(marker);
    assert OccursAt(lower, Lower(marker), |content|);
    var i :| 0 <= i < |SuspiciousMarkers| && SuspiciousMarkers[i] == Lower(marker);
    assert Contains(lower, SuspiciousMarkers[i]);
    StripOfExtension(content, marker);
  }

  /** Appending text never shortens the stripped text. */
  lemma StripOfExtension(a: string, b: string)
    ensures |Strip(a + b)| >= |Strip(a)|
  {
    var s := a + b;
    var r := Strip(a);
    if |r| > 0 {
      var la := LeadingSpaces(a);
      var ls := LeadingSpaces(s);
      assert !IsSpace(a[la]);
      assert s[la] == a[la];
      assert ls <= la;
      var last := la + |r| - 1;
      assert !IsSpace(s[last]);
      assert ls + |Strip(s)| > last;
    }
  }
}
