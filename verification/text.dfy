/** The fragment of Python's `str` API the pipeline relies on: lower-casing,
    `strip`, `find`/`rfind`, `in`, `split`/`join`, `replace(p, '')` and the
    UTF-8 byte length of `encode('utf-8')`. */
module Text {
  import opened Wrappers

  // ---------------------------------------------------------------------
  // Case and white space
  // ---------------------------------------------------------------------

  /** Lower-casing of one character, restricted to the ASCII letters. */
  function LowerChar(c: char): char {
    if 'A' <= c <= 'Z' then (c as int + 32) as char else c
  }

  predicate IsUpper(c: char) {
    'A' <= c <= 'Z'
  }

  /** `s.lower()`: every character lower-cased in place. */
  function Lower(s: string): (r: string)
    ensures |r| == |s|
    ensures forall i :: 0 <= i < |s| ==> r[i] == LowerChar(s[i])
  {
    seq(|s|, i requires 0 <= i < |s| => LowerChar(s[i]))
  }

  /** A text without upper-case letters is its own lower-case form. */
  lemma LowerOfUncased(s: string)
    requires forall k :: 0 <= k < |s| ==> !IsUpper(s[k])
    ensures Lower(s) == s
  {
  }

  lemma LowerIsIdempotent(s: string)
    ensures Lower(Lower(s)) == Lower(s)
    ensures forall i :: 0 <= i < |s| ==> !IsUpper(Lower(s)[i])
  {
  }

  /** Python's `str.isspace()`: the characters `strip()` removes. */
  predicate IsSpace(c: char) {
    var n := c as int;
    || n == 0x20
    || 0x09 <= n <= 0x0D
    || 0x1C <= n <= 0x1F
    || n == 0x85 || n == 0xA0 || n == 0x1680
    || 0x2000 <= n <= 0x200A
    || n == 0x2028 || n == 0x2029 || n == 0x202F || n == 0x205F || n == 0x3000
  }

  /** Number of white-space characters at the front of `s`. */
  function LeadingSpaces(s: string): (n: nat)
    ensures n <= |s|
    ensures forall i :: 0 <= i < n ==> IsSpace(s[i])
    ensures n < |s| ==> !IsSpace(s[n])
  {
    if |s| > 0 && IsSpace(s[0]) then 1 + LeadingSpaces(s[1..]) else 0
  }

  /** Drops the trailing white space: a prefix of `s`. */
  function TrimEnd(s: string): (r: string)
    ensures |r| <= |s| && r == s[..|r|]
    ensures |r| > 0 ==> !IsSpace(r[|r| - 1])
    ensures forall i :: |r| <= i < |s| ==> IsSpace(s[i])
  {
    if |s| > 0 && IsSpace(s[|s| - 1]) then TrimEnd(s[..|s| - 1]) else s
  }

  /** `s.strip()`: the slice of `s` left once white space is cut off both
      ends; everything cut off is white space. */
  function Strip(s: string): (r: string)
    ensures LeadingSpaces(s) + |r| <= |s|
    ensures r == s[LeadingSpaces(s)..LeadingSpaces(s) + |r|]
    ensures forall i :: LeadingSpaces(s) + |r| <= i < |s| ==> IsSpace(s[i])
    ensures |r| > 0 ==> !IsSpace(r[0]) && !IsSpace(r[|r| - 1])
  {
    TrimEnd(s[LeadingSpaces(s)..])
  }

  /** Stripping leaves nothing exactly when `s` is all white space, and
      stripping twice is the same as stripping once. */
  lemma StripProperties(s: string)
    ensures (forall i :: 0 <= i < |s| ==> IsSpace(s[i])) <==> Strip(s) == []
    ensures Strip(Strip(s)) == Strip(s)
  {
    var r := Strip(s);
    var a := LeadingSpaces(s);
    if r == [] {
      assert a == |s|;
    }
    StripOfUnpadded(r);
  }

  lemma StripOfUnpadded(s: string)
    requires |s| > 0 ==> !IsSpace(s[0]) && !IsSpace(s[|s| - 1])
    ensures Strip(s) == s
  {
    assert LeadingSpaces(s) == 0;
    assert s[0..] == s;
    assert TrimEnd(s) == s;
  }

  // ---------------------------------------------------------------------
  // Searching
  // ---------------------------------------------------------------------

  /** `p` occurs in `s` starting at index `i`. */
  predicate OccursAt(s: string, p: string, i: int) {
    0 <= i && i + |p| <= |s| && s[i..i + |p|] == p
  }

  /** The first occurrence of `p` at an index `k` or later. */
  function FindFrom(s: string, p: string, k: nat): (r: Option<nat>)
    requires k <= |s|
    ensures r.Some? ==> k <= r.value && OccursAt(s, p, r.value)
    ensures r.Some? ==> forall j :: k <= j < r.value ==> !OccursAt(s, p, j)
    ensures r.None? ==> forall j :: k <= j ==> !OccursAt(s, p, j)
    decreases |s| - k
  {
    if k + |p| > |s| then None
    else if s[k..k + |p|] == p then Some(k)
    else FindFrom(s, p, k + 1)
  }

  /** `s.find(p)`, with `-1` as `None`. */
  function Find(s: string, p: string): (r: Option<nat>)
    ensures r.Some? ==> OccursAt(s, p, r.value)
    ensures r.Some? ==> forall j :: 0 <= j < r.value ==> !OccursAt(s, p, j)
    ensures r.None? ==> forall j :: !OccursAt(s, p, j)
  {
    FindFrom(s, p, 0)
  }

  /** The last occurrence of `p` at an index below `k`. */
  function FindLastBelow(s: string, p: string, k: nat): (r: Option<nat>)
    ensures r.Some? ==> r.value < k && OccursAt(s, p, r.value)
    ensures r.Some? ==> forall j :: r.value < j < k ==> !OccursAt(s, p, j)
    ensures r.None? ==> forall j :: j < k ==> !OccursAt(s, p, j)
  {
    if k == 0 then None
    else if OccursAt(s, p, k - 1) then Some(k - 1)
    else FindLastBelow(s, p, k - 1)
  }

  /** `s.rfind(p)`, with `-1` as `None`. */
  function RFind(s: string, p: string): (r: Option<nat>)
    ensures r.Some? ==> OccursAt(s, p, r.value)
    ensures r.Some? ==> forall j :: r.value < j ==> !OccursAt(s, p, j)
    ensures r.None? ==> forall j :: !OccursAt(s, p, j)
  {
    FindLastBelow(s, p, |s| + 1)
  }

  /** Python's `p in s`. */
  predicate Contains(s: string, p: string) {
    Find(s, p).Some?
  }

  lemma ContainsIff(s: string, p: string)
    ensures Contains(s, p) <==> exists i :: OccursAt(s, p, i)
  {
  }

  /** No character of `s` is `c`. */
  predicate Lacks(s: string, c: char) {
    forall k :: 0 <= k < |s| ==> s[k] != c
  }

  /** `c` is never directly followed by `d` in `s`. */
  predicate LacksPair(s: string, c: char, d: char) {
    forall k :: 0 <= k && k + 1 < |s| ==> !(s[k] == c && s[k + 1] == d)
  }

  lemma LacksAppend(a: string, b: string, c: char)
    requires Lacks(a, c) && Lacks(b, c)
    ensures Lacks(a + b, c)
  {
  }

  lemma LacksPairAppend(a: string, b: string, c: char, d: char)
    requires LacksPair(a, c, d) && LacksPair(b, c, d)
    requires |a| > 0 && |b| > 0 && !(a[|a| - 1] == c && b[0] == d)
    ensures LacksPair(a + b, c, d)
  {
    var s := a + b;
    forall k | 0 <= k && k + 1 < |s| ensures !(s[k] == c && s[k + 1] == d) {
      if k + 1 < |a| {
        assert s[k] == a[k] && s[k + 1] == a[k + 1];
      } else if k >= |a| {
        assert s[k] == b[k - |a|] && s[k + 1] == b[k + 1 - |a|];
      }
    }
  }

  lemma LowerAppend(a: string, b: string)
    ensures Lower(a + b) == Lower(a) + Lower(b)
  {
  }

  /** Lower-casing keeps every occurrence of a pattern without upper-case
      letters: `p in s` implies `p in s.lower()`. */
  lemma LowerKeepsUncasedOccurrence(s: string, p: string)
    requires forall k :: 0 <= k < |p| ==> !IsUpper(p[k])
    ensures Contains(s, p) ==> Contains(Lower(s), p)
  {
    if Contains(s, p) {
      var i := Find(s, p).value;
      forall k | 0 <= k < |p| ensures Lower(s)[i..i + |p|][k] == p[k] {
        assert s[i..i + |p|][k] == p[k];
      }
      assert OccursAt(Lower(s), p, i);
      ContainsIff(Lower(s), p);
    }
  }

  /** A pattern holding a character that `s` lacks does not occur in `s`. */
  lemma AbsentCharExcludes(s: string, p: string, a: nat)
    requires a < |p| && Lacks(s, p[a])
    ensures !Contains(s, p)
  {
  }

  /** A pattern holding two adjacent characters that never stand next to
      each other in `s` does not occur in `s`. */
  lemma AbsentPairExcludes(s: string, p: string, a: nat)
    requires a + 1 < |p| && LacksPair(s, p[a], p[a + 1])
    ensures !Contains(s, p)
  {
    if Contains(s, p) {
      var i := Find(s, p).value;
      PairInOccurrence(s, p, i, a);
    }
  }

  lemma PairInOccurrence(s: string, p: string, i: nat, a: nat)
    requires OccursAt(s, p, i) && a + 1 < |p|
    ensures s[i + a] == p[a] && s[i + a + 1] == p[a + 1]
  {
    assert s[i..i + |p|][a] == s[i + a];
    assert s[i..i + |p|][a + 1] == s[i + a + 1];
  }

  /** `s.startswith(p)`. */
  predicate StartsWith(s: string, p: string) {
    |p| <= |s| && s[..|p|] == p
  }

  /** `s.endswith(p)`. */
  predicate EndsWith(s: string, p: string) {
    |p| <= |s| && s[|s| - |p|..] == p
  }

  // ---------------------------------------------------------------------
  // Splitting, joining and removing
  // ---------------------------------------------------------------------

  /** `sep.join(parts)`. */
  function Join(parts: seq<string>, sep: string): string {
    if |parts| == 0 then []
    else if |parts| == 1 then parts[0]
    else parts[0] + sep + Join(parts[1..], sep)
  }

  /** `s.split(sep)` for a non-empty separator: occurrences are taken left
      to right without overlapping, and the pieces between them are kept,
      empty ones included. */
  function Split(s: string, sep: string): (r: seq<string>)
    requires |sep| > 0
    ensures |r| >= 1
    decreases |s|
  {
    match Find(s, sep)
    case None => [s]
    case Some(i) => [s[..i]] + Split(s[i + |sep|..], sep)
  }

  /** One step of `Split`: the piece before the first separator, then the
      split of what follows it. */
  lemma SplitStep(s: string, sep: string, i: nat)
    requires |sep| > 0 && Find(s, sep) == Some(i)
    ensures Split(s, sep) == [s[..i]] + Split(s[i + |sep|..], sep)
  {
  }

  /** A string is the text before an occurrence, the occurrence, and the
      text after it. */
  lemma AroundOccurrence(s: string, p: string, i: nat)
    requires OccursAt(s, p, i)
    ensures s == s[..i] + p + s[i + |p|..]
  {
    assert s == s[..i] + s[i..i + |p|] + s[i + |p|..];
  }

  /** Joining the pieces of a split with the same separator gives back the
      original string. */
  lemma {:induction false} JoinSplit(s: string, sep: string)
    requires |sep| > 0
    ensures Join(Split(s, sep), sep) == s
    decreases |s|
  {
    if Find(s, sep).Some? {
      var i := Find(s, sep).value;
      var rest := s[i + |sep|..];
      SplitStep(s, sep, i);
      AroundOccurrence(s, sep, i);
      JoinSplit(rest, sep);
      JoinCons(s[..i], Split(rest, sep), sep);
    }
  }

  lemma JoinCons(head: string, tail: seq<string>, sep: string)
    requires |tail| > 0
    ensures Join([head] + tail, sep) == head + sep + Join(tail, sep)
  {
    assert ([head] + tail)[1..] == tail;
  }

  /** A piece of a split never contains the separator. */
  lemma {:induction false} SplitPiecesAreSeparatorFree(s: string, sep: string)
    requires |sep| > 0
    ensures forall k :: 0 <= k < |Split(s, sep)| ==> Find(Split(s, sep)[k], sep).None?
    decreases |s|
  {
    match Find(s, sep)
    case None =>
    case Some(i) =>
      var rest := s[i + |sep|..];
      SplitPiecesAreSeparatorFree(rest, sep);
      var head := s[..i];
      forall j | OccursAt(head, sep, j) ensures false {
        assert head[j..j + |sep|] == s[j..j + |sep|];
        assert OccursAt(s, sep, j);
      }
      assert Find(head, sep).None?;
  }

  /** Joining two non-empty runs of pieces puts one separator between them. */
  lemma {:induction false} JoinAppend(a: seq<string>, b: seq<string>, sep: string)
    requires |a| > 0 && |b| > 0
    ensures Join(a + b, sep) == Join(a, sep) + sep + Join(b, sep)
    decreases |a|
  {
    if |a| == 1 {
      assert (a + b)[1..] == b;
    } else {
      assert (a + b)[1..] == a[1..] + b;
      JoinAppend(a[1..], b, sep);
    }
  }

  /** `s.replace(p, '')`: every occurrence found left to right, without
      overlap, is cut out; text that a removal brings together is not
      searched again. */
  function RemoveAll(s: string, p: string): (r: string)
    requires |p| > 0
    ensures |r| <= |s|
    ensures Find(s, p).None? <==> r == s
    ensures Find(s, p).Some? ==> |r| + |p| <= |s|
    decreases |s|
  {
    match Find(s, p)
    case None => s
    case Some(i) => s[..i] + RemoveAll(s[i + |p|..], p)
  }

  /** Removing every occurrence is joining the pieces of the split with
      nothing in between: `s.replace(p, '') == ''.join(s.split(p))`. */
  lemma {:induction false} RemoveAllIsJoinOfSplit(s: string, p: string)
    requires |p| > 0
    ensures RemoveAll(s, p) == Join(Split(s, p), [])
    decreases |s|
  {
    match Find(s, p)
    case None =>
    case Some(i) =>
      var rest := s[i + |p|..];
      SplitStep(s, p, i);
      RemoveAllIsJoinOfSplit(rest, p);
      JoinCons(s[..i], Split(rest, p), []);
  }

  // ---------------------------------------------------------------------
  // Encoded size
  // ---------------------------------------------------------------------

  /** Number of bytes UTF-8 spends on one Unicode scalar value. */
  function Utf8Width(c: char): nat {
    var n := c as int;
    if n < 0x80 then 1 else if n < 0x800 then 2 else if n < 0x1_0000 then 3 else 4
  }

  /** `len(s.encode('utf-8'))`. */
  function Utf8Length(s: string): (n: nat)
    ensures |s| <= n <= 4 * |s|
  {
    if |s| == 0 then 0 else Utf8Width(s[0]) + Utf8Length(s[1..])
  }

  /** The encoded size of a concatenation is the sum of the encoded sizes. */
  lemma {:induction false} Utf8LengthAppend(a: string, b: string)
    ensures Utf8Length(a + b) == Utf8Length(a) + Utf8Length(b)
    decreases |a|
  {
    if |a| > 0 {
      assert (a + b)[0] == a[0];
      assert (a + b)[1..] == a[1..] + b;
      Utf8LengthAppend(a[1..], b);
      assert Utf8Length(a + b) == Utf8Width(a[0]) + Utf8Length(a[1..] + b);
    } else {
      assert a + b == b;
    }
  }

  /** An ASCII-only string encodes to one byte per character. */
  lemma {:induction false} Utf8LengthOfAscii(s: string)
    requires forall i :: 0 <= i < |s| ==> s[i] as int < 0x80
    ensures Utf8Length(s) == |s|
    decreases |s|
  {
    if |s| > 0 {
      Utf8LengthOfAscii(s[1..]);
    }
  }
}
