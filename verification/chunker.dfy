/** `ArticleProcessor._split_large_content`: text over the per-chunk budget
    is cut at blank lines and the paragraphs are packed greedily.

    The source estimates tokens as `len * 0.25` and compares with 6000.
    Every such estimate is a multiple of 0.25 and is exact in binary
    floating point, so the comparison is the integer test
    `length <= 24000` used here. */
module Chunker {
  import opened Text

  /** 6000 tokens at four characters per token. */
  const MaxChunkChars: nat := 24000

  const ParagraphSeparator: string := "\n\n"

  /** Total length of a group of paragraphs, separators not counted. */
  function SumLen(group: seq<string>): nat {
    if |group| == 0 then 0 else SumLen(group[..|group| - 1]) + |group[|group| - 1]|
  }

  /** A chunk stays within budget unless it is a single paragraph that
      alone exceeds it. */
  predicate WithinBudget(group: seq<string>) {
    SumLen(group) <= MaxChunkChars || |group| == 1
  }

  /** `next` opens with a paragraph that would push `group` over budget. */
  predicate OverflowsInto(group: seq<string>, next: seq<string>) {
    |next| > 0 && SumLen(group) + |next[0]| > MaxChunkChars
  }

  /** Each group after the first opens with a paragraph that would have
      pushed the group before it over budget: no group was closed early. */
  predicate ClosedOnlyWhenFull(groups: seq<seq<string>>) {
    forall k :: 0 <= k < |groups| - 1 ==> OverflowsInto(groups[k], groups[k + 1])
  }

  /** The groups laid end to end. */
  function Flatten(groups: seq<seq<string>>): seq<string> {
    if |groups| == 0 then [] else Flatten(groups[..|groups| - 1]) + groups[|groups| - 1]
  }

  /** The greedy packing from the loop of the source: `current` is the open
      chunk holding `currentLen` characters; a paragraph that would push it
      over budget closes it, unless it is still empty. */
  function Pack(paragraphs: seq<string>, current: seq<string>, currentLen: nat): seq<seq<string>>
    decreases |paragraphs|
  {
    if |paragraphs| == 0 then
      (if |current| > 0 then [current] else [])
    else
      var p := paragraphs[0];
      if currentLen + |p| > MaxChunkChars && |current| > 0 then
        [current] + Pack(paragraphs[1..], [p], |p|)
      else
        Pack(paragraphs[1..], current + [p], currentLen + |p|)
  }

  /** Packing loses, adds and reorders nothing: the groups laid end to end
      are the open chunk followed by the paragraphs. */
  lemma {:induction false} PackFlattens(paragraphs: seq<string>, current: seq<string>, currentLen: nat)
    ensures Flatten(Pack(paragraphs, current, currentLen)) == current + paragraphs
    decreases |paragraphs|
  {
    if |paragraphs| == 0 {
      if |current| > 0 {
        assert [current][..0] == [];
      }
    } else {
      var p := paragraphs[0];
      if currentLen + |p| > MaxChunkChars && |current| > 0 {
        PackFlattens(paragraphs[1..], [p], |p|);
        FlattenCons(current, Pack(paragraphs[1..], [p], |p|));
        assert paragraphs == [p] + paragraphs[1..];
      } else {
        PackFlattens(paragraphs[1..], current + [p], currentLen + |p|);
        assert current + paragraphs == (current + [p]) + paragraphs[1..];
      }
    }
  }

  /** Every group is non-empty and within budget. */
  lemma {:induction false} PackGroupsValid(paragraphs: seq<string>, current: seq<string>, currentLen: nat)
    requires currentLen == SumLen(current)
    requires WithinBudget(current) || |current| == 0
    ensures forall g :: g in Pack(paragraphs, current, currentLen) ==> |g| > 0 && WithinBudget(g)
    decreases |paragraphs|
  {
    if |paragraphs| > 0 {
      var p := paragraphs[0];
      SumLenSnoc(current, p);
      if currentLen + |p| > MaxChunkChars && |current| > 0 {
        SumLenSnoc([], p);
        assert [] + [p] == [p];
        PackGroupsValid(paragraphs[1..], [p], |p|);
      } else {
        PackGroupsValid(paragraphs[1..], current + [p], currentLen + |p|);
      }
    }
  }

  /** There is a group as soon as there is anything to pack, and the first
      group begins with the open chunk. */
  lemma {:induction false} PackKeepsCurrent(paragraphs: seq<string>, current: seq<string>, currentLen: nat)
    ensures var groups := Pack(paragraphs, current, currentLen);
      && (|current| > 0 || |paragraphs| > 0 ==> |groups| > 0)
      && (|current| > 0 ==> |groups| > 0 && |current| <= |groups[0]| && groups[0][..|current|] == current)
    decreases |paragraphs|
  {
    if |paragraphs| > 0 {
      var p := paragraphs[0];
      if currentLen + |p| > MaxChunkChars && |current| > 0 {
        PackKeepsCurrent(paragraphs[1..], [p], |p|);
      } else {
        PackKeepsCurrent(paragraphs[1..], current + [p], currentLen + |p|);
        var groups := Pack(paragraphs[1..], current + [p], currentLen + |p|);
        assert groups[0][..|current|] == (current + [p])[..|current|];
      }
    }
  }

  /** The packing is greedy: each group was closed only because the first
      paragraph of the next one would have pushed it over budget. */
  lemma {:induction false} PackGreedy(paragraphs: seq<string>, current: seq<string>, currentLen: nat)
    requires currentLen == SumLen(current)
    ensures ClosedOnlyWhenFull(Pack(paragraphs, current, currentLen))
    decreases |paragraphs|
  {
    if |paragraphs| > 0 {
      var p := paragraphs[0];
      if currentLen + |p| > MaxChunkChars && |current| > 0 {
        var rest := Pack(paragraphs[1..], [p], |p|);
        PackKeepsCurrent(paragraphs[1..], [p], |p|);
        assert rest[0][0] == p by { assert rest[0][..1] == [p]; }
        SumLenSnoc([], p);
        assert [] + [p] == [p];
        PackGreedy(paragraphs[1..], [p], |p|);
        ClosedGroupPrepended(current, rest);
        assert Pack(paragraphs, current, currentLen) == [current] + rest;
        assert ClosedOnlyWhenFull(Pack(paragraphs, current, currentLen));
      } else {
        SumLenSnoc(current, p);
        var groups := Pack(paragraphs[1..], current + [p], currentLen + |p|);
        PackGreedy(paragraphs[1..], current + [p], currentLen + |p|);
        assert Pack(paragraphs, current, currentLen) == groups;
      }
    }
  }

  /** A full group put in front of greedily packed ones keeps them greedy
      when their first paragraph would overflow it. */
  lemma ClosedGroupPrepended(full: seq<string>, rest: seq<seq<string>>)
    requires ClosedOnlyWhenFull(rest)
    requires |rest| > 0 && |rest[0]| > 0 && SumLen(full) + |rest[0][0]| > MaxChunkChars
    ensures ClosedOnlyWhenFull([full] + rest)
  {
    var groups := [full] + rest;
    forall k | 0 <= k < |groups| - 1
      ensures OverflowsInto(groups[k], groups[k + 1])
    {
      if k > 0 {
        assert groups[k] == rest[k - 1] && groups[k + 1] == rest[k];
        assert OverflowsInto(rest[k - 1], rest[k]);
      } else {
        assert groups[k] == full && groups[k + 1] == rest[0];
      }
    }
  }

  lemma SumLenSnoc(group: seq<string>, p: string)
    ensures SumLen(group + [p]) == SumLen(group) + |p|
  {
    assert (group + [p])[..|group|] == group;
  }

  lemma {:induction false} FlattenCons(g: seq<string>, groups: seq<seq<string>>)
    ensures Flatten([g] + groups) == g + Flatten(groups)
    decreases |groups|
  {
    if |groups| == 0 {
      assert [g] + groups == [g];
      assert Flatten([g]) == Flatten([]) + g;
    } else {
      var n := |groups|;
      assert ([g] + groups)[..n] == [g] + groups[..n - 1];
      FlattenCons(g, groups[..n - 1]);
    }
  }

  /** The paragraphs of `content`, grouped as the chunks are. */
  function ParagraphGroups(content: string): (groups: seq<seq<string>>)
    ensures Flatten(groups) == Split(content, ParagraphSeparator)
    ensures |groups| > 0
    ensures forall g :: g in groups ==> |g| > 0 && WithinBudget(g)
    ensures ClosedOnlyWhenFull(groups)
  {
    var paragraphs := Split(content, ParagraphSeparator);
    PackFlattens(paragraphs, [], 0);
    PackGroupsValid(paragraphs, [], 0);
    PackKeepsCurrent(paragraphs, [], 0);
    PackGreedy(paragraphs, [], 0);
    assert [] + paragraphs == paragraphs;
    Pack(paragraphs, [], 0)
  }

  /** `_split_large_content(content)`. */
  function SplitLargeContent(content: string): (chunks: seq<string>)
    ensures |chunks| > 0
    ensures |content| <= MaxChunkChars ==> chunks == [content]
    ensures |content| > MaxChunkChars ==>
      var groups := ParagraphGroups(content);
      |chunks| == |groups| && forall k :: 0 <= k < |chunks| ==> chunks[k] == Join(groups[k], ParagraphSeparator)
  {
    if |content| <= MaxChunkChars then [content]
    else
      var groups := ParagraphGroups(content);
      seq(|groups|, k requires 0 <= k < |groups| => Join(groups[k], ParagraphSeparator))
  }

  /** Rejoining the chunks with the paragraph separator gives back the input
      exactly, whether or not it was split. */
  lemma SplitLargeContentRoundTrip(content: string)
    ensures Join(SplitLargeContent(content), ParagraphSeparator) == content
  {
    if |content| > MaxChunkChars {
      var groups := ParagraphGroups(content);
      var chunks := SplitLargeContent(content);
      JoinOfGroups(groups, chunks);
      JoinSplit(content, ParagraphSeparator);
    }
  }

  /** Joining the joins of non-empty groups is joining their concatenation. */
  lemma {:induction false} JoinOfGroups(groups: seq<seq<string>>, chunks: seq<string>)
    requires |groups| > 0 && |chunks| == |groups|
    requires forall g :: g in groups ==> |g| > 0
    requires forall k :: 0 <= k < |chunks| ==> chunks[k] == Join(groups[k], ParagraphSeparator)
    ensures Join(chunks, ParagraphSeparator) == Join(Flatten(groups), ParagraphSeparator)
    decreases |groups|
  {
    var n := |groups|;
    if n == 1 {
      assert groups[..0] == [];
      assert Flatten(groups) == groups[0];
    } else {
      var init, initChunks := groups[..n - 1], chunks[..n - 1];
      assert forall g :: g in init ==> g in groups;
      JoinOfGroups(init, initChunks);
      assert chunks == initChunks + [chunks[n - 1]];
      JoinAppend(initChunks, [chunks[n - 1]], ParagraphSeparator);
      NonEmptyFlatten(init);
      assert groups[n - 1] in groups;
      JoinAppend(Flatten(init), groups[n - 1], ParagraphSeparator);
    }
  }

  lemma {:induction false} NonEmptyFlatten(groups: seq<seq<string>>)
    requires |groups| > 0 && forall g :: g in groups ==> |g| > 0
    ensures |Flatten(groups)| > 0
  {
    assert groups[|groups| - 1] in groups;
  }
}
