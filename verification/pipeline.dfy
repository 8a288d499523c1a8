/** `ArticleProcessor._process_chunk` and the middle of `process_file`: each
    chunk becomes a prompt carrying its position, the prompt is answered
    from the cache when a non-empty response is stored for it, otherwise by
    `generate_html`, whose result is then stored; the chunks' results are
    joined with newlines in chunk order.

    The prompt template's constant text is the parameter `template`; what
    the model answers and the jitters it waits with are given per chunk. */
module ChunkProcessing {
  import opened Wrappers
  import opened Text
  import opened Decimal
  import opened ResponseCache
  import opened HtmlValidator
  import opened Generation

  const PartLabel: string := "\n\nCzęść "
  const PartSeparator: string := ":\n\n"
  const ResultSeparator: string := "\n"

  /** The prompt for the chunk whose index, as passed to `_process_chunk`,
      is `chunkIndex`; the prompt names part `chunkIndex + 1`. */
  function ChunkPrompt(template: string, chunk: string, chunkIndex: nat, total: nat): string {
    template + PartLabel + NatToString(chunkIndex + 1) + "/" + NatToString(total) + PartSeparator + chunk
  }

  /** Two prompts built from the same template are equal only for the same
      position, total and chunk: the position numeral ends at the `/`. */
  lemma ChunkPromptInjective(template: string, c1: string, i1: nat, t1: nat, c2: string, i2: nat, t2: nat)
    ensures ChunkPrompt(template, c1, i1, t1) == ChunkPrompt(template, c2, i2, t2) ==> i1 == i2 && t1 == t2 && c1 == c2
  {
    if ChunkPrompt(template, c1, i1, t1) == ChunkPrompt(template, c2, i2, t2) {
      var head := template + PartLabel;
      PromptShape(template, c1, i1, t1);
      PromptShape(template, c2, i2, t2);
      CancelPrefix(head, NatToString(i1 + 1) + ['/'] + PromptTail(t1, c1), NatToString(i2 + 1) + ['/'] + PromptTail(t2, c2));
      NumeralPrefixUnique(i1 + 1, i2 + 1, '/', PromptTail(t1, c1), PromptTail(t2, c2));
      TailShape(t1, c1);
      TailShape(t2, c2);
      NumeralPrefixUnique(t1, t2, ':', "\n\n" + c1, "\n\n" + c2);
      CancelPrefix("\n\n", c1, c2);
    }
  }

  /** What follows the `/` of a prompt: the total, then the chunk. */
  function PromptTail(total: nat, chunk: string): string {
    NatToString(total) + PartSeparator + chunk
  }

  lemma PromptShape(template: string, chunk: string, chunkIndex: nat, total: nat)
    ensures ChunkPrompt(template, chunk, chunkIndex, total)
      == (template + PartLabel) + (NatToString(chunkIndex + 1) + ['/'] + PromptTail(total, chunk))
  {
  }

  lemma TailShape(total: nat, chunk: string)
    ensures PromptTail(total, chunk) == NatToString(total) + [':'] + ("\n\n" + chunk)
  {
  }

  lemma CancelPrefix(head: string, x: string, y: string)
    requires head + x == head + y
    ensures x == y
  {
    assert x == (head + x)[|head|..];
    assert y == (head + y)[|head|..];
  }

  /** `enumerate(chunks, 1)` passes 1 for the first chunk and the prompt
      adds one again, so the first of `n` parts is announced as part 2. */
  lemma FirstChunkIsAnnouncedAsPartTwo(template: string, chunk: string, total: nat)
    ensures ChunkPrompt(template, chunk, 1, total)
      == template + "\n\nCzęść 2/" + NatToString(total) + ":\n\n" + chunk
  {
    assert NatToString(2) == "2";
  }

  /** What the model answers for one chunk, attempt by attempt, and the
      jitters drawn after each attempt. */
  datatype ChunkOracle = ChunkOracle(outcomes: seq<ModelOutcome>, jitters: seq<real>)

  predicate ValidOracle(o: ChunkOracle) {
    |o.outcomes| >= MaxRetries && |o.jitters| >= MaxRetries
    && forall k :: 0 <= k < |o.jitters| ==> 0.0 <= o.jitters[k] <= 2.0
  }

  /** How one chunk's call of `_process_chunk` came out, starting from the
      validator `vIn` and leaving `vOut`: from the response stored under
      its prompt when that is non-empty, otherwise from `generate_html`
      over what the model answered for it. */
  predicate ChunkAnswered(cache: Cache, prompt: string, o: ChunkOracle, tokenize: string -> seq<TagEvent>,
                          vIn: Validator, r: Result<string, string>, vOut: Validator)
    requires ValidOracle(o)
  {
    var stored := Get(cache, prompt);
    if stored.Some? && |stored.value| > 0 then r == Ok(stored.value) && vOut == vIn
    else exists calls :: 1 <= calls <= MaxRetries && GeneratedIn(Attempts(o.outcomes, vIn, tokenize), calls, r, vIn, vOut)
  }

  /** `_process_chunk`: a stored response is used only when it is
      non-empty; otherwise `generate_html` answers and its HTML is stored
      under the exact prompt. An error from `generate_html` propagates and
      stores nothing. */
  method ProcessChunk(cache: Cache, v: Validator, template: string, chunk: string, chunkIndex: nat, total: nat,
                      o: ChunkOracle, tokenize: string -> seq<TagEvent>)
    returns (r: Result<string, string>, cache': Cache, v': Validator, calls: nat)
    requires ValidOracle(o)
    ensures var prompt := ChunkPrompt(template, chunk, chunkIndex, total);
      var stored := Get(cache, prompt);
      if stored.Some? && |stored.value| > 0 then
        r == Ok(stored.value) && cache' == cache && v' == v && calls == 0
      else
        && GeneratedIn(Attempts(o.outcomes, v, tokenize), calls, r, v, v')
        && (r.Ok? ==> cache' == Set(cache, prompt, r.value))
        && (r.Err? ==> cache' == cache)
    ensures r.Ok? ==> Get(cache', ChunkPrompt(template, chunk, chunkIndex, total)) == Some(r.value)
    ensures forall p :: p != ChunkPrompt(template, chunk, chunkIndex, total) ==> Get(cache', p) == Get(cache, p)
    ensures ChunkAnswered(cache, ChunkPrompt(template, chunk, chunkIndex, total), o, tokenize, v, r, v')
  {
    var prompt := ChunkPrompt(template, chunk, chunkIndex, total);
    var stored := Get(cache, prompt);
    if stored.Some? && |stored.value| > 0 {
      return Ok(stored.value), cache, v, 0;
    }
    var waits;
    r, v', calls, waits := GenerateHtml(o.outcomes, o.jitters, v, tokenize);
    if r.Ok? {
      cache' := Set(cache, prompt, r.value);
    } else {
      cache' := cache;
    }
  }

  /** The prompts of a run of chunks, in order: chunk `k` (counting from 0)
      is passed index `k + 1`. */
  function ChunkPrompts(template: string, chunks: seq<string>): (r: seq<string>)
    ensures |r| == |chunks|
    ensures forall k :: 0 <= k < |chunks| ==> r[k] == ChunkPrompt(template, chunks[k], k + 1, |chunks|)
  {
    seq(|chunks|, k requires 0 <= k < |chunks| => ChunkPrompt(template, chunks[k], k + 1, |chunks|))
  }

  /** Different positions of a run never share a prompt, even when their
      chunks have the same text. */
  lemma ChunkPromptsDistinct(template: string, chunks: seq<string>)
    ensures forall k, j :: 0 <= k < j < |chunks| ==> ChunkPrompts(template, chunks)[k] != ChunkPrompts(template, chunks)[j]
  {
    var prompts := ChunkPrompts(template, chunks);
    forall k, j | 0 <= k < j < |chunks| ensures prompts[k] != prompts[j] {
      ChunkPromptInjective(template, chunks[k], k + 1, |chunks|, chunks[j], j + 1, |chunks|);
    }
  }

  /** Chunk `k` of a run was answered starting from `vs[k]` and leaving
      `vs[k + 1]`, for every chunk that produced a result. */
  ghost predicate RunAnswered(cache: Cache, prompts: seq<string>, oracle: nat -> ChunkOracle, tokenize: string -> seq<TagEvent>,
                              vs: seq<Validator>, results: seq<string>)
    requires |results| <= |prompts| && |vs| == |results| + 1
    requires forall k :: ValidOracle(oracle(k))
  {
    forall k :: 0 <= k < |results| ==>
      ChunkAnswered(cache, prompts[k], oracle(k), tokenize, vs[k], Ok(results[k]), vs[k + 1])
  }

  lemma RunAnsweredExtend(cache: Cache, prompts: seq<string>, oracle: nat -> ChunkOracle, tokenize: string -> seq<TagEvent>,
                          vs: seq<Validator>, results: seq<string>, html: string, v2: Validator)
    requires |results| < |prompts| && |vs| == |results| + 1
    requires forall k :: ValidOracle(oracle(k))
    requires RunAnswered(cache, prompts, oracle, tokenize, vs, results)
    requires ChunkAnswered(cache, prompts[|results|], oracle(|results|), tokenize, vs[|results|], Ok(html), v2)
    ensures RunAnswered(cache, prompts, oracle, tokenize, vs + [v2], results + [html])
  {
    var vs', results' := vs + [v2], results + [html];
    forall k | 0 <= k < |results'|
      ensures ChunkAnswered(cache, prompts[k], oracle(k), tokenize, vs'[k], Ok(results'[k]), vs'[k + 1])
    {
      if k < |results| {
        assert vs'[k] == vs[k] && vs'[k + 1] == vs[k + 1] && results'[k] == results[k];
      }
    }
  }

  /** What the cache holds after the first `|results|` chunks of a run:
      their results under their prompts and everything else as before. */
  ghost predicate CacheAfter(cache: Cache, cache': Cache, prompts: seq<string>, results: seq<string>)
    requires |results| <= |prompts|
  {
    && (forall k :: 0 <= k < |results| ==> Get(cache', prompts[k]) == Some(results[k]))
    && (forall k :: |results| <= k < |prompts| ==> Get(cache', prompts[k]) == Get(cache, prompts[k]))
    && (forall p :: p !in prompts ==> Get(cache', p) == Get(cache, p))
  }

  lemma CacheAfterExtend(cache: Cache, c1: Cache, c2: Cache, prompts: seq<string>, results: seq<string>, html: string)
    requires |results| < |prompts|
    requires forall k, j :: 0 <= k < j < |prompts| ==> prompts[k] != prompts[j]
    requires CacheAfter(cache, c1, prompts, results)
    requires Get(c2, prompts[|results|]) == Some(html)
    requires forall p :: p != prompts[|results|] ==> Get(c2, p) == Get(c1, p)
    ensures CacheAfter(cache, c2, prompts, results + [html])
  {
    var results' := results + [html];
    forall k | 0 <= k < |results'| ensures Get(c2, prompts[k]) == Some(results'[k]) {
      if k < |results| {
        assert prompts[k] != prompts[|results|];
      }
    }
    forall k | |results'| <= k < |prompts| ensures Get(c2, prompts[k]) == Get(cache, prompts[k]) {
      assert prompts[|results|] != prompts[k];
    }
  }

  /** Lines 482-492 of `process_file` after the split: the chunks are
      processed one after another, chunk `k` (counting from 0) with index
      `k + 1`, and the results are joined with newlines. Chunk `k` starts
      from the validator `vs[k]` and leaves `vs[k + 1]`; since no two chunks
      share a prompt, each is answered from what the cache held for its
      prompt before the run. The first error ends the run and is the
      error of chunk `|results|`. Every result is stored under its chunk's
      prompt; entries for other prompts, and for the chunks not reached,
      are never touched. */
  method ProcessChunks(cache: Cache, v: Validator, template: string, chunks: seq<string>,
                       oracle: nat -> ChunkOracle, tokenize: string -> seq<TagEvent>)
    returns (r: Result<string, string>, results: seq<string>, cache': Cache, vs: seq<Validator>)
    requires forall k :: ValidOracle(oracle(k))
    ensures |results| <= |chunks| && |vs| == |results| + 1 && vs[0] == v
    ensures r.Ok? ==> |results| == |chunks| && r.value == Join(results, ResultSeparator)
    ensures r.Err? ==> |results| < |chunks|
    ensures forall k :: 0 <= k < |results| ==>
      ChunkAnswered(cache, ChunkPrompts(template, chunks)[k], oracle(k), tokenize, vs[k], Ok(results[k]), vs[k + 1])
    ensures r.Err? ==>
      ChunkAnswered(cache, ChunkPrompts(template, chunks)[|results|], oracle(|results|), tokenize,
                    vs[|results|], Err(r.error), vs[|results|])
    ensures forall k :: 0 <= k < |results| ==> Get(cache', ChunkPrompts(template, chunks)[k]) == Some(results[k])
    ensures forall k :: |results| <= k < |chunks| ==>
      Get(cache', ChunkPrompts(template, chunks)[k]) == Get(cache, ChunkPrompts(template, chunks)[k])
    ensures forall p :: p !in ChunkPrompts(template, chunks) ==> Get(cache', p) == Get(cache, p)
  {
    var prompts := ChunkPrompts(template, chunks);
    ChunkPromptsDistinct(template, chunks);
    results := [];
    cache' := cache;
    vs := [v];
    var i := 0;
    while i < |chunks|
      invariant 0 <= i <= |chunks|
      invariant |results| == i && |vs| == i + 1 && vs[0] == v
      invariant RunAnswered(cache, prompts, oracle, tokenize, vs, results)
      invariant CacheAfter(cache, cache', prompts, results)
    {
      var html, cache2, v2, calls := ProcessChunk(cache', vs[i], template, chunks[i], i + 1, |chunks|, oracle(i), tokenize);
      assert Get(cache', prompts[i]) == Get(cache, prompts[i]);
      assert ChunkAnswered(cache, prompts[i], oracle(i), tokenize, vs[i], html, v2);
      if html.Err? {
        return Err(html.error), results, cache', vs;
      }
      RunAnsweredExtend(cache, prompts, oracle, tokenize, vs, results, html.value, v2);
      CacheAfterExtend(cache, cache', cache2, prompts, results, html.value);
      results := results + [html.value];
      cache', vs := cache2, vs + [v2];
      i := i + 1;
    }
    r := Ok(Join(results, ResultSeparator));
  }
}
