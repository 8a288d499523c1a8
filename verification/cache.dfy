/** `ResponseCache`: model responses kept per prompt. The source stores each
    entry in a pickle file named by the MD5 digest of the prompt; with the
    digest taken as injective that is a map from prompt to response. */
module ResponseCache {
  import opened Wrappers

  datatype Cache = Cache(entries: map<string, string>)

  /** `clear()`: every entry is removed. The constructor clears too, so a
      fresh cache is this one. */
  function Clear(c: Cache): (r: Cache)
    ensures forall prompt :: Get(r, prompt).None?
  {
    Cache(map[])
  }

  /** `get(prompt)`: the stored response, or `None` when there is none. */
  function Get(c: Cache, prompt: string): (r: Option<string>)
    ensures r.Some? <==> prompt in c.entries
    ensures r.Some? ==> r.value == c.entries[prompt]
  {
    if prompt in c.entries then Some(c.entries[prompt]) else None
  }

  /** `set(prompt, response)`: the entry for `prompt` is overwritten. */
  function Set(c: Cache, prompt: string, response: string): (r: Cache)
    ensures Get(r, prompt) == Some(response)
    ensures forall other :: other != prompt ==> Get(r, other) == Get(c, other)
  {
    Cache(c.entries[prompt := response])
  }

  /** Writing a prompt's entry twice keeps only the second response. */
  lemma SetOverwrites(c: Cache, prompt: string, first: string, second: string)
    ensures Set(Set(c, prompt, first), prompt, second) == Set(c, prompt, second)
  {
  }

  /** Entries for different prompts do not interfere: the order of two
      writes to different prompts does not matter. */
  lemma SetsCommute(c: Cache, p: string, q: string, a: string, b: string)
    requires p != q
    ensures Set(Set(c, p, a), q, b) == Set(Set(c, q, b), p, a)
  {
  }

  /** After a clear, a write is the only entry. */
  lemma ClearThenSet(c: Cache, prompt: string, response: string)
    ensures forall other :: (Get(Set(Clear(c), prompt, response), other)
                             == if other == prompt then Some(response) else None)
  {
  }
}
