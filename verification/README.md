# oxidoHR article processor — a Dafny model

oxidoHR turns a plain-text article into an HTML `<article>` fragment with
the help of a language model. It takes an input file through six steps:

1. It checks the path (`Validator.validate_input_file`).
2. It reads the file under several encodings (`FileHandler.read_file`).
3. It vets the text (`_validate_content_size`).
4. It cuts long text into chunks at blank lines (`_split_large_content`).
5. It asks the model for each chunk's HTML, with a response cache and a retry loop (`_process_chunk`, `generate_html`, `_validate_html`). The loop classifies API errors (`APIErrorHandler.classify_error`).
6. It joins the pieces and saves them under the first free `artykul*.html` name (`FileHandler.save_file`).

This project models that pipeline as pure functions and short loops over
values. I/O is replaced as follows:

- **File system.** A map from path to entry. A file entry records its byte size and, per encoding, the text a text-mode `read()` under that encoding returns: the decoded characters with `"\r\n"` and `"\r"` already turned into `"\n"`. An encoding that would raise is absent.
- **Model.** A sequence of outcomes, one per attempt. Each is either a response text or a failure message.
- **Jitter and sleeping.** `random.uniform(0, 2)` is a given jitter per attempt. `time.sleep` becomes the returned list of waits.
- **HTML tokenizer.** A function from fragment text to start and end tag events.
- **Response cache.** A map from prompt to response. The source stores each response in a pickle file named by the MD5 digest of its prompt, and the model takes that digest as injective.

## Behaviour of the code that the model keeps

Each of these is proved about the model.

- **Validation never rejects.** `_validate_html` tests the dictionary returned by `validate()` for truthiness. That dictionary always has two entries, so no fragment is rejected for missing or unbalanced tags (`Generation.ValidateHtmlNeverRejects`).
- **The `img` attribute check is unreachable.** It comes after the early return for self-closing tags, and `img` is one of them (`HtmlValidator.HandleStartTag`).
- **Sanitising is not idempotent, and it misses upper case.** The clean-up tests each unsafe pattern against the lower-cased text but removes only exact-case occurrences:
  - an upper-case `<SCRIPT>` survives (`Generation.UpperCaseScriptSurvives`);
  - one pass over `ononclick=click=` leaves a new `onclick=` (`Generation.SanitizeIsNotIdempotent`).
- **Part numbers are off by one.** The chunk loop numbers chunks from 1 and the prompt adds one again, so the first of `n` parts is announced as "Część 2/n" (`ChunkProcessing.FirstChunkIsAnnouncedAsPartTwo`).
- **A zero hint does not skip the wait.** A rate-limit hint of `retry after 0` is falsy, so exponential backoff applies instead (`Generation.ZeroHintFallsBackToBackoff`).
- **One error pattern is dead.** `"maximum context length"` always also contains `"context length"`, which stands earlier in the table, so it never decides a classification (`ApiErrors.LongContextPatternShadowed`).
- **Validator state is shared.** The processor owns one tag validator and never resets it, so tags accumulate across every fragment it validates (`HtmlValidator.FeedAccumulates`).
- **Two naming schemes disagree.** `get_next_filename` never produces the `_1` suffix, while `save_file` does (`FileHandler.NextFilenameSkipsOne`).
- **Two extension lists disagree.** The text-file search offers `.text` files, but the input check refuses them (`InputValidator.SuffixCases`).
- **The size limit applies to the text, not the file.** `read_file` never looks at `MAX_FILE_SIZE_MB`. Only `_validate_content_size` enforces it, on the UTF-8 length of the text already read and stripped (`ContentCheck.ValidateContentSize`).

## Model

| member | source | states |
|---|---|---|
| ApiErrors.Classify | src/article_processor.py:64-99 | The kind is that of the first table entry, in table order, whose pattern occurs in the lower-cased message; it is UNKNOWN exactly when none occurs. The error is retryable exactly for rate-limit, server and timeout errors. A retry delay is present exactly for rate limits: the `retry after N` hint when there is one, else 60. The message is kept. |
| ApiErrors.RetryAfterHint | src/article_processor.py:80-83 | Absent exactly when no `retry after ` is followed by a digit. Otherwise it is the value of the greedy digit group after the first such occurrence. |
| ApiErrors.HintRoundTrip | src/article_processor.py:81-83 | A hint printed as `retry after N`, followed by anything that does not start with a digit, is read back as N. |
| ApiErrors.ClassifyIgnoresCase | src/article_processor.py:66 | A message and its lower-cased form get the same kind and the same retry delay. |
| ApiErrors.LongContextPatternShadowed | src/article_processor.py:49-61 | The "maximum context length" entry is never the first match, because "context length" precedes it in the table. |
| ResponseCache.Clear | src/article_processor.py:117-124 | After clearing, no prompt has an entry. |
| ResponseCache.Get | src/article_processor.py:134-149 | A response is returned exactly when one is stored for the prompt, and it is the stored one. |
| ResponseCache.Set | src/article_processor.py:151-167 | Afterwards the prompt maps to the new response; every other prompt's entry is unchanged. |
| ResponseCache.SetOverwrites | src/article_processor.py:151-167 | Two writes to one prompt leave only the second response. |
| ResponseCache.SetsCommute | src/article_processor.py:151-167 | Writes to different prompts can be done in either order. |
| ResponseCache.ClearThenSet | src/article_processor.py:117-167 | After a clear and one write, the written prompt is the only entry. |
| ContentCheck.ValidateContentSize | src/article_processor.py:215-225 | Rejections come in this order, each with an if-and-only-if condition: (1) too short when the stripped text has fewer than 10 characters; (2) otherwise too large when the UTF-8 length exceeds the limit in MiB; (3) otherwise unsafe when `<script`, `javascript:` or `data:` occurs in any case. Accepted text passes all three tests. |
| ContentCheck.DefaultLimit | src/article_processor.py:219-221 | When `MAX_FILE_SIZE_MB` is unset the limit is 10 MiB (10 485 760 bytes). Long-enough text is too large exactly when its UTF-8 encoding exceeds that. |
| ContentCheck.MarkerRejectsWhateverCase | src/article_processor.py:224-225 | Appending a suspicious marker, in any mix of case, to long-enough text makes it rejected. |
| Chunker.SplitLargeContent | src/article_processor.py:244-267 | There is always at least one chunk. Text of at most 24000 characters is the single chunk. Longer text yields one chunk per paragraph group, each being its group's paragraphs joined by blank lines. |
| Chunker.SplitLargeContentRoundTrip | src/article_processor.py:248-267 | Joining the chunks with `"\n\n"` gives back the input exactly. |
| Chunker.ParagraphGroups | src/article_processor.py:248-267 | The groups laid end to end are the blank-line split of the text. No group is empty. Each group is within 24000 characters (separators not counted) or is a single paragraph. Every group was closed only because the next paragraph would have pushed it over the budget. |
| Chunker.PackFlattens | src/article_processor.py:253-267 | The greedy loop loses, duplicates and reorders no paragraph. |
| Chunker.PackGroupsValid | src/article_processor.py:253-267 | Every chunk built holds at least one paragraph and is within budget or a single paragraph. |
| Chunker.PackKeepsCurrent | src/article_processor.py:256-267 | Something to pack yields a chunk, and the first chunk begins with the paragraphs already collected. |
| Chunker.PackGreedy | src/article_processor.py:256-263 | A chunk is closed only when the next paragraph would push it over the budget. |
| Chunker.JoinOfGroups | src/article_processor.py:258-267 | Joining the per-chunk joins is joining all paragraphs at once. |
| HtmlValidator.HandleStartTag | src/html_validator.py:15-37 | A start tag never raises. It is always added to the found set. It is pushed exactly when it is not `img`, `br` or `hr`. |
| HtmlValidator.LastIndexOf | src/html_validator.py:52 | The position found holds the tag and nothing above it does; no position is found exactly when the tag is not on the stack. |
| HtmlValidator.HandleEndTag | src/html_validator.py:39-53 | The found set is unchanged. A self-closing tag or a tag that is not open leaves the stack as it was. Otherwise only the topmost occurrence of the tag is removed; the entries below and above it keep their order. The stack loses exactly one copy of the tag. |
| HtmlValidator.FeedNeverFails | src/html_validator.py:15-53 | No sequence of tag events makes the validator raise. |
| HtmlValidator.FeedFoundGrows | src/html_validator.py:23 | Feeding adds exactly the names of the start events to the found set; nothing is removed. |
| HtmlValidator.FeedAccumulates | src/html_validator.py:7-13 | Feeding two fragments one after the other equals feeding their concatenation: no state is reset in between. |
| HtmlValidator.Validate | src/html_validator.py:55-65 | Balanced exactly when the stack is empty. Complete exactly when article, h1 and p have all been seen. |
| HtmlValidator.WellNestedArticleIsBalanced | src/html_validator.py:15-65 | The events of a well-formed element tree, fed to a fresh validator, leave it balanced. It reports the required tags exactly when they occur as start tags. |
| Generation.ExtractArticle | src/article_processor.py:371-384 | The result depends on the markers: (1) an empty response, a missing `<article` and a missing `</article>` raise their own messages, in that order; (2) otherwise the fragment runs from the first open marker to the end of the last close marker, starting and ending with them; (3) it is empty exactly when the last close marker precedes the first open marker. |
| Generation.CloseBeforeOpen | src/article_processor.py:384 | A close marker that starts before the first open marker also ends before it, so the empty slice is the only degenerate case. |
| Generation.RemovePatternsFrom | src/article_processor.py:456-459 | Removing the patterns in their exact spelling, in table order, never lengthens the text, and leaves unchanged a text in which none of them occurs. |
| Generation.Sanitize | src/article_processor.py:456-459 | The clean-up equals plain exact-case removal of each pattern in turn: the lower-case test never changes the outcome. The result is never longer than the input. Text with no unsafe pattern in exactly its lower-case spelling is unchanged, whatever its lower-cased form contains. Text holding some pattern in exactly that spelling comes back strictly shorter. |
| Generation.RemovePatternsShrink | src/article_processor.py:456-459 | If some pattern from a given table position on occurs in exactly its spelling, the passes from that position on remove at least one character. |
| Text.LowerKeepsUncasedOccurrence | src/article_processor.py:457 | A pattern without upper-case letters that occurs in a text also occurs in the text's lower-cased form, so the test `pattern in html_content.lower()` passes whenever the exact pattern is present. |
| Generation.UpperCaseScriptSurvives | src/article_processor.py:456-459 | `<SCRIPT>alert(1)</SCRIPT>` trips the pattern test but comes out of the clean-up unchanged. |
| Generation.SanitizeIsNotIdempotent | src/article_processor.py:456-459 | One pass turns `ononclick=click=` into `onclick=`; a second pass empties it. |
| Generation.ValidateHtmlNeverRejects | src/article_processor.py:442-461 | Validation always succeeds. It returns the validator after the feed and the sanitised fragment. |
| Generation.ResponseAttempt | src/article_processor.py:363-389 | An attempt on a response succeeds exactly when the stripped response holds both markers. It then returns the sanitised fragment. |
| Generation.ExtractionFailureIsFinal | src/article_processor.py:371-401 | An empty response or a missing marker fails as an UNKNOWN error that is not retryable, so the loop stops. |
| ExtractionMessages.EmptyResponseIsUnknown | src/article_processor.py:371-372 | The empty-response message matches no classifier pattern. |
| ExtractionMessages.MissingOpenIsUnknown | src/article_processor.py:375-377 | The missing-open-tag message matches no classifier pattern. |
| ExtractionMessages.MissingCloseIsUnknown | src/article_processor.py:379-381 | The missing-close-tag message matches no classifier pattern. |
| Generation.WaitTime | src/article_processor.py:403-408 | A non-zero retry delay is waited as is. A missing or zero delay gives `5 * 2^attempt` seconds plus the jitter. |
| Generation.WaitBound | src/article_processor.py:403-408 | With a jitter in [0, 2], a wait is never negative. It is the hinted delay or at most two seconds above the backoff. |
| Generation.BackoffSchedule | src/article_processor.py:353-408 | Without a hint the backoff is 5, 10 and 20 seconds for attempts 0 to 2. The jitter adds between 0 and 2 seconds. |
| Generation.ZeroHintFallsBackToBackoff | src/article_processor.py:404-408 | A rate-limit message whose hint is `retry after 0` keeps the delay 0 and waits the backoff instead. |
| Generation.TerminalMessageShape | src/article_processor.py:417-424 | The final error reports 3 attempts, the kind and the message. Advice is appended for context-length and authentication errors only. |
| Generation.RetryLoop | src/article_processor.py:358-424 | There are between 1 and 3 attempts and one wait fewer than attempts. Every attempt before the last failed retryably. Each wait is the wait time of its attempt's error. The loop succeeds exactly when the last attempt did. On failure the last error was final or was the third, and the message is the terminal message. |
| Generation.GenerateHtml | src/article_processor.py:340-426 | The contract of the loop, stated for the attempts that `outcomes` produce. There are 1 to 3 model calls, every call but the last failed retryably, and the last decides. On success the result is that attempt's sanitised fragment and validator; on failure it is the terminal message of its error and the validator is unchanged. There is no wait after the last call, and each wait is bounded by the backoff plus 2 seconds unless a delay was hinted. |
| ChunkProcessing.ChunkPromptInjective | src/article_processor.py:274 | Prompts built from one template are equal only for the same chunk, position and total. |
| ChunkProcessing.FirstChunkIsAnnouncedAsPartTwo | src/article_processor.py:274 | The chunk passed index 1 is announced as part 2. |
| ChunkProcessing.ProcessChunk | src/article_processor.py:272-288 | A stored response is returned without a model call only when it is non-empty. Otherwise the result is what `generate_html` returns for the model's answers: its HTML is stored under the exact prompt, and its error is passed on with nothing stored. Other prompts' entries are never touched. |
| ChunkProcessing.ChunkPromptsDistinct | src/article_processor.py:487-488 | Different positions of one run never share a prompt, even when their chunks have the same text. |
| ChunkProcessing.ProcessChunks | src/article_processor.py:486-492 | Chunk `k` is answered from the response stored before the run under its own prompt when that is non-empty, and otherwise by `generate_html` over its model answers. The validator passes from chunk to chunk. On success there is one result per chunk, in order, and the joined text is the results separated by newlines. Otherwise the error is that of the first failing chunk, and the chunks before it have their results. The cache holds each result under its chunk's prompt. Later chunks' prompts and prompts outside the run keep their entries. |
| FileProcessing.ProcessFile | src/article_processor.py:463-503 | Each step's failure is reported as its own error, in order: the path check's error, the missing environment, the read error, the content check's reason, the first failing chunk's message, then the failed save. The failed save is reported exactly when every name is taken or the directory cannot be made. Any failure leaves the file system as it was. On success the HTML is the per-chunk results joined by newlines. It is written under the first free `artykul[_k].html` name in the input file's directory. No other entry is removed or altered, and at most that directory is added. |
| FileProcessing.GenerateAndSave | src/article_processor.py:482-498 | The accepted text is split, each chunk is answered as stated for `ProcessChunks`, and the first failing chunk's message ends the run. Once every chunk has its result, the joined HTML is saved, and the save fails exactly when every name is taken or the directory cannot be made. On success the chunks rejoin to the text, and the joined results are written under the first free `artykul[_k].html` name in the input file's directory. No other entry is removed or altered, and at most that directory is added. |
| FileHandler.TryReadWithEncodings | src/file_handler.py:28-55 | A missing path or a directory raises before decoding. Otherwise the result is the stripped text under the first encoding, in the order utf-8, cp1250, iso-8859-2, ascii, that decodes the file. A file that some encoding decodes is read successfully, and reading fails with the decoding error exactly when none does. |
| FileHandler.ReadFile | src/file_handler.py:72-86 | Each failure has an if-and-only-if condition, in order: missing path; then zero size; then a directory, or a file no encoding decodes, each reported as such; then stripped text under 50 characters. A read error is passed on unchanged. Success returns the stripped text. |
| FileHandler.MakeDirs | src/file_handler.py:121 | Fails exactly for the empty path or an existing file. Otherwise the directory exists afterwards and every other path is unchanged. |
| FileHandler.FirstFreeCounter | src/file_handler.py:110-118 | The counter found is at most 100, its name is free and every smaller counter's name exists; no counter is found exactly when all 101 names exist. |
| FileHandler.SaveFile | src/file_handler.py:89-131 | The written path is the first of `artykul.html`, `artykul_1.html` … `artykul_100.html` in the output directory that did not exist. It receives the content. Every other entry is kept unchanged, and the only other entry that may appear is the output directory. The result is `None`, with nothing changed, exactly when all 101 names exist or the directory cannot be made. |
| FileHandler.WrittenFileReadsBack | src/file_handler.py:45-46 | A saved file reads back through utf-8, the first encoding tried. Empty content is reported as an empty file. Otherwise the result is the content with its line endings translated, then stripped, or too short when that has fewer than 50 characters. Content without `\r` reads back as itself, stripped. |
| FileHandler.TranslateNewlines | src/file_handler.py:45-46 | Text-mode reading never yields `\r`, never lengthens the text, and leaves text without `\r` unchanged. |
| FileHandler.TranslateNewlinesOfLine | src/file_handler.py:45-46 | A line without `\r` followed by `\r\n`, `\r` or `\n` reads as the line and one `\n`. |
| FileHandler.NextFilenameInjective | src/file_handler.py:145-150 | Different counters give different names. |
| FileHandler.NextFilenameSkipsOne | src/file_handler.py:145-150 | The name with suffix `_1` is never produced. |
| FileHandler.GetNextFilename | src/file_handler.py:134-154 | The name returned does not exist, and every name tried before it does. The search ends after at most one more step than there are paths. |
| FileHandler.TextFilesAmongMembers | src/file_handler.py:171-176 | A path is found exactly when some listed entry is a file with a `.txt`, `.md` or `.text` suffix in any case, its name does not start with a dot or contain "checklist" in any case, and it joins to that path. |
| FileHandler.FindTextFiles | src/file_handler.py:157-183 | A listing that raises gives no files; otherwise the result is the filter applied to the listing. |
| FileHandler.TextFilesKeepOrder | src/file_handler.py:171-176 | The filter keeps listing order: filtering two runs of entries in sequence is filtering their concatenation. |
| InputValidator.ValidateInputFile | src/validator.py:27-49 | Each error has an if-and-only-if condition, in order: missing path; then not a regular file; then zero size; then a suffix, lower-cased, other than `.txt` or `.md`. The check passes exactly when none applies. |
| InputValidator.SuffixCases | src/validator.py:46-47 | `notes.MD` passes the extension test, and `notes.text` fails it although the text-file search accepts that suffix. |
| Paths.Basename | src/file_handler.py:175 | The base name is the whole text after the last slash: it ends the path, holds no slash, and is preceded by a slash unless it is the whole path. |
| Paths.Dirname | src/file_handler.py:103 | The directory part is the text up to and including the last slash, with its trailing slashes removed unless it consists only of slashes. It starts the path, only slashes lie between it and the last slash, it is empty exactly when the path has no slash, and it ends in a slash only when it is all slashes up to the last one. |
| Paths.PathJoin | src/file_handler.py:113 | An absolute second part replaces the first. Otherwise the result is the first part, then exactly one slash when the first part is non-empty and does not already end in one, then the second part. |
| Paths.Abspath | src/file_handler.py:103 | An absolute path is kept; a relative one is joined to the working directory. |
| Paths.DirnameBasenameOfJoin | src/file_handler.py:103-113 | The directory and base name of a directory joined with an entry name are that directory and that name. |
| Paths.PathName | src/file_handler.py:173 | A path's name is empty or a single component. |
| Paths.PathNameIsLastNamed | src/validator.py:46 | The name is empty exactly when every component is empty or `.`. Otherwise it is a whole component of the path after which every component is empty or `.`. |
| Paths.LastNamedIsUnique | src/validator.py:46 | At most one component is followed only by empty and `.` components. |
| Paths.PathNameCharacterised | src/validator.py:46 | A component is the path's name exactly when it is the last component other than an empty one or `.`. |
| Paths.PathNameOfJoin | src/file_handler.py:172-173 | The name of a directory joined with an entry is the entry. |
| Paths.Suffix | src/validator.py:46 | The suffix is empty, or it is a dot followed by dot-free text ending the name and shorter than it. |
| Paths.SuffixOfStemAndExtension | src/validator.py:46 | The suffix of `stem.ext` is `.ext`. |
| Text.Lower | src/article_processor.py:66 | Lower-casing keeps the length and maps every character on its own. |
| Text.Strip | src/article_processor.py:363 | The stripped text is the slice between the leading and trailing whitespace; it neither starts nor ends with whitespace. |
| Text.Find | src/article_processor.py:375 | The first occurrence, or none when there is none. |
| Text.RFind | src/article_processor.py:379 | The last occurrence, or none when there is none. |
| Text.JoinSplit | src/article_processor.py:248 | Splitting on a separator and joining with it gives back the text. |
| Text.RemoveAll | src/article_processor.py:458 | The result is never longer than the input. It equals the input exactly when the pattern does not occur; otherwise it is shorter by at least the pattern. |
| Text.RemoveAllIsJoinOfSplit | src/article_processor.py:458 | Removing every occurrence, scanning left to right, is splitting on the pattern and joining the pieces with nothing. |
| Text.Utf8Length | src/article_processor.py:220 | The UTF-8 length is between one and four bytes per character. |

## Left out

- Unicode case mapping: `Lower` folds ASCII letters only, and the digit test in the retry hint covers ASCII digits only. Python's `str.lower` and `\d` cover all of Unicode.
- Paths.Abspath: does not apply `os.path.normpath`. `.` and `..` components, repeated slashes and a trailing slash are kept as written, so `./in.txt` under `/cwd` gives `/cwd/./in.txt`.
- FileHandler.SaveFile: the file system is a map keyed by path strings as written, so two spellings of one file, such as `/cwd/./artykul.html` and `/cwd/artykul.html`, are distinct keys. "The name did not exist before" holds for that key only. Python's `os.path.exists` resolves such aliases and would move on to the next name.
- The cache's storage: pickle files, the `.cache` directory, MD5 naming and the lock. With MD5 taken as injective they are a map, and no code path is concurrent (the thread pool is never used). Read and write errors of the pickle files, which the cache logs and ignores, are not modelled.
- `os.makedirs` creating missing parents, and permission or disk errors when writing the output file. The model creates only the output directory itself and never fails the write.
- Python's `HTMLParser` tokenisation: the model starts from tag events, given by the `tokenize` parameter.
- Attribute values of start tags matter only to the unreachable `img` check. They are carried but never decide anything.
- The final `"Nieznany błąd"` raise after the retry loop is unreachable: every pass through the loop records an error before it can end. It is not modelled.
- The order of tag names in the "missing required tags" message comes from a Python set and is unspecified. The message is built in the order article, h1, p, and it is unreachable anyway.
- `Validator.validate_environment`, dotenv and the language-model client: the environment verdict is the parameter `environmentValid`, and the model is given as per-chunk outcome sequences.
- `time.sleep` and `random.uniform`: the waits are returned and the jitters are inputs.
- Logging, the tkinter file dialogs (`select_input_file`, `get_input_file`), `create_prompt`, `process_article` and the command-line entry point are not part of this model.
- The order of `os.listdir` is an input, the `listing` parameter.
- When every encoding fails, the source's raise would itself fail with a `TypeError`, because `UnicodeDecodeError` needs five arguments. The model reports only that reading failed (`Undecodable`).
- FileHandler.TextFilesAmong: its own contract states only that the result is no longer than the listing. Which paths it returns is stated in `FileHandler.TextFilesAmongMembers`, and the order in `FileHandler.TextFilesKeepOrder`.
- Generation.GenerateHtml: attempt `k` is modelled as starting from the validator state of the call. That is exact because only the successful attempt, which is the last, changes that state.
