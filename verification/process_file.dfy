/** `ArticleProcessor.process_file`: validate the input path, read it,
    check the text, split it, turn every chunk into HTML, join the pieces
    and save them next to the input. Any failure is raised to the caller;
    the only write is the final save.

    `validate_environment` looks for `.env` and an API key; its verdict is
    the parameter `environmentValid`. `MAX_FILE_SIZE_MB` is `maxFileSizeMb`
    and the working directory is `cwd`. */
module FileProcessing {
  import opened Wrappers
  import opened Text
  import opened HtmlValidator
  import opened ResponseCache
  import FileHandler
  import InputValidator
  import ContentCheck
  import Chunker
  import opened ChunkProcessing

  datatype ProcessError =
    | InputRejected(input: InputValidator.InputError)
    | EnvironmentInvalid
    | ReadFailed(read: FileHandler.ReadError)
    | ContentRejected(content: ContentCheck.ContentError)
    | GenerationFailed(message: string)
    | SaveFailed

  /** What the run leaves behind on success: the path written, the text
      written there, the chunks it was made from and each chunk's HTML. */
  datatype Output = Output(path: string, html: string, chunks: seq<string>, pieces: seq<string>)

  /** Lines 482-498 of `process_file`, once the text is accepted: split
      it, process the chunks in order, join their results and save them next
      to the input. `pieces` are the results of the chunks processed, in
      order, and chunk `k` ran from validator `vs[k]` to `vs[k + 1]`. The
      first chunk whose generation fails ends the run; a failed save is
      reported once every chunk has its result. */
  method GenerateAndSave(fs: FileHandler.FileSystem, inputFile: string, cwd: string, content: string,
                         cache: Cache, v: Validator, template: string,
                         oracle: nat -> ChunkOracle, tokenize: string -> seq<TagEvent>)
    returns (r: Result<Output, ProcessError>, fs': FileHandler.FileSystem, cache': Cache, v': Validator,
             pieces: seq<string>, vs: seq<Validator>)
    requires forall k :: ValidOracle(oracle(k))
    ensures r.Err? ==> fs' == fs
    ensures |vs| == |pieces| + 1 && vs[0] == v && v' == vs[|pieces|]
    ensures var chunks := Chunker.SplitLargeContent(content);
      var prompts := ChunkPrompts(template, chunks);
      && |pieces| <= |chunks|
      && (forall k :: 0 <= k < |pieces| ==>
            ChunkAnswered(cache, prompts[k], oracle(k), tokenize, vs[k], Ok(pieces[k]), vs[k + 1]))
      && (forall k :: 0 <= k < |pieces| ==> Get(cache', prompts[k]) == Some(pieces[k]))
      && (|pieces| < |chunks| <==> r.Err? && r.error.GenerationFailed?)
      && (|pieces| < |chunks| ==>
            ChunkAnswered(cache, prompts[|pieces|], oracle(|pieces|), tokenize, vs[|pieces|],
                          Err(r.error.message), vs[|pieces|]))
      && (|pieces| == |chunks| ==>
            (r == Err(SaveFailed) <==> FileHandler.SaveFails(fs, Some(inputFile), cwd)))
    ensures r.Err? ==> r.error.GenerationFailed? || r.error.SaveFailed?
    ensures r.Ok? ==> r.value.chunks == Chunker.SplitLargeContent(content)
                      && Join(r.value.chunks, Chunker.ParagraphSeparator) == content
    ensures r.Ok? ==> FileHandler.IsFirstFreeName(fs, FileHandler.OutputDir(Some(inputFile), cwd), r.value.path)
    ensures r.Ok? ==> FileHandler.WroteOnly(fs, fs', FileHandler.OutputDir(Some(inputFile), cwd), r.value.path, r.value.html)
    ensures r.Ok? ==> r.value.pieces == pieces && |pieces| == |r.value.chunks|
                      && r.value.html == Join(pieces, ResultSeparator)
  {
    fs' := fs;
    var chunks := Chunker.SplitLargeContent(content);
    Chunker.SplitLargeContentRoundTrip(content);
    var merged;
    merged, pieces, cache', vs := ProcessChunks(cache, v, template, chunks, oracle, tokenize);
    v' := vs[|pieces|];
    if merged.Err? {
      return Err(GenerationFailed(merged.error)), fs', cache', v', pieces, vs;
    }
    var saved, fs2 := FileHandler.SaveFile(fs, merged.value, Some(inputFile), cwd);
    if saved.None? {
      return Err(SaveFailed), fs', cache', v', pieces, vs;
    }
    r, fs' := Ok(Output(saved.value, merged.value, chunks, pieces)), fs2;
  }

  /** `process_file(input_file)`. Each error is reported by the step that
      raised it, and the steps after it do not run: the path check, the
      environment check, the read, the content check, then the generation
      and the save. */
  method ProcessFile(fs: FileHandler.FileSystem, inputFile: string, cwd: string, environmentValid: bool,
                     maxFileSizeMb: int, cache: Cache, v: Validator, template: string,
                     oracle: nat -> ChunkOracle, tokenize: string -> seq<TagEvent>)
    returns (r: Result<Output, ProcessError>, fs': FileHandler.FileSystem, cache': Cache, v': Validator,
             pieces: seq<string>, vs: seq<Validator>)
    requires forall k :: ValidOracle(oracle(k))
    ensures r.Err? ==> fs' == fs
    ensures |vs| == |pieces| + 1 && vs[0] == v && v' == vs[|pieces|]
    ensures InputValidator.ValidateInputFile(fs, inputFile).Err? ==>
      r == Err(InputRejected(InputValidator.ValidateInputFile(fs, inputFile).error))
    ensures InputValidator.ValidateInputFile(fs, inputFile).Ok? && !environmentValid ==> r == Err(EnvironmentInvalid)
    ensures InputValidator.ValidateInputFile(fs, inputFile).Ok? && environmentValid
            && FileHandler.ReadFile(fs, inputFile).Err? ==>
      r == Err(ReadFailed(FileHandler.ReadFile(fs, inputFile).error))
    ensures InputValidator.ValidateInputFile(fs, inputFile).Ok? && environmentValid
            && FileHandler.ReadFile(fs, inputFile).Ok?
            && ContentCheck.ValidateContentSize(FileHandler.ReadFile(fs, inputFile).value, maxFileSizeMb).Rejected? ==>
      r == Err(ContentRejected(ContentCheck.ValidateContentSize(FileHandler.ReadFile(fs, inputFile).value, maxFileSizeMb).reason))
    ensures r.Ok? || (r.Err? && (r.error.GenerationFailed? || r.error.SaveFailed?)) ==>
      && InputValidator.ValidateInputFile(fs, inputFile).Ok?
      && environmentValid
      && FileHandler.ReadFile(fs, inputFile).Ok?
      && ContentCheck.ValidateContentSize(FileHandler.ReadFile(fs, inputFile).value, maxFileSizeMb) == ContentCheck.Accepted
    ensures InputValidator.ValidateInputFile(fs, inputFile).Ok? && environmentValid
            && FileHandler.ReadFile(fs, inputFile).Ok?
            && ContentCheck.ValidateContentSize(FileHandler.ReadFile(fs, inputFile).value, maxFileSizeMb).Accepted? ==>
      var chunks := Chunker.SplitLargeContent(FileHandler.ReadFile(fs, inputFile).value);
      var prompts := ChunkPrompts(template, chunks);
      && |pieces| <= |chunks|
      && (forall k :: 0 <= k < |pieces| ==>
            ChunkAnswered(cache, prompts[k], oracle(k), tokenize, vs[k], Ok(pieces[k]), vs[k + 1]))
      && (|pieces| < |chunks| <==> r.Err? && r.error.GenerationFailed?)
      && (|pieces| < |chunks| ==>
            ChunkAnswered(cache, prompts[|pieces|], oracle(|pieces|), tokenize, vs[|pieces|],
                          Err(r.error.message), vs[|pieces|]))
      && (|pieces| == |chunks| ==>
            (r == Err(SaveFailed) <==> FileHandler.SaveFails(fs, Some(inputFile), cwd)))
    ensures r.Ok? ==> r.value.chunks == Chunker.SplitLargeContent(FileHandler.ReadFile(fs, inputFile).value)
    ensures r.Ok? ==> FileHandler.IsFirstFreeName(fs, FileHandler.OutputDir(Some(inputFile), cwd), r.value.path)
    ensures r.Ok? ==> FileHandler.WroteOnly(fs, fs', FileHandler.OutputDir(Some(inputFile), cwd), r.value.path, r.value.html)
    ensures r.Ok? ==> r.value.pieces == pieces && r.value.html == Join(pieces, ResultSeparator)
  {
    fs', cache', v' := fs, cache, v;
    pieces, vs := [], [v];
    var checked := InputValidator.ValidateInputFile(fs, inputFile);
    if checked.Err? {
      return Err(InputRejected(checked.error)), fs', cache', v', pieces, vs;
    }
    if !environmentValid {
      return Err(EnvironmentInvalid), fs', cache', v', pieces, vs;
    }
    var read := FileHandler.ReadFile(fs, inputFile);
    if read.Err? {
      return Err(ReadFailed(read.error)), fs', cache', v', pieces, vs;
    }
    var content := read.value;
    var verdict := ContentCheck.ValidateContentSize(content, maxFileSizeMb);
    if verdict.Rejected? {
      return Err(ContentRejected(verdict.reason)), fs', cache', v', pieces, vs;
    }
    r, fs', cache', v', pieces, vs := GenerateAndSave(fs, inputFile, cwd, content, cache, v, template, oracle, tokenize);
  }
}
