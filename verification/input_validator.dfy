/** `Validator.validate_input_file`: the checks an input path must pass
    before it is read. The environment check (`validate_environment`) reads
    `.env` and the process environment and is not part of this model. */
module InputValidator {
  import opened Wrappers
  import opened Text
  import opened Paths
  import opened FileHandler

  datatype InputError =
    | Missing             // FileNotFoundError
    | NotARegularFile     // ValueError: not a file
    | Empty               // ValueError: size 0
    | UnsupportedSuffix   // ValueError: extension not accepted

  const AcceptedSuffixes: seq<string> := [".txt", ".md"]

  /** The extension test: the path's suffix, lower-cased. */
  predicate HasAcceptedSuffix(path: string) {
    Lower(Suffix(PathName(path))) in AcceptedSuffixes
  }

  /** `validate_input_file(file_path)`: exists, then is a file, then is
      non-empty, then has an accepted extension; it returns normally only
      when every check passes. */
  function ValidateInputFile(fs: FileSystem, path: string): (r: Result<(), InputError>)
    ensures r == Err(Missing) <==> path !in fs
    ensures r == Err(NotARegularFile) <==> path in fs && !IsFile(fs, path)
    ensures r == Err(Empty) <==> IsFile(fs, path) && fs[path].size == 0
    ensures r == Err(UnsupportedSuffix) <==> IsFile(fs, path) && fs[path].size > 0 && !HasAcceptedSuffix(path)
    ensures r.Ok? <==> IsFile(fs, path) && fs[path].size > 0 && HasAcceptedSuffix(path)
  {
    if path !in fs then Err(Missing)
    else if !IsFile(fs, path) then Err(NotARegularFile)
    else if fs[path].size == 0 then Err(Empty)
    else if !HasAcceptedSuffix(path) then Err(UnsupportedSuffix)
    else Ok(())
  }

  /** The extension test ignores case but knows only `.txt` and `.md`:
      `notes.MD` passes, while `notes.text` — which the text-file search
      does offer — is refused. */
  lemma SuffixCases(dir: string)
    ensures HasAcceptedSuffix(PathJoin(dir, "notes" + "." + "MD"))
    ensures !HasAcceptedSuffix(PathJoin(dir, "notes" + "." + "text"))
    ensures Lower(Suffix(PathName(PathJoin(dir, "notes" + "." + "text")))) in TextExtensions
  {
    UpperCaseMarkdown(dir);
    LongTextSuffix(dir);
    SuffixVerdicts(Lower(Suffix(PathName(PathJoin(dir, "notes" + "." + "MD")))),
                   Lower(Suffix(PathName(PathJoin(dir, "notes" + "." + "text")))));
  }

  lemma SuffixVerdicts(md: string, text: string)
    requires md == ".md" && text == ".text"
    ensures md in AcceptedSuffixes && text !in AcceptedSuffixes && text in TextExtensions
  {
  }

  lemma UpperCaseMarkdown(dir: string)
    ensures Lower(Suffix(PathName(PathJoin(dir, "notes" + "." + "MD")))) == ".md"
  {
    NotesSuffix(dir, "MD");
    LowerOfMarkdownSuffix();
  }

  lemma LongTextSuffix(dir: string)
    ensures Lower(Suffix(PathName(PathJoin(dir, "notes" + "." + "text")))) == ".text"
  {
    NotesSuffix(dir, "text");
    LowerOfTextSuffix();
  }

  lemma LowerOfTextSuffix()
    ensures Lower("." + "text") == ".text"
  {
  }

  lemma LowerOfMarkdownSuffix()
    ensures Lower("." + "MD") == ".md"
  {
  }

  lemma NotesSuffix(dir: string, ext: string)
    requires ext == "MD" || ext == "text"
    ensures Suffix(PathName(PathJoin(dir, "notes" + "." + ext))) == "." + ext
  {
    var stem := "notes";
    assert Lacks(stem, Slash) && Lacks(ext, Slash) && Lacks(ext, '.');
    SuffixOfJoinedName(dir, stem, ext);
  }

  /** The suffix of `stem.ext` joined to any directory is `.ext`. */
  lemma SuffixOfJoinedName(dir: string, stem: string, ext: string)
    requires stem != "" && ext != "" && Lacks(stem, Slash) && Lacks(ext, Slash) && Lacks(ext, '.')
    ensures Suffix(PathName(PathJoin(dir, stem + "." + ext))) == "." + ext
  {
    var n := stem + "." + ext;
    assert n[|n| - 1] == ext[|ext| - 1];
    assert forall j :: 0 <= j < |n| ==> n[j] != Slash by {
      assert forall j :: |stem| < j < |n| ==> n[j] == ext[j - |stem| - 1];
    }
    assert n != ".";
    PathNameOfJoin(dir, n);
    SuffixOfStemAndExtension(stem, ext);
  }
}
