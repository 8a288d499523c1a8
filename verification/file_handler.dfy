/** `FileHandler`: reading an input file under several encodings, choosing a
    free output name, and picking text files out of a directory listing.

    The file system is a map from path to entry. A file records its size in
    bytes and, for each encoding that decodes it without error, the text a
    text-mode `read()` returns: the decoded characters with `"\r\n"` and
    `"\r"` already turned into `"\n"`. An encoding missing from that map is
    one whose decoder raises `UnicodeDecodeError`. */
module FileHandler {
  import opened Wrappers
  import opened Text
  import opened Decimal
  import opened Paths

  datatype Encoding = Utf8 | Cp1250 | Iso8859_2 | Ascii

  /** `ENCODINGS`, in the order they are tried. */
  const Encodings: seq<Encoding> := [Utf8, Cp1250, Iso8859_2, Ascii]

  const MinContentLength: nat := 50

  datatype Entry =
    | File(size: nat, decodings: map<Encoding, string>)
    | Directory(size: nat)

  type FileSystem = map<string, Entry>

  datatype ReadError =
    | NotFound        // FileNotFoundError
    | IsADirectory    // IsADirectoryError from open()
    | Undecodable     // every encoding failed
    | EmptyFile       // ValueError: size 0
    | TooShort        // ValueError: under 50 characters once stripped

  predicate IsFile(fs: FileSystem, path: string) {
    path in fs && fs[path].File?
  }

  // ---------------------------------------------------------------------
  // Reading
  // ---------------------------------------------------------------------

  /** Index of the first encoding, from `k` on, that decodes the file. */
  function FirstDecoding(decodings: map<Encoding, string>, k: nat): (r: Option<nat>)
    requires k <= |Encodings|
    ensures r.Some? ==> k <= r.value < |Encodings| && Encodings[r.value] in decodings
    ensures r.Some? ==> forall j :: k <= j < r.value ==> Encodings[j] !in decodings
    ensures r.None? ==> forall j :: k <= j < |Encodings| ==> Encodings[j] !in decodings
    decreases |Encodings| - k
  {
    if k == |Encodings| then None
    else if Encodings[k] in decodings then Some(k)
    else FirstDecoding(decodings, k + 1)
  }

  /** `try_read_with_encodings(filename)`: the stripped text and the first
      encoding, in `ENCODINGS` order, that reads the file. `open()` raises
      for a missing path or a directory before any decoding happens. */
  function TryReadWithEncodings(fs: FileSystem, path: string): (r: Result<(string, Encoding), ReadError>)
    ensures path !in fs ==> r == Err(NotFound)
    ensures path in fs && fs[path].Directory? ==> r == Err(IsADirectory)
    ensures r == Err(Undecodable) <==> IsFile(fs, path) && forall e :: e in Encodings ==> e !in fs[path].decodings
    ensures r.Ok? <==> IsFile(fs, path) && exists e :: e in Encodings && e in fs[path].decodings
    ensures r.Ok? ==> IsFile(fs, path) && exists k :: (0 <= k < |Encodings| && Encodings[k] == r.value.1
                                                       && forall j :: 0 <= j < k ==> Encodings[j] !in fs[path].decodings)
    ensures r.Ok? ==> r.value.1 in fs[path].decodings && r.value.0 == Strip(fs[path].decodings[r.value.1])
  {
    if path !in fs then Err(NotFound)
    else
      match fs[path]
      case Directory(_) => Err(IsADirectory)
      case File(_, decodings) =>
        match FirstDecoding(decodings, 0)
        case None => Err(Undecodable)
        case Some(k) => Ok((Strip(decodings[Encodings[k]]), Encodings[k]))
  }

  /** `read_file(filename)`: missing path, then zero size, then whatever
      reading raises, then content shorter than 50 characters. */
  function ReadFile(fs: FileSystem, path: string): (r: Result<string, ReadError>)
    ensures path !in fs <==> r == Err(NotFound)
    ensures r == Err(EmptyFile) <==> path in fs && fs[path].size == 0
    ensures r == Err(IsADirectory) <==> path in fs && fs[path].size > 0 && fs[path].Directory?
    ensures r == Err(Undecodable) <==>
      IsFile(fs, path) && fs[path].size > 0 && forall e :: e in Encodings ==> e !in fs[path].decodings
    ensures r == Err(TooShort) <==>
      path in fs && fs[path].size > 0 && TryReadWithEncodings(fs, path).Ok?
      && |TryReadWithEncodings(fs, path).value.0| < MinContentLength
    ensures r.Ok? <==>
      path in fs && fs[path].size > 0 && TryReadWithEncodings(fs, path).Ok?
      && |TryReadWithEncodings(fs, path).value.0| >= MinContentLength
    ensures r.Ok? ==> r.value == TryReadWithEncodings(fs, path).value.0
    ensures path in fs && fs[path].size > 0 && TryReadWithEncodings(fs, path).Err? ==>
      r == Err(TryReadWithEncodings(fs, path).error)
  {
    if path !in fs then Err(NotFound)
    else if fs[path].size == 0 then Err(EmptyFile)
    else
      var (content, _) :- TryReadWithEncodings(fs, path);
      if |content| < MinContentLength then Err(TooShort) else Ok(content)
  }

  // ---------------------------------------------------------------------
  // Writing the result
  // ---------------------------------------------------------------------

  const OutputBaseName: string := "artykul"
  const OutputExtension: string := ".html"
  const MaxOutputCounter: nat := 100

  /** The name tried with counter `k`: `artykul.html`, then
      `artykul_1.html`, `artykul_2.html`, … */
  function OutputName(k: nat): string {
    OutputBaseName + (if k > 0 then "_" + NatToString(k) else "") + OutputExtension
  }

  /** The directory `save_file` writes to: that of the original file made
      absolute, or the working directory when no original path is given. */
  function OutputDir(originalPath: Option<string>, cwd: string): string {
    if originalPath.Some? && originalPath.value != "" then Dirname(Abspath(originalPath.value, cwd))
    else cwd
  }

  /** Universal newlines, as text-mode reading applies them: `"\r\n"` and a
      lone `"\r"` each become `"\n"`. */
  function TranslateNewlines(s: string): (r: string)
    ensures |r| <= |s|
    ensures '\r' !in r
    ensures '\r' !in s ==> r == s
    decreases |s|
  {
    if |s| == 0 then ""
    else if s[0] == '\r' then "\n" + TranslateNewlines(if |s| > 1 && s[1] == '\n' then s[2..] else s[1..])
    else [s[0]] + TranslateNewlines(s[1..])
  }

  /** Text without `'\r'` passes through translation unchanged, whatever
      follows it. */
  lemma {:induction false} TranslateNewlinesKeepsPrefix(a: string, b: string)
    requires '\r' !in a
    ensures TranslateNewlines(a + b) == a + TranslateNewlines(b)
    decreases |a|
  {
    if |a| > 0 {
      var s := a + b;
      assert s[0] == a[0] && s[0] != '\r';
      assert s[1..] == a[1..] + b;
      TranslateNewlinesKeepsPrefix(a[1..], b);
      assert a == [a[0]] + a[1..];
    } else {
      assert a + b == b;
    }
  }

  /** A line ending in any of the three spellings becomes one `"\n"`; a lone
      `"\r"` counts as one only when no `"\n"` follows it. */
  lemma TranslateNewlinesOfEnding(ending: string, b: string)
    requires ending == "\r\n" || ending == "\r" || ending == "\n"
    requires ending == "\r" && |b| > 0 ==> b[0] != '\n'
    ensures TranslateNewlines(ending + b) == "\n" + TranslateNewlines(b)
  {
    var s := ending + b;
    assert s[0] == ending[0];
    if ending == "\r\n" {
      assert s[1] == '\n' && s[2..] == b;
    } else {
      assert s[1..] == b;
    }
  }

  /** Line endings are unified: a `'\r'`-free line followed by any ending
      reads as that line and `"\n"`. */
  lemma TranslateNewlinesOfLine(a: string, ending: string, b: string)
    requires '\r' !in a
    requires ending == "\r\n" || ending == "\r" || ending == "\n"
    requires ending == "\r" && |b| > 0 ==> b[0] != '\n'
    ensures TranslateNewlines(a + ending + b) == a + "\n" + TranslateNewlines(b)
  {
    assert a + ending + b == a + (ending + b);
    TranslateNewlinesKeepsPrefix(a, ending + b);
    TranslateNewlinesOfEnding(ending, b);
  }

  /** What a write of `content` leaves at `path`: `open(path, 'w')` on a
      POSIX system writes the characters unchanged, so the file has the
      content's UTF-8 size, and its UTF-8 text-mode reading is the content
      with its line endings translated. */
  function WrittenFile(content: string): Entry {
    File(Utf8Length(content), map[Utf8 := TranslateNewlines(content)])
  }

  /** `os.makedirs(dir, exist_ok=True)`: fails on the empty path and on an
      existing file; otherwise the directory exists afterwards. */
  function MakeDirs(fs: FileSystem, dir: string): (r: Option<FileSystem>)
    ensures r.Some? <==> dir != "" && !IsFile(fs, dir)
    ensures r.Some? ==> dir in r.value && r.value[dir].Directory?
    ensures r.Some? ==> forall p :: p != dir ==> (p in r.value <==> p in fs) && (p in fs ==> r.value[p] == fs[p])
  {
    if dir == "" || IsFile(fs, dir) then None
    else if dir in fs then Some(fs)
    else Some(fs[dir := Directory(0)])
  }

  /** Whether the name with counter `k` already exists in `dir`. */
  predicate Taken(fs: FileSystem, dir: string, k: nat) {
    PathJoin(dir, OutputName(k)) in fs
  }

  /** Why `save_file` gives up: every name from `artykul.html` to
      `artykul_100.html` is taken, or the output directory cannot be made. */
  predicate SaveFails(fs: FileSystem, originalPath: Option<string>, cwd: string) {
    var dir := OutputDir(originalPath, cwd);
    || (forall k :: 0 <= k <= MaxOutputCounter ==> Taken(fs, dir, k))
    || MakeDirs(fs, dir).None?
  }

  /** The counter loop of `save_file`: the first counter whose name is free,
      or `None` once the counter passes 100. */
  method FirstFreeCounter(fs: FileSystem, dir: string) returns (counter: Option<nat>)
    ensures counter.Some? ==> counter.value <= MaxOutputCounter && !Taken(fs, dir, counter.value)
    ensures counter.Some? ==> forall j :: 0 <= j < counter.value ==> Taken(fs, dir, j)
    ensures counter.None? <==> forall k :: 0 <= k <= MaxOutputCounter ==> Taken(fs, dir, k)
  {
    var c: nat := 0;
    while Taken(fs, dir, c)
      invariant c <= MaxOutputCounter
      invariant forall j :: 0 <= j < c ==> Taken(fs, dir, j)
      decreases MaxOutputCounter - c
    {
      c := c + 1;
      if c > MaxOutputCounter {
        return None;
      }
    }
    return Some(c);
  }

  /** `path` is the first free name in `dir`: counter `k`'s name for the
      smallest `k` up to 100 whose name does not exist. */
  predicate IsFirstFreeName(fs: FileSystem, dir: string, path: string) {
    exists k :: 0 <= k <= MaxOutputCounter && path == PathJoin(dir, OutputName(k)) && !Taken(fs, dir, k)
                && forall j :: 0 <= j < k ==> Taken(fs, dir, j)
  }

  /** `fs'` is `fs` with `content` written to the new `path` and, at most,
      the directory `dir` created: no entry is removed or altered, and no
      other entry appears. */
  predicate WroteOnly(fs: FileSystem, fs': FileSystem, dir: string, path: string, content: string) {
    && path !in fs && path in fs' && fs'[path] == WrittenFile(content)
    && (forall p :: p in fs ==> p in fs' && fs'[p] == fs[p])
    && (forall p :: p in fs' ==> p in fs || p == path || p == dir)
  }

  /** `save_file(content, original_path)`: the first free name among
      `artykul.html` and `artykul_1.html` … `artykul_100.html` in the output
      directory receives the content. Every failure — all names taken, the
      directory impossible to create — is logged and gives `None`. */
  method SaveFile(fs: FileSystem, content: string, originalPath: Option<string>, cwd: string)
    returns (r: Option<string>, fs': FileSystem)
    ensures r.Some? ==> IsFirstFreeName(fs, OutputDir(originalPath, cwd), r.value)
    ensures r.Some? ==> WroteOnly(fs, fs', OutputDir(originalPath, cwd), r.value, content)
    ensures r.None? <==> SaveFails(fs, originalPath, cwd)
    ensures r.None? ==> fs' == fs
  {
    var dir := OutputDir(originalPath, cwd);
    var counter := FirstFreeCounter(fs, dir);
    if counter.None? {
      return None, fs;
    }
    var outputPath := PathJoin(dir, OutputName(counter.value));
    var made := MakeDirs(fs, dir);
    if made.None? {
      return None, fs;
    }
    r, fs' := Some(outputPath), made.value[outputPath := WrittenFile(content)];
  }

  /** Reading back what `save_file` wrote: the UTF-8 decoding comes first,
      so the content, with its line endings translated, is returned stripped
      when it is long enough. Content without `'\r'` reads back as itself,
      stripped. */
  lemma WrittenFileReadsBack(fs: FileSystem, path: string, content: string)
    requires path in fs && fs[path] == WrittenFile(content)
    ensures content == "" ==> ReadFile(fs, path) == Err(EmptyFile)
    ensures content != "" && |Strip(TranslateNewlines(content))| < MinContentLength ==>
      ReadFile(fs, path) == Err(TooShort)
    ensures |Strip(TranslateNewlines(content))| >= MinContentLength ==>
      ReadFile(fs, path) == Ok(Strip(TranslateNewlines(content)))
    ensures '\r' !in content && |Strip(content)| >= MinContentLength ==> ReadFile(fs, path) == Ok(Strip(content))
  {
    assert Encodings[0] == Utf8;
    assert FirstDecoding(fs[path].decodings, 0) == Some(0);
    if content != "" {
      assert Utf8Length(content) > 0;
    }
    if |Strip(TranslateNewlines(content))| >= MinContentLength {
      assert content != "";
    }
  }

  /** `get_next_filename(base, ext)`: the name tried with counter `c`. */
  function NextFilename(base: string, ext: string, c: nat): string {
    if c == 1 then base + "." + ext else base + "_" + NatToString(c) + "." + ext
  }

  /** Different counters give different names. */
  lemma NextFilenameInjective(base: string, ext: string, a: nat, b: nat)
    requires a >= 1 && b >= 1
    ensures NextFilename(base, ext, a) == NextFilename(base, ext, b) ==> a == b
  {
    var na, nb := NextFilename(base, ext, a), NextFilename(base, ext, b);
    if a == 1 && b != 1 {
      assert na[|base|] == '.' && nb[|base|] == '_';
    } else if a != 1 && b == 1 {
      assert na[|base|] == '_' && nb[|base|] == '.';
    } else if a != 1 && na == nb {
      var head := base + "_";
      assert na == head + (NatToString(a) + ['.'] + ext);
      assert nb == head + (NatToString(b) + ['.'] + ext);
      assert na[|head|..] == NatToString(a) + ['.'] + ext;
      assert nb[|head|..] == NatToString(b) + ['.'] + ext;
      NumeralPrefixUnique(a, b, '.', ext, ext);
    }
  }

  /** The suffix `_1` is never produced: the first name has none and the
      second is `_2`. */
  lemma NextFilenameSkipsOne(base: string, ext: string, c: nat)
    requires c >= 1
    ensures NextFilename(base, ext, c) != base + "_1." + ext
  {
    var n := NextFilename(base, ext, c);
    var one := base + "_1." + ext;
    assert one[|base|] == '_';
    if c == 1 {
      assert n[|base|] == '.';
    } else if n == one {
      var head := base + "_";
      assert n == head + (NatToString(c) + ['.'] + ext);
      assert one == head + (NatToString(1) + ['.'] + ext);
      assert n[|head|..] == NatToString(c) + ['.'] + ext;
      assert one[|head|..] == NatToString(1) + ['.'] + ext;
      NumeralPrefixUnique(c, 1, '.', ext, ext);
    }
  }

  /** The counters tried so far name pairwise different paths. */
  function TriedNames(base: string, ext: string, counter: nat): set<string> {
    set c | 1 <= c < counter :: NextFilename(base, ext, c)
  }

  /** The loop of `get_next_filename`. It ends because every name it
      passes over is a distinct existing path. */
  method GetNextFilename(fs: FileSystem, base: string, ext: string) returns (name: string, counter: nat)
    ensures counter >= 1 && name == NextFilename(base, ext, counter)
    ensures name !in fs
    ensures forall c :: 1 <= c < counter ==> NextFilename(base, ext, c) in fs
    ensures counter <= |fs| + 1
  {
    counter := 1;
    ghost var tried: set<string> := {};
    while NextFilename(base, ext, counter) in fs
      invariant counter >= 1
      invariant tried == TriedNames(base, ext, counter)
      invariant tried <= fs.Keys
      invariant |tried| == counter - 1
      invariant forall c :: 1 <= c < counter ==> NextFilename(base, ext, c) in fs
      decreases |fs.Keys - tried|
    {
      var next := NextFilename(base, ext, counter);
      TriedNamesGrow(base, ext, counter);
      assert fs.Keys - (tried + {next}) + {next} == fs.Keys - tried;
      tried := tried + {next};
      counter := counter + 1;
    }
    SubsetIsNoLarger(tried, fs.Keys);
    name := NextFilename(base, ext, counter);
  }

  /** One more counter adds one new name to those tried. */
  lemma TriedNamesGrow(base: string, ext: string, counter: nat)
    requires counter >= 1
    ensures NextFilename(base, ext, counter) !in TriedNames(base, ext, counter)
    ensures TriedNames(base, ext, counter + 1) == TriedNames(base, ext, counter) + {NextFilename(base, ext, counter)}
  {
    forall c | 1 <= c < counter ensures NextFilename(base, ext, c) != NextFilename(base, ext, counter) {
      NextFilenameInjective(base, ext, c, counter);
    }
  }

  lemma {:induction false} SubsetIsNoLarger<T>(a: set<T>, b: set<T>)
    requires a <= b
    ensures |a| <= |b|
    decreases |a|
  {
    if a != {} {
      var x :| x in a;
      SubsetIsNoLarger(a - {x}, b - {x});
    }
  }

  // ---------------------------------------------------------------------
  // Picking text files
  // ---------------------------------------------------------------------

  const TextExtensions: set<string> := {".txt", ".md", ".text"}

  /** The test `find_text_files` applies to one listed entry. */
  predicate IsListedTextFile(fs: FileSystem, directory: string, entry: string) {
    && IsFile(fs, PathJoin(directory, entry))
    && Lower(Suffix(PathName(entry))) in TextExtensions
    && !StartsWith(Basename(entry), ".")
    && !Contains(Lower(entry), "checklist")
  }

  /** The entries that pass, as joined paths, in listing order. */
  function TextFilesAmong(fs: FileSystem, directory: string, entries: seq<string>): (r: seq<string>)
    ensures |r| <= |entries|
  {
    if |entries| == 0 then []
    else
      var rest := TextFilesAmong(fs, directory, entries[1..]);
      if IsListedTextFile(fs, directory, entries[0]) then [PathJoin(directory, entries[0])] + rest else rest
  }

  /** A path is found exactly when some listed entry passes the test and
      joins to it. */
  lemma {:induction false} TextFilesAmongMembers(fs: FileSystem, directory: string, entries: seq<string>, p: string)
    ensures p in TextFilesAmong(fs, directory, entries)
        <==> exists e :: e in entries && IsListedTextFile(fs, directory, e) && p == PathJoin(directory, e)
    decreases |entries|
  {
    if |entries| > 0 {
      var rest := entries[1..];
      assert entries == [entries[0]] + rest;
      TextFilesStep(fs, directory, entries[0], rest);
      TextFilesAmongMembers(fs, directory, rest, p);
      assert forall e :: e in entries <==> e == entries[0] || e in rest;
    }
  }

  /** `find_text_files(directory)`: `listing` is what `os.listdir` returns,
      or `None` when it raises, in which case the result is empty. */
  function FindTextFiles(fs: FileSystem, directory: string, listing: Option<seq<string>>): (r: seq<string>)
    ensures listing.None? ==> r == []
    ensures listing.Some? ==> r == TextFilesAmong(fs, directory, listing.value)
  {
    match listing
    case None => []
    case Some(entries) => TextFilesAmong(fs, directory, entries)
  }

  /** The filter keeps listing order: the files found among two runs of
      entries are those found among the first followed by the second's. */
  lemma {:induction false} TextFilesKeepOrder(fs: FileSystem, directory: string, a: seq<string>, b: seq<string>)
    ensures TextFilesAmong(fs, directory, a + b) == TextFilesAmong(fs, directory, a) + TextFilesAmong(fs, directory, b)
    decreases |a|
  {
    if |a| > 0 {
      assert a == [a[0]] + a[1..];
      assert a + b == [a[0]] + (a[1..] + b);
      TextFilesStep(fs, directory, a[0], a[1..]);
      TextFilesStep(fs, directory, a[0], a[1..] + b);
      TextFilesKeepOrder(fs, directory, a[1..], b);
    } else {
      assert a + b == b;
    }
  }

  lemma TextFilesStep(fs: FileSystem, directory: string, entry: string, rest: seq<string>)
    ensures TextFilesAmong(fs, directory, [entry] + rest)
         == (if IsListedTextFile(fs, directory, entry) then [PathJoin(directory, entry)] else [])
            + TextFilesAmong(fs, directory, rest)
  {
    assert ([entry] + rest)[1..] == rest;
  }
}
