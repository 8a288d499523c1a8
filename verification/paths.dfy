/** The POSIX path helpers the file handling relies on: `os.path.dirname`,
    `os.path.basename`, `os.path.join` with two arguments, `os.path.abspath`,
    and `pathlib.Path`'s `name` and `suffix`. */
module Paths {
  import opened Wrappers
  import opened Text

  const Slash: char := '/'

  /** `s.rfind(c)` for a single character. */
  function LastIndexOf(s: string, c: char): (r: Option<nat>)
    ensures r.Some? ==> r.value < |s| && s[r.value] == c
    ensures r.Some? ==> forall j :: r.value < j < |s| ==> s[j] != c
    ensures r.None? <==> Lacks(s, c)
    decreases |s|
  {
    if |s| == 0 then None
    else if s[|s| - 1] == c then Some(|s| - 1)
    else LastIndexOf(s[..|s| - 1], c)
  }

  /** Length of the text after the last slash, the slash excluded. */
  function HeadLength(p: string): (n: nat)
    ensures n <= |p|
    ensures n > 0 ==> p[n - 1] == Slash
    ensures forall j :: n <= j < |p| ==> p[j] != Slash
  {
    match LastIndexOf(p, Slash)
    case None => 0
    case Some(i) => i + 1
  }

  /** `s.rstrip('/')`. */
  function TrimSlashes(s: string): (r: string)
    ensures |r| <= |s| && r == s[..|r|]
    ensures forall j :: |r| <= j < |s| ==> s[j] == Slash
    ensures |r| > 0 ==> r[|r| - 1] != Slash
  {
    if |s| == 0 || s[|s| - 1] != Slash then s
    else TrimSlashes(s[..|s| - 1])
  }

  predicate AllSlashes(s: string) {
    forall j :: 0 <= j < |s| ==> s[j] == Slash
  }

  /** `os.path.basename(p)`: the text after the last slash. */
  function Basename(p: string): (r: string)
    ensures Lacks(r, Slash)
    ensures EndsWith(p, r)
    ensures |r| < |p| ==> p[|p| - |r| - 1] == Slash
  {
    p[HeadLength(p)..]
  }

  /** `os.path.dirname(p)`: the text up to the last slash, with trailing
      slashes removed unless it consists of slashes only. */
  function Dirname(p: string): (r: string)
    ensures StartsWith(p, r)
    ensures Lacks(p, Slash) ==> r == ""
    ensures r != "" && !AllSlashes(r) ==> r[|r| - 1] != Slash
    ensures |r| <= HeadLength(p) && forall j :: |r| <= j < HeadLength(p) ==> p[j] == Slash
    ensures HeadLength(p) > 0 ==> r != ""
    ensures r != "" && AllSlashes(r) ==> |r| == HeadLength(p)
  {
    var head := p[..HeadLength(p)];
    if head != "" && !AllSlashes(head) then TrimSlashes(head) else head
  }

  /** `os.path.join(a, b)`: an absolute `b` replaces `a`; otherwise a slash
      is inserted unless `a` is empty or already ends with one. */
  function PathJoin(a: string, b: string): (r: string)
    ensures StartsWith(b, "/") ==> r == b
    ensures !StartsWith(b, "/") ==> StartsWith(r, a) && EndsWith(r, b)
    ensures !StartsWith(b, "/") && (a == "" || EndsWith(a, "/")) ==> |r| == |a| + |b|
    ensures !StartsWith(b, "/") && a != "" && !EndsWith(a, "/") ==> |r| == |a| + |b| + 1 && r[|a|] == Slash
  {
    if StartsWith(b, "/") then b
    else if a == "" || EndsWith(a, "/") then a + b
    else a + "/" + b
  }

  /** `os.path.abspath(p)` against the working directory `cwd`, without
      the normalisation of `.` and `..` components. */
  function Abspath(p: string, cwd: string): (r: string)
    ensures StartsWith(p, "/") ==> r == p
    ensures !StartsWith(p, "/") ==> r == PathJoin(cwd, p)
  {
    PathJoin(cwd, p)
  }

  /** A name that can stand for one directory entry. */
  predicate IsComponent(n: string) {
    n != "" && n != "." && Lacks(n, Slash)
  }

  /** Joining a directory and an entry name, then taking the directory and
      the base name apart again, gives back both. */
  lemma DirnameBasenameOfJoin(d: string, n: string)
    requires IsComponent(n)
    requires d == "" || d == "/" || !EndsWith(d, "/")
    ensures Dirname(PathJoin(d, n)) == d
    ensures Basename(PathJoin(d, n)) == n
  {
    var p := PathJoin(d, n);
    assert !StartsWith(n, "/") by { assert n[0] != Slash; }
    if d == "" {
      assert p == n;
      assert HeadLength(p) == 0;
    } else if d == "/" {
      assert p == "/" + n;
      assert p[0] == Slash;
      assert HeadLength(p) == 1;
      assert p[..1] == "/";
    } else {
      assert p == d + "/" + n;
      assert p[|d|] == Slash;
      assert HeadLength(p) == |d| + 1;
      var head := p[..|d| + 1];
      assert head == d + "/";
      assert head[|head| - 2] == d[|d| - 1] != Slash;
      assert !AllSlashes(head);
      assert TrimSlashes(head) == TrimSlashes(d) == d;
    }
  }

  /** `pathlib.PurePosixPath(p).name`: the last component, where empty and
      `.` components do not count. */
  function PathName(p: string): (r: string)
    ensures r == "" || IsComponent(r)
    decreases |p|
  {
    var q := TrimSlashes(p);
    if q == "" then ""
    else
      var last := Basename(q);
      if last == "." then PathName(q[..|q| - 1]) else last
  }

  /** The character at `j` is a slash, or a dot standing alone between
      slashes or the ends of `t`. */
  predicate UnnamedAt(t: string, j: nat)
    requires j < |t|
  {
    t[j] == Slash || (t[j] == '.' && (j == 0 || t[j - 1] == Slash) && (j == |t| - 1 || t[j + 1] == Slash))
  }

  /** Every component of `t` is empty or `.`. */
  predicate OnlyUnnamedComponents(t: string) {
    forall j :: 0 <= j < |t| ==> UnnamedAt(t, j)
  }

  /** `c` is a whole component of `p` starting at `k`, and every component
      after it is empty or `.`. */
  predicate LastNamedAt(p: string, c: string, k: nat) {
    && k + |c| <= |p| && p[k..k + |c|] == c
    && (k == 0 || p[k - 1] == Slash)
    && (k + |c| < |p| ==> p[k + |c|] == Slash)
    && OnlyUnnamedComponents(p[k + |c|..])
  }

  /** `PathName` is pathlib's name: empty exactly when every component is
      empty or `.`, and otherwise the last component that is neither. */
  lemma {:induction false} PathNameIsLastNamed(p: string)
    ensures PathName(p) == "" <==> OnlyUnnamedComponents(p)
    ensures PathName(p) != "" ==> exists k :: LastNamedAt(p, PathName(p), k)
    decreases |p|
  {
    var q := TrimSlashes(p);
    if q == "" {
      assert p == p[|q|..];
      SlashesAreUnnamed(p);
    } else if Basename(q) != "." {
      NamedLast(p);
    } else {
      var p' := q[..|q| - 1];
      var slashes := p[|q|..];
      DotLast(p);
      PathNameIsLastNamed(p');
      DotKeepsUnnamed(p', slashes);
      if PathName(p) != "" {
        var k :| LastNamedAt(p', PathName(p), k);
        LastNamedThroughDot(p', PathName(p), k, slashes);
      }
    }
  }

  /** Only one component can be the last named one. */
  lemma LastNamedIsUnique(p: string, c1: string, k1: nat, c2: string, k2: nat)
    requires IsComponent(c1) && LastNamedAt(p, c1, k1)
    requires IsComponent(c2) && LastNamedAt(p, c2, k2)
    ensures c1 == c2 && k1 == k2
  {
    if k1 < k2 {
      NamedAfter(p, c1, k1, c2, k2);
    } else if k2 < k1 {
      NamedAfter(p, c2, k2, c1, k1);
    } else {
      ComponentsFromOneStart(p, c1, c2, k1);
    }
  }

  /** Two whole components starting at the same place are the same. */
  lemma ComponentsFromOneStart(p: string, c1: string, c2: string, k: nat)
    requires IsComponent(c1) && LastNamedAt(p, c1, k)
    requires IsComponent(c2) && LastNamedAt(p, c2, k)
    ensures c1 == c2
  {
  }

  /** A whole component starting after another one's end is a named
      component in the text after that end. */
  lemma NamedAfter(p: string, c1: string, k1: nat, c2: string, k2: nat)
    requires k1 < k2
    requires IsComponent(c1) && k1 + |c1| <= |p| && p[k1..k1 + |c1|] == c1
    requires IsComponent(c2) && k2 + |c2| <= |p| && p[k2..k2 + |c2|] == c2 && p[k2 - 1] == Slash
    ensures !OnlyUnnamedComponents(p[k1 + |c1|..])
  {
    var e := k1 + |c1|;
    var t := p[e..];
    var h := k2 - e;
    assert t[h..h + |c2|] == c2;
    forall j | h <= j < h + |c2| ensures t[j] != Slash {
      assert t[j] == c2[j - h];
    }
    ComponentIsNamed(t, h, h + |c2|);
  }

  /** A component is the name exactly when it is the last named one. */
  lemma PathNameCharacterised(p: string, c: string)
    requires IsComponent(c)
    ensures PathName(p) == c <==> exists k :: LastNamedAt(p, c, k)
  {
    PathNameIsLastNamed(p);
    if k: nat :| LastNamedAt(p, c, k) {
      if PathName(p) == "" {
        forall j | k <= j < k + |c| ensures p[j] != Slash {
          assert p[j] == c[j - k];
        }
        ComponentIsNamed(p, k, k + |c|);
      } else {
        var k2: nat :| LastNamedAt(p, PathName(p), k2);
        LastNamedIsUnique(p, c, k, PathName(p), k2);
      }
    }
  }

  lemma SlashesAreUnnamed(t: string)
    requires AllSlashes(t)
    ensures OnlyUnnamedComponents(t)
  {
    forall j | 0 <= j < |t| ensures UnnamedAt(t, j) {
      assert t[j] == Slash;
    }
  }

  /** When the last component, trailing slashes aside, is not `.`, it is
      the name. */
  lemma NamedLast(p: string)
    requires TrimSlashes(p) != "" && Basename(TrimSlashes(p)) != "."
    ensures PathName(p) == Basename(TrimSlashes(p))
    ensures PathName(p) != "" && !OnlyUnnamedComponents(p)
    ensures LastNamedAt(p, PathName(p), HeadLength(TrimSlashes(p)))
  {
    var q := TrimSlashes(p);
    var h := HeadLength(q);
    var last := Basename(q);
    assert last == q[h..];
    assert q[|q| - 1] != Slash;
    assert p[..|q|] == q;
    assert forall j :: h <= j < |q| ==> p[j] == q[j] != Slash;
    assert p[h..|q|] == last;
    ComponentIsNamed(p, h, |q|);
    SlashesAreUnnamed(p[|q|..]);
  }

  /** When the last component, trailing slashes aside, is `.`, the name is
      that of the text before the dot, which is empty or ends in a slash. */
  lemma DotLast(p: string)
    requires TrimSlashes(p) != "" && Basename(TrimSlashes(p)) == "."
    ensures var q := TrimSlashes(p);
      && PathName(p) == PathName(q[..|q| - 1])
      && (q[..|q| - 1] == "" || q[|q| - 2] == Slash)
      && p == q[..|q| - 1] + "." + p[|q|..]
      && AllSlashes(p[|q|..])
  {
    var q := TrimSlashes(p);
    var h := HeadLength(q);
    assert q[h..] == ".";
    assert h == |q| - 1;
    assert q == q[..|q| - 1] + ".";
    assert p == q + p[|q|..];
  }

  /** A lone `.` and trailing slashes after a slash-ended text add no named
      component. */
  lemma DotKeepsUnnamed(t: string, slashes: string)
    requires t == "" || t[|t| - 1] == Slash
    requires AllSlashes(slashes)
    ensures OnlyUnnamedComponents(t + "." + slashes) <==> OnlyUnnamedComponents(t)
  {
    var s := t + "." + slashes;
    assert forall j :: 0 <= j < |t| ==> s[j] == t[j];
    assert s[|t|] == '.';
    assert forall j :: |t| < j < |s| ==> s[j] == Slash;
    if OnlyUnnamedComponents(t) {
      forall j | 0 <= j < |s| ensures UnnamedAt(s, j) {
        if j < |t| {
          assert UnnamedAt(t, j);
          if t[j] != Slash {
            assert j != |t| - 1;
          }
        }
      }
    }
    if OnlyUnnamedComponents(s) {
      forall j | 0 <= j < |t| ensures UnnamedAt(t, j) {
        assert UnnamedAt(s, j);
      }
    }
  }

  /** The last named component stays last when a lone `.` and slashes
      follow the slash-ended text. */
  lemma LastNamedThroughDot(t: string, c: string, k: nat, slashes: string)
    requires IsComponent(c) && LastNamedAt(t, c, k)
    requires t == "" || t[|t| - 1] == Slash
    requires AllSlashes(slashes)
    ensures LastNamedAt(t + "." + slashes, c, k)
  {
    var s := t + "." + slashes;
    assert k + |c| < |t|;
    assert forall j :: 0 <= j < |t| ==> s[j] == t[j];
    assert s[k..k + |c|] == t[k..k + |c|];
    assert s[k + |c|..] == t[k + |c|..] + "." + slashes;
    DotKeepsUnnamed(t[k + |c|..], slashes);
  }

  /** The characters from `h` to `e` form a component other than `.`, so
      the text holding them has a named component. */
  lemma ComponentIsNamed(p: string, h: nat, e: nat)
    requires h < e <= |p|
    requires forall j :: h <= j < e ==> p[j] != Slash
    requires p[h..e] != "."
    ensures !OnlyUnnamedComponents(p)
  {
    if e - h == 1 {
      assert p[h..e] == [p[h]];
      assert p[h] != '.';
    } else {
      assert p[h + 1] != Slash;
    }
    assert !UnnamedAt(p, h);
  }

  /** The name of an entry joined to a directory is the entry's name. */
  lemma PathNameOfJoin(d: string, n: string)
    requires IsComponent(n)
    ensures PathName(PathJoin(d, n)) == n
    ensures PathName(n) == n
  {
    assert !StartsWith(n, "/") by { assert n[0] != Slash; }
    var p := PathJoin(d, n);
    if d == "" || EndsWith(d, "/") {
      assert p == d + n;
    } else {
      assert p == d + "/" + n;
    }
    BasenameAfterSlash(p, n);
    BasenameAfterSlash(n, n);
    PathNameOfLastComponent(p);
    PathNameOfLastComponent(n);
  }

  /** Without a trailing slash, the name is the base name unless that is `.`. */
  lemma PathNameOfLastComponent(p: string)
    requires IsComponent(Basename(p))
    ensures PathName(p) == Basename(p)
  {
    var n := Basename(p);
    assert p[|p| - |n|..] == n;
    assert p[|p| - 1] == n[|n| - 1];
    assert TrimSlashes(p) == p;
  }

  /** A component at the end of a path, right after a slash or alone, is
      the path's base name. */
  lemma BasenameAfterSlash(p: string, n: string)
    requires IsComponent(n) && EndsWith(p, n)
    requires |p| == |n| || p[|p| - |n| - 1] == Slash
    ensures Basename(p) == n
  {
    var k := |p| - |n|;
    assert p[k..] == n;
    assert forall j :: k <= j < |p| ==> p[j] == n[j - k];
    assert HeadLength(p) == k;
  }

  lemma ComponentIsItsOwnBasename(n: string)
    requires IsComponent(n)
    ensures TrimSlashes(n) == n && Basename(n) == n
  {
    assert n[|n| - 1] != Slash;
    assert HeadLength(n) == 0;
  }

  /** `pathlib.PurePath.suffix` of a name: from its last dot, when that dot
      is neither the first nor the last character. */
  function Suffix(name: string): (r: string)
    ensures r == "" || (|r| >= 2 && r[0] == '.' && Lacks(r[1..], '.') && EndsWith(name, r) && |r| < |name|)
  {
    match LastIndexOf(name, '.')
    case None => ""
    case Some(i) => if 0 < i < |name| - 1 then name[i..] else ""
  }

  /** A stem and an extension without dots give back the extension. */
  lemma SuffixOfStemAndExtension(stem: string, ext: string)
    requires stem != "" && ext != "" && Lacks(ext, '.')
    ensures Suffix(stem + "." + ext) == "." + ext
  {
    var name := stem + "." + ext;
    assert name[|stem|] == '.';
    assert forall j :: |stem| < j < |name| ==> name[j] == ext[j - |stem| - 1];
    assert LastIndexOf(name, '.') == Some(|stem|);
    assert name[|stem|..] == "." + ext;
  }
}
