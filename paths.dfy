/// Path strings and the directory snapshot the resolver reads. The
/// filesystem is an input: what the one-level `Dir` glob lists for each directory
/// and which paths `File.directory?` accepts.
module Paths {
  import opened Collections

  /** One entry name inside a directory: non-empty, without `/`, and without
      a newline (Ruby's `$` would also match before one). */
  type Segment = s: string | |s| > 0 && '/' !in s && '\n' !in s witness "app"

  /** The characters a root path may not hold: a newline, which Ruby's `$`
      and `^` treat as a line end, and the metacharacters of a `Dir` glob
      pattern, since roots are interpolated into one. */
  predicate Plain(c: char) {
    c != '\n' && c != '*' && c != '?' && c != '[' && c != ']' && c != '{' && c != '}' && c != '\\'
  }

  /** A directory path that reads literally inside a glob pattern and holds
      no line break. */
  predicate PlainPath(s: string) {
    forall i :: 0 <= i < |s| ==> Plain(s[i])
  }

  type Path = s: string | PlainPath(s) witness "/"

  /** `"#{dir}/#{name}"` */
  function Join(dir: string, name: string): string {
    dir + "/" + name
  }

  /** The longest `/`-free suffix of s. */
  function TrailingRun(s: string): string {
    if s == [] || s[|s| - 1] == '/' then []
    else TrailingRun(s[..|s| - 1]) + [s[|s| - 1]]
  }

  lemma {:induction false} TrailingRunSpec(s: string)
    ensures |TrailingRun(s)| <= |s| && '/' !in TrailingRun(s)
    ensures s[|s| - |TrailingRun(s)|..] == TrailingRun(s)
    ensures |TrailingRun(s)| == |s| || s[|s| - |TrailingRun(s)| - 1] == '/'
  {
    if s != [] && s[|s| - 1] != '/' {
      var init := s[..|s| - 1];
      TrailingRunSpec(init);
      var r := TrailingRun(init);
      assert s[|s| - |r| - 1..] == init[|init| - |r|..] + [s[|s| - 1]];
    }
  }

  /** `path[/[^\/]+$/]`: the last `/`-separated segment, or nil when the path
      is empty or ends in `/`. */
  function LastSegment(path: string): Option<string> {
    var run := TrailingRun(path);
    if run == [] then None else Some(run)
  }

  /** `/[^\/]+$/` matches path[i..j]: a non-empty `/`-free run that ends
      where Ruby's `$` holds, at the end of the string or before a newline. */
  predicate SegmentMatch(path: string, i: int, j: int) {
    0 <= i < j <= |path| && '/' !in path[i..j] && (j == |path| || path[j] == '\n')
  }

  /** The segment found is the longest non-empty `/`-free suffix of the
      path; there is none exactly when the path is empty or ends in `/`.
      On a path without a newline this is what `path[/[^\/]+$/]` answers:
      nil when the pattern matches nowhere, and otherwise the leftmost match
      (which runs to the end of the path). */
  lemma LastSegmentSpec(path: string)
    ensures LastSegment(path).None? <==> path == [] || path[|path| - 1] == '/'
    ensures LastSegment(path).Some? ==>
              var r := LastSegment(path).value;
              && 0 < |r| <= |path| && '/' !in r
              && path[|path| - |r|..] == r
              && (|r| == |path| || path[|path| - |r| - 1] == '/')
    ensures '\n' !in path ==>
              (LastSegment(path).None? <==> forall i, j :: !SegmentMatch(path, i, j))
    ensures '\n' !in path && LastSegment(path).Some? ==>
              var r := LastSegment(path).value;
              && SegmentMatch(path, |path| - |r|, |path|)
              && forall i, j :: SegmentMatch(path, i, j) ==> |path| - |r| <= i && j == |path|
  {
    TrailingRunSpec(path);
    var r := TrailingRun(path);
    if '\n' !in path {
      forall i, j | SegmentMatch(path, i, j) ensures |path| - |r| <= i && j == |path| && r != [] {
        assert path[|path| - 1] in path[i..j];
      }
      if r != [] {
        assert path[|path| - |r|..|path|] == r;
        assert SegmentMatch(path, |path| - |r|, |path|);
      }
    }
  }

  /** The last segment of `"#{dir}/#{name}"` is name. */
  lemma LastSegmentOfJoin(dir: string, name: Segment)
    ensures LastSegment(Join(dir, name)) == Some(name)
  {
    var p := Join(dir, name);
    LastSegmentSpec(p);
    assert p[|p| - |name|..] == name;
    assert p[|p| - |name| - 1] == '/';
    assert p[|p| - 1] == name[|name| - 1];
  }

  /** Joining a plain directory and a plain name gives a plain path. */
  lemma JoinPlain(dir: string, name: string)
    requires PlainPath(dir) && PlainPath(name)
    ensures PlainPath(Join(dir, name))
  {
    var p := Join(dir, name);
    forall i | 0 <= i < |p| ensures Plain(p[i]) {
      if i < |dir| {
        assert p[i] == dir[i];
      } else if i > |dir| {
        assert p[i] == name[i - |dir| - 1];
      }
    }
  }

  /** An entry path under a root without a newline holds no newline. */
  lemma JoinNoNewline(dir: string, name: Segment)
    requires PlainPath(dir)
    ensures '\n' !in Join(dir, name)
  {
    var p := Join(dir, name);
    forall i | 0 <= i < |p| ensures p[i] != '\n' {
      if i < |dir| {
        assert p[i] == dir[i] && Plain(dir[i]);
      } else if i > |dir| {
        assert p[i] == name[i - |dir| - 1];
      }
    }
  }

  /** A joined path determines both its directory and its entry name. */
  lemma JoinInjective(d1: string, n1: Segment, d2: string, n2: Segment)
    requires Join(d1, n1) == Join(d2, n2)
    ensures d1 == d2 && n1 == n2
  {
    LastSegmentOfJoin(d1, n1);
    LastSegmentOfJoin(d2, n2);
    var p := Join(d1, n1);
    assert d1 == p[..|d1|];
    assert d2 == p[..|d2|];
  }

  /** What the resolver sees of the filesystem. `listing[d]` holds the entry
      names the one-level `Dir` glob of directory d finds, in the order the
      operating system returns them; a directory without an entry here does not exist
      (or cannot be read) and lists nothing. `dirs` holds the paths
      `File.directory?` accepts. */
  datatype FileSystem = FileSystem(listing: map<string, seq<Segment>>, dirs: set<string>)

  /** The entry names of dir, empty for a missing directory. */
  function Entries(fs: FileSystem, dir: string): seq<Segment> {
    if dir in fs.listing then fs.listing[dir] else []
  }

  /** The one-level `Dir` glob of dir: every entry of dir, as a path under
      dir. */
  function Glob(fs: FileSystem, dir: string): seq<string> {
    var names := Entries(fs, dir);
    seq(|names|, i requires 0 <= i < |names| => Join(dir, names[i]))
  }

  /** A path is globbed from dir exactly when it names an entry of dir. */
  lemma GlobMember(fs: FileSystem, dir: string, p: string)
    ensures p in Glob(fs, dir) <==> exists n :: n in Entries(fs, dir) && p == Join(dir, n)
  {
    var g := Glob(fs, dir);
    var names := Entries(fs, dir);
    if exists n :: n in names && p == Join(dir, n) {
      var n :| n in names && p == Join(dir, n);
      var i :| 0 <= i < |names| && names[i] == n;
      assert g[i] == p;
    }
  }

  /** Under a plain directory no globbed path holds a newline. */
  lemma GlobNoNewline(fs: FileSystem, dir: string, p: string)
    requires PlainPath(dir) && p in Glob(fs, dir)
    ensures '\n' !in p
  {
    GlobMember(fs, dir, p);
    var n :| n in Entries(fs, dir) && p == Join(dir, n);
    JoinNoNewline(dir, n);
  }
}
