/// What `ComponentPaths` computes, as functions of its inputs: the search
/// roots (`app_folders`), the overlay index (`components`), and the views
/// derived from them (`component_paths`, `asset_folders`, and the component
/// names `load_views_and_routes` hands on), with the properties the resolver
/// relies on.
module Overlay {
  import opened Collections
  import opened Sorting
  import opened Paths
  import opened Gems

  // ---------------------------------------------------------------------
  // Search roots
  // ---------------------------------------------------------------------

  /** The search roots before `uniq`: volt's own `app` folder, the `app`
      folders of the loaded volt gems in comparator order, then the
      application's `app` and `vendor/app`. */
  function CandidateRoots(voltApp: string, gems: seq<GemSpec>, root: string): seq<string> {
    [voltApp] + GemAppFolders(SortedVoltGems(gems)) + [Join(root, "app"), Join(root, "vendor/app")]
  }

  /** The memoised `@app_folders`. */
  function AppFolderList(voltApp: string, gems: seq<GemSpec>, root: string): seq<string> {
    Uniq(CandidateRoots(voltApp, gems, root))
  }

  /** The root list starts with volt's own folder, holds the application's
      two folders, and lists no folder twice. */
  lemma AppFolderListShape(voltApp: string, gems: seq<GemSpec>, root: string)
    ensures NoDup(AppFolderList(voltApp, gems, root))
    ensures |AppFolderList(voltApp, gems, root)| > 0
    ensures AppFolderList(voltApp, gems, root)[0] == voltApp
    ensures Join(root, "app") in AppFolderList(voltApp, gems, root)
    ensures Join(root, "vendor/app") in AppFolderList(voltApp, gems, root)
  {
    var c := CandidateRoots(voltApp, gems, root);
    UniqHead(c);
    assert c[|c| - 2] == Join(root, "app") && c[|c| - 1] == Join(root, "vendor/app");
  }

  /** A folder is a search root exactly when it is volt's own folder, the
      `app` folder of a loaded gem named `volt...`, or one of the
      application's two folders. */
  lemma AppFolderMember(voltApp: string, gems: seq<GemSpec>, root: string, p: string)
    ensures p in AppFolderList(voltApp, gems, root) <==>
              || p == voltApp
              || (exists g :: g in gems && IsVoltGem(g) && p == Join(g.fullGemPath, "app"))
              || p == Join(root, "app")
              || p == Join(root, "vendor/app")
  {
    var c := CandidateRoots(voltApp, gems, root);
    var u := AppFolderList(voltApp, gems, root);
    var mid := GemAppFolders(SortedVoltGems(gems));
    GemRootMember(gems, p);
    assert p in u <==> p in c by {
      if p in u {
        var i :| 0 <= i < |u| && u[i] == p;
      }
      if p in c {
        var i :| 0 <= i < |c| && c[i] == p;
      }
    }
    assert p in c <==> p == voltApp || p in mid || p == Join(root, "app") || p == Join(root, "vendor/app");
  }

  /** With plain inputs every search root is a plain path: it reads
      literally inside the `Dir` patterns the roots are interpolated into. */
  lemma AppFolderListPlain(voltApp: Path, gems: seq<GemSpec>, root: Path)
    ensures forall p :: p in AppFolderList(voltApp, gems, root) ==> PlainPath(p)
  {
    JoinPlain(root, "app");
    JoinPlain(root, "vendor/app");
    forall p | p in AppFolderList(voltApp, gems, root) ensures PlainPath(p) {
      AppFolderMember(voltApp, gems, root, p);
      if exists g :: g in gems && IsVoltGem(g) && p == Join(g.fullGemPath, "app") {
        var g :| g in gems && IsVoltGem(g) && p == Join(g.fullGemPath, "app");
        JoinPlain(g.fullGemPath, "app");
      }
    }
  }

  // ---------------------------------------------------------------------
  // Overlay index
  // ---------------------------------------------------------------------

  /** The paths among `paths` that `File.directory?` accepts, in order. */
  function Directories(fs: FileSystem, paths: seq<string>): seq<string> {
    if paths == [] then []
    else
      var last := paths[|paths| - 1];
      Directories(fs, paths[..|paths| - 1]) + (if last in fs.dirs then [last] else [])
  }

  lemma {:induction false} DirectoriesMember(fs: FileSystem, paths: seq<string>, p: string)
    ensures p in Directories(fs, paths) <==> p in paths && p in fs.dirs
  {
    if paths != [] {
      var init, last := paths[..|paths| - 1], paths[|paths| - 1];
      assert paths == init + [last];
      DirectoriesMember(fs, init, p);
    }
  }

  /** The directories one root contributes, in the order `components` visits
      them: its globbed entries sorted, directories only. */
  function RootDirectories(fs: FileSystem, root: string): seq<string> {
    Directories(fs, SortBy(Glob(fs, root), Compare))
  }

  /** Every directory `components` visits, root by root. */
  function Scan(fs: FileSystem, roots: seq<string>): seq<string> {
    FlatMap(root => RootDirectories(fs, root), roots)
  }

  /** Every path `components` visits is an entry of the root it came from. */
  lemma RootDirectoriesShape(fs: FileSystem, root: string, p: string) returns (n: Segment)
    requires p in RootDirectories(fs, root)
    ensures n in Entries(fs, root) && p == Join(root, n) && p in fs.dirs
  {
    var sorted := SortBy(Glob(fs, root), Compare);
    DirectoriesMember(fs, sorted, p);
    assert p in multiset(sorted);
    GlobMember(fs, root, p);
    n :| n in Entries(fs, root) && p == Join(root, n);
  }

  lemma {:induction false} ScanShape(fs: FileSystem, roots: seq<string>, p: string) returns (i: nat, n: Segment)
    requires p in Scan(fs, roots)
    ensures i < |roots| && n in Entries(fs, roots[i]) && p == Join(roots[i], n) && p in fs.dirs
  {
    var init := roots[..|roots| - 1];
    assert Scan(fs, roots) == Scan(fs, init) + RootDirectories(fs, roots[|roots| - 1]);
    if p in Scan(fs, init) {
      i, n := ScanShape(fs, init, p);
    } else {
      i := |roots| - 1;
      n := RootDirectoriesShape(fs, roots[i], p);
    }
  }

  /** Under plain roots no visited path holds a newline, so its last
      segment is what `folder[/[^\/]+$/]` finds (`LastSegmentSpec`). */
  lemma ScanNoNewline(fs: FileSystem, roots: seq<string>, p: string)
    requires forall r :: r in roots ==> PlainPath(r)
    requires p in Scan(fs, roots)
    ensures '\n' !in p
  {
    var i, n := ScanShape(fs, roots, p);
    JoinNoNewline(roots[i], n);
  }

  /** Every path globbed from a root has a last segment. */
  lemma GlobNamed(fs: FileSystem, root: string)
    ensures AllNamed(SortBy(Glob(fs, root), Compare))
  {
    var sorted := SortBy(Glob(fs, root), Compare);
    forall p | p in sorted ensures LastSegment(p).Some? {
      assert p in multiset(sorted);
      GlobMember(fs, root, p);
      var n :| n in Entries(fs, root) && p == Join(root, n);
      LastSegmentOfJoin(root, n);
    }
  }

  /** Every visited path has a last segment. */
  predicate AllNamed(paths: seq<string>) {
    forall p :: p in paths ==> LastSegment(p).Some?
  }

  lemma ScanNamed(fs: FileSystem, roots: seq<string>)
    ensures AllNamed(Scan(fs, roots))
  {
    forall p | p in Scan(fs, roots) ensures LastSegment(p).Some? {
      var i, n := ScanShape(fs, roots, p);
      LastSegmentOfJoin(roots[i], n);
    }
  }

  /** One step of `components`: file the folder under its last segment,
      unless that name already lists it. */
  function AddFolder(index: map<string, seq<string>>, folder: string): map<string, seq<string>>
    requires LastSegment(folder).Some?
  {
    var name := LastSegment(folder).value;
    var folders := if name in index then index[name] else [];
    index[name := if folder in folders then folders else folders + [folder]]
  }

  /** `components` after visiting `folders` in order. */
  function AddFolders(index: map<string, seq<string>>, folders: seq<string>): map<string, seq<string>>
    requires AllNamed(folders)
  {
    if folders == [] then index
    else AddFolder(AddFolders(index, folders[..|folders| - 1]), folders[|folders| - 1])
  }

  /** Filing one more folder is one more `AddFolder` step. */
  lemma AddFoldersSnoc(index: map<string, seq<string>>, visited: seq<string>, folder: string)
    requires AllNamed(visited) && LastSegment(folder).Some?
    ensures AllNamed(visited + [folder])
    ensures AddFolders(index, visited + [folder]) == AddFolder(AddFolders(index, visited), folder)
  {
    assert (visited + [folder])[..|visited|] == visited;
  }

  /** Keeping the directories of one more path. */
  lemma DirectoriesStep(fs: FileSystem, paths: seq<string>, j: nat)
    requires j < |paths|
    ensures Directories(fs, paths[..j + 1])
              == Directories(fs, paths[..j]) + (if paths[j] in fs.dirs then [paths[j]] else [])
  {
    assert paths[..j + 1][..j] == paths[..j];
  }

  /** Filing `a + b` is filing a, then b. */
  lemma {:induction false} AddFoldersAppend(index: map<string, seq<string>>, a: seq<string>, b: seq<string>)
    requires AllNamed(a) && AllNamed(b)
    ensures AllNamed(a + b)
    ensures AddFolders(index, a + b) == AddFolders(AddFolders(index, a), b)
  {
    if b == [] {
      assert a + b == a;
    } else {
      var init := b[..|b| - 1];
      assert (a + b)[..|a + b| - 1] == a + init;
      assert forall p :: p in init ==> p in b;
      AddFoldersAppend(index, a, init);
    }
  }

  /** The directories kept from named paths are named. */
  lemma DirectoriesNamed(fs: FileSystem, paths: seq<string>)
    requires AllNamed(paths)
    ensures AllNamed(Directories(fs, paths))
  {
    forall p | p in Directories(fs, paths) ensures LastSegment(p).Some? {
      DirectoriesMember(fs, paths, p);
    }
  }

  /** The memoised `@components`: every directory of every root, filed
      under its name. */
  function ComponentIndex(fs: FileSystem, roots: seq<string>): map<string, seq<string>> {
    ScanNamed(fs, roots);
    AddFolders(map[], Scan(fs, roots))
  }

  /** The visited paths whose last segment is name, in order. */
  function NamedAs(paths: seq<string>, name: string): seq<string> {
    if paths == [] then []
    else
      var last := paths[|paths| - 1];
      NamedAs(paths[..|paths| - 1], name) + (if LastSegment(last) == Some(name) then [last] else [])
  }

  lemma {:induction false} NamedAsMember(paths: seq<string>, name: string, p: string)
    ensures p in NamedAs(paths, name) <==> p in paths && LastSegment(p) == Some(name)
  {
    if paths != [] {
      var init, last := paths[..|paths| - 1], paths[|paths| - 1];
      assert paths == init + [last];
      NamedAsMember(init, name, p);
    }
  }

  lemma {:induction false} NamedAsAppend(a: seq<string>, b: seq<string>, name: string)
    ensures NamedAs(a + b, name) == NamedAs(a, name) + NamedAs(b, name)
  {
    if b == [] {
      assert a + b == a;
    } else {
      var init, last := b[..|b| - 1], b[|b| - 1];
      var ab := a + b;
      assert ab[..|ab| - 1] == a + init && ab[|ab| - 1] == last;
      var tail := if LastSegment(last) == Some(name) then [last] else [];
      assert NamedAs(ab, name) == NamedAs(a + init, name) + tail;
      assert NamedAs(b, name) == NamedAs(init, name) + tail;
      NamedAsAppend(a, init, name);
    }
  }

  /** Visiting folders one by one files each name's folders in visiting
      order, once each: the index lists a name exactly when some visited
      folder has it as last segment, and then lists `uniq` of those
      folders. */
  lemma {:induction false} AddFoldersSpec(folders: seq<string>, name: string)
    requires AllNamed(folders)
    ensures name in AddFolders(map[], folders) <==> NamedAs(folders, name) != []
    ensures name in AddFolders(map[], folders) ==>
              AddFolders(map[], folders)[name] == Uniq(NamedAs(folders, name))
  {
    if folders != [] {
      var init, last := folders[..|folders| - 1], folders[|folders| - 1];
      assert folders == init + [last];
      AddFoldersSpec(init, name);
      var before := AddFolders(map[], init);
      var named := NamedAs(init, name);
      if LastSegment(last) == Some(name) {
        assert NamedAs(folders, name) == named + [last];
        assert (named + [last])[..|named|] == named;
        NamedAsMember(init, name, last);
      } else {
        assert NamedAs(folders, name) == named;
      }
    }
  }

  /** Does root provide a component directory called name? */
  predicate Provides(fs: FileSystem, root: string, name: string) {
    name in Entries(fs, root) && Join(root, name) in fs.dirs
  }

  /** The overlay of a component: `"#{root}/#{name}"` for every root that
      has such a directory, in root order. */
  function OverlayPaths(fs: FileSystem, roots: seq<string>, name: string): (r: seq<string>)
    ensures forall p :: p in r <==>
              exists i :: 0 <= i < |roots| && Provides(fs, roots[i], name) && p == Join(roots[i], name)
  {
    if roots == [] then []
    else
      var init, last := roots[..|roots| - 1], roots[|roots| - 1];
      var r := OverlayPaths(fs, init, name) + (if Provides(fs, last, name) then [Join(last, name)] else []);
      assert forall i :: 0 <= i < |init| ==> roots[i] == init[i];
      r
  }

  /** Later roots come later: the overlay over `a + b` is that over a
      followed by that over b. */
  lemma {:induction false} OverlayRootOrder(fs: FileSystem, a: seq<string>, b: seq<string>, name: string)
    ensures OverlayPaths(fs, a + b, name) == OverlayPaths(fs, a, name) + OverlayPaths(fs, b, name)
  {
    if b == [] {
      assert a + b == a;
    } else {
      var init := b[..|b| - 1];
      assert (a + b)[..|a + b| - 1] == a + init;
      OverlayRootOrder(fs, a, init, name);
    }
  }

  lemma ScanAppend(fs: FileSystem, a: seq<string>, b: seq<string>)
    ensures Scan(fs, a + b) == Scan(fs, a) + Scan(fs, b)
  {
    FlatMapAppend(root => RootDirectories(fs, root), a, b);
  }

  /** The directories one root contributes under name: copies of
      `"#{root}/#{name}"`, present exactly when the root provides it. */
  lemma RootDirectoriesNamed(fs: FileSystem, root: string, name: string)
    ensures forall p :: p in NamedAs(RootDirectories(fs, root), name) ==> p == Join(root, name)
    ensures NamedAs(RootDirectories(fs, root), name) != [] <==> Provides(fs, root, name)
  {
    var dirs := RootDirectories(fs, root);
    var named := NamedAs(dirs, name);
    forall p | p in named ensures p == Join(root, name) {
      NamedAsMember(dirs, name, p);
      var n := RootDirectoriesShape(fs, root, p);
      LastSegmentOfJoin(root, n);
    }
    if Provides(fs, root, name) {
      var p := Join(root, name);
      var sorted := SortBy(Glob(fs, root), Compare);
      GlobMember(fs, root, p);
      assert p in multiset(sorted);
      DirectoriesMember(fs, sorted, p);
      LastSegmentOfJoin(root, name);
      NamedAsMember(dirs, name, p);
    }
    if named != [] {
      var p := named[0];
      NamedAsMember(dirs, name, p);
      var n := RootDirectoriesShape(fs, root, p);
      LastSegmentOfJoin(root, n);
    }
  }

  /** A folder `"#{root}/#{name}"` visited while scanning roots belongs to
      one of those roots. */
  lemma ScanJoinRoot(fs: FileSystem, roots: seq<string>, root: string, name: Segment)
    requires Join(root, name) in Scan(fs, roots)
    ensures root in roots
  {
    var i, n := ScanShape(fs, roots, Join(root, name));
    JoinInjective(root, name, roots[i], n);
  }

  /** Adding one more root, not among the earlier ones, extends the
      de-duplicated folders filed under name exactly as it extends the
      overlay of name. */
  lemma ScanOverlayStep(fs: FileSystem, init: seq<string>, last: string, name: string)
    requires last !in init
    requires Uniq(NamedAs(Scan(fs, init), name)) == OverlayPaths(fs, init, name)
    ensures Uniq(NamedAs(Scan(fs, init + [last]), name)) == OverlayPaths(fs, init + [last], name)
  {
    var roots := init + [last];
    assert roots[..|roots| - 1] == init;
    assert Scan(fs, roots) == Scan(fs, init) + RootDirectories(fs, last);
    var a := NamedAs(Scan(fs, init), name);
    var b := NamedAs(RootDirectories(fs, last), name);
    NamedAsAppend(Scan(fs, init), RootDirectories(fs, last), name);
    RootDirectoriesNamed(fs, last, name);
    if b == [] {
      assert a + b == a;
    } else {
      var x := Join(last, name);
      assert name in Entries(fs, last);
      NamedAsMember(Scan(fs, init), name, x);
      if x in a {
        ScanJoinRoot(fs, init, last, name);
      }
      UniqAppendCopies(a, b, x);
    }
  }

  /** Over distinct roots, the folders the scan files under name,
      de-duplicated, are exactly the overlay of name. */
  lemma {:induction false} ScanOverlay(fs: FileSystem, roots: seq<string>, name: string)
    requires NoDup(roots)
    ensures Uniq(NamedAs(Scan(fs, roots), name)) == OverlayPaths(fs, roots, name)
  {
    if roots != [] {
      var init, last := roots[..|roots| - 1], roots[|roots| - 1];
      assert roots == init + [last];
      assert NoDup(init);
      ScanOverlay(fs, init, name);
      ScanOverlayStep(fs, init, last, name);
    }
  }

  /** The overlay index, name by name: a name is listed exactly when some
      root provides a directory of that name, and then its list is the
      overlay: one path per providing root, in root order. */
  lemma ComponentIndexOverlay(fs: FileSystem, roots: seq<string>, name: string)
    requires NoDup(roots)
    ensures name in ComponentIndex(fs, roots) <==>
              exists i :: 0 <= i < |roots| && Provides(fs, roots[i], name)
    ensures name in ComponentIndex(fs, roots) ==>
              ComponentIndex(fs, roots)[name] == OverlayPaths(fs, roots, name)
  {
    var scan := Scan(fs, roots);
    ScanNamed(fs, roots);
    AddFoldersSpec(scan, name);
    ScanOverlay(fs, roots, name);
    var named := NamedAs(scan, name);
    var o := OverlayPaths(fs, roots, name);
    assert named != [] <==> o != [] by {
      if named != [] { assert named[0] in named; }
      if o != [] { assert o[0] in o; }
    }
    if exists i :: 0 <= i < |roots| && Provides(fs, roots[i], name) {
      var i :| 0 <= i < |roots| && Provides(fs, roots[i], name);
      assert Join(roots[i], name) in o;
    }
  }

  /** No path is listed twice under a name, every listed path ends in that
      name and is a directory of some root, and every directory of every
      root is listed under its own name. */
  lemma ComponentIndexPaths(fs: FileSystem, roots: seq<string>, name: string)
    requires NoDup(roots)
    ensures name in ComponentIndex(fs, roots) ==> NoDup(ComponentIndex(fs, roots)[name])
    ensures name in ComponentIndex(fs, roots) ==>
              forall p :: p in ComponentIndex(fs, roots)[name] ==>
                LastSegment(p) == Some(name) && p in fs.dirs &&
                exists i :: 0 <= i < |roots| && name in Entries(fs, roots[i]) && p == Join(roots[i], name)
    ensures forall i :: 0 <= i < |roots| && Provides(fs, roots[i], name) ==>
              name in ComponentIndex(fs, roots) && Join(roots[i], name) in ComponentIndex(fs, roots)[name]
  {
    ComponentIndexOverlay(fs, roots, name);
    ScanOverlay(fs, roots, name);
    if name in ComponentIndex(fs, roots) {
      forall p | p in ComponentIndex(fs, roots)[name]
        ensures LastSegment(p) == Some(name) && p in fs.dirs
      {
        var i :| 0 <= i < |roots| && Provides(fs, roots[i], name) && p == Join(roots[i], name);
        LastSegmentOfJoin(roots[i], name);
      }
    }
  }

  /** A root that does not exist contributes nothing: dropping it leaves
      the index unchanged. */
  lemma MissingRootIgnored(fs: FileSystem, a: seq<string>, missing: string, b: seq<string>)
    requires missing !in fs.listing
    ensures ComponentIndex(fs, a + [missing] + b) == ComponentIndex(fs, a + b)
  {
    ScanAppend(fs, a + [missing], b);
    ScanAppend(fs, a, [missing]);
    ScanAppend(fs, a, b);
    assert [missing][..0] == [];
    assert Glob(fs, missing) == [];
    assert RootDirectories(fs, missing) == [];
    assert Scan(fs, [missing]) == [];
    assert Scan(fs, a + [missing] + b) == Scan(fs, a + b);
  }

  // ---------------------------------------------------------------------
  // Derived views
  // ---------------------------------------------------------------------

  /** `component_paths(name)`: the listed folders, or nil. */
  function LookUp(index: map<string, seq<string>>, name: string): Option<seq<string>> {
    if name in index then Some(index[name]) else None
  }

  /** `component_paths(name)` is nil exactly when no root provides a
      directory called name, and otherwise the overlay of name. */
  lemma ComponentPathsResult(fs: FileSystem, roots: seq<string>, name: string)
    requires NoDup(roots)
    ensures LookUp(ComponentIndex(fs, roots), name).None? <==>
              forall i :: 0 <= i < |roots| ==> !Provides(fs, roots[i], name)
    ensures LookUp(ComponentIndex(fs, roots), name).Some? ==>
              LookUp(ComponentIndex(fs, roots), name).value == OverlayPaths(fs, roots, name)
  {
    ComponentIndexOverlay(fs, roots, name);
  }

  /** The entry names under each root, root by root, as
      `load_views_and_routes` gathers them: files included, in listing
      order. */
  function EntryNames(fs: FileSystem, roots: seq<string>): seq<string> {
    FlatMap(root => Entries(fs, root), roots)
  }

  /** The component names whose views and routes get loaded. */
  function ComponentNames(fs: FileSystem, roots: seq<string>): seq<string> {
    Uniq(EntryNames(fs, roots))
  }

  lemma {:induction false} EntryNamesMember(fs: FileSystem, roots: seq<string>, name: string)
    ensures name in EntryNames(fs, roots) <==> exists i :: 0 <= i < |roots| && name in Entries(fs, roots[i])
  {
    if roots != [] {
      var init := roots[..|roots| - 1];
      EntryNamesMember(fs, init, name);
      assert forall i :: 0 <= i < |init| ==> roots[i] == init[i];
    }
  }

  /** The loaded names are distinct, are exactly the entry names found under
      the roots, and come in the order they are first seen, root by root. */
  lemma ComponentNamesSpec(fs: FileSystem, roots: seq<string>, name: string)
    ensures NoDup(ComponentNames(fs, roots))
    ensures name in ComponentNames(fs, roots) <==>
              exists i :: 0 <= i < |roots| && name in Entries(fs, roots[i])
    ensures forall i, j :: 0 <= i < j < |ComponentNames(fs, roots)| ==>
              FirstIndex(EntryNames(fs, roots), ComponentNames(fs, roots)[i])
                < FirstIndex(EntryNames(fs, roots), ComponentNames(fs, roots)[j])
  {
    EntryNamesMember(fs, roots, name);
    UniqFirstSeen(EntryNames(fs, roots));
    var u := ComponentNames(fs, roots);
    if name in u {
      var k :| 0 <= k < |u| && u[k] == name;
    }
    if name in EntryNames(fs, roots) {
      var k :| 0 <= k < |EntryNames(fs, roots)| && EntryNames(fs, roots)[k] == name;
    }
  }

  /** Every component of the index has its views and routes loaded; when
      every entry under the roots is a directory, nothing else does. */
  lemma IndexedNamesLoaded(fs: FileSystem, roots: seq<string>, name: string)
    requires NoDup(roots)
    ensures name in ComponentIndex(fs, roots) ==> name in ComponentNames(fs, roots)
    ensures (forall i, n :: 0 <= i < |roots| && n in Entries(fs, roots[i]) ==> Join(roots[i], n) in fs.dirs) ==>
              name in ComponentNames(fs, roots) ==> name in ComponentIndex(fs, roots)
  {
    ComponentIndexOverlay(fs, roots, name);
    ComponentNamesSpec(fs, roots, name);
  }

  /** Does entry n of root hold an `assets` entry? */
  predicate ProvidesAssets(fs: FileSystem, root: string, n: string) {
    n in Entries(fs, root) && "assets" in Entries(fs, Join(root, n))
  }

  /** The glob of `assets` entries one level below root, in listing order. */
  function AssetGlob(fs: FileSystem, root: string): seq<string> {
    AssetGlobOf(fs, root, Entries(fs, root))
  }

  function AssetGlobOf(fs: FileSystem, root: string, names: seq<string>): seq<string> {
    if names == [] then []
    else
      var n := names[|names| - 1];
      AssetGlobOf(fs, root, names[..|names| - 1])
        + (if "assets" in Entries(fs, Join(root, n)) then [Join(Join(root, n), "assets")] else [])
  }

  lemma {:induction false} AssetGlobOfMember(fs: FileSystem, root: string, names: seq<string>, x: string)
    ensures x in AssetGlobOf(fs, root, names) <==>
              exists n :: n in names && "assets" in Entries(fs, Join(root, n)) && x == Join(Join(root, n), "assets")
  {
    if names != [] {
      var init, n := names[..|names| - 1], names[|names| - 1];
      assert names == init + [n];
      AssetGlobOfMember(fs, root, init, x);
    }
  }

  /** Every folder `asset_folders` yields, root by root, each root's
      matches sorted. */
  function AssetFolderList(fs: FileSystem, roots: seq<string>): seq<string> {
    FlatMap(root => SortBy(AssetGlob(fs, root), Compare), roots)
  }

  /** `asset_folders` yields exactly the `assets` entries found one level
      below some root. */
  lemma AssetFolderMember(fs: FileSystem, roots: seq<string>, x: string)
    ensures x in AssetFolderList(fs, roots) <==>
              exists i, n :: 0 <= i < |roots| && ProvidesAssets(fs, roots[i], n)
                             && x == Join(Join(roots[i], n), "assets")
  {
    var f := root => SortBy(AssetGlob(fs, root), Compare);
    FlatMapMember(f, roots, x);
    forall i | 0 <= i < |roots|
      ensures x in f(roots[i]) <==>
                exists n :: ProvidesAssets(fs, roots[i], n) && x == Join(Join(roots[i], n), "assets")
    {
      var sorted := SortBy(AssetGlob(fs, roots[i]), Compare);
      assert x in sorted <==> x in multiset(sorted);
      AssetGlobOfMember(fs, roots[i], Entries(fs, roots[i]), x);
    }
  }

  /** The asset folders of `a + b` are those of a followed by those of b. */
  lemma AssetFoldersRootByRoot(fs: FileSystem, a: seq<string>, b: seq<string>)
    ensures AssetFolderList(fs, a + b) == AssetFolderList(fs, a) + AssetFolderList(fs, b)
  {
    FlatMapAppend(root => SortBy(AssetGlob(fs, root), Compare), a, b);
  }

  /** Within one root the asset folders are in ascending order. */
  lemma AssetFoldersSortedPerRoot(fs: FileSystem, root: string)
    ensures Sorted(AssetFolderList(fs, [root]), Compare)
  {
    assert [root][..0] == [];
    assert AssetFolderList(fs, []) == [];
    assert AssetFolderList(fs, [root]) == SortBy(AssetGlob(fs, root), Compare);
    SortStringsSorted(AssetGlob(fs, root));
  }
}
