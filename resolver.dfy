/// `Volt::ComponentPaths`, the resolver object. It memoises the search roots
/// in `@app_folders` and the overlay index in `@components`; every other
/// operation walks the roots again or reads the index.
module Resolver {
  import opened Collections
  import opened Sorting
  import opened Paths
  import opened Gems
  import opened Overlay

  class ComponentPaths {
    /** `@root`: the application root. */
    const root: Path
    /** Volt's own `app` folder, found relative to the library's file. */
    const voltApp: Path
    /** `Gem.loaded_specs.values`, in registry order. */
    const loadedGems: seq<GemSpec>
    /** The filesystem the globs and `File.directory?` read. */
    const fs: FileSystem

    /** `@app_folders`: nil until first computed. */
    var appFolders: Option<seq<string>>
    /** `@components`: nil until first computed. */
    var components: Option<map<string, seq<string>>>

    /** The search roots the inputs determine. */
    function Roots(): seq<string> {
      AppFolderList(voltApp, loadedGems, root)
    }

    /** Once a memoised value is present, it is the one the inputs
        determine. */
    ghost predicate Valid()
      reads this
    {
      && (appFolders.Some? ==> appFolders.value == Roots())
      && (components.Some? ==> appFolders.Some?)
      && (components.Some? ==> components.value == ComponentIndex(fs, Roots()))
    }

    /** `initialize(root = nil)`: without a root, the working directory is
        the root. */
    constructor (root: Option<Path>, pwd: Path, voltApp: Path, loadedGems: seq<GemSpec>, fs: FileSystem)
      ensures Valid()
      ensures this.root == (if root.Some? then root.value else pwd)
      ensures this.voltApp == voltApp && this.loadedGems == loadedGems && this.fs == fs
      ensures appFolders == None && components == None
    {
      this.root := if root.Some? then root.value else pwd;
      this.voltApp := voltApp;
      this.loadedGems := loadedGems;
      this.fs := fs;
      appFolders := None;
      components := None;
    }

    /** The memoised half of `app_folders`: `@app_folders ||= ...`. */
    method AppFolderRoots() returns (folders: seq<string>)
      requires Valid()
      modifies this`appFolders
      ensures Valid()
      ensures folders == Roots() && appFolders == Some(folders)
      ensures forall p :: p in folders ==> PlainPath(p)
    {
      AppFolderListPlain(voltApp, loadedGems, root);
      if appFolders.None? {
        var gemFolders := GemAppFolders(SortedVoltGems(loadedGems));
        var candidates := [voltApp] + gemFolders + [Join(root, "app"), Join(root, "vendor/app")];
        appFolders := Some(Uniq(candidates));
      }
      folders := appFolders.value;
    }

    /** `app_folders { |app_folder| ... }`: yields every root in order and
        returns the block's results, flattened. */
    method AppFolders(block: string -> seq<string>) returns (files: seq<string>)
      requires Valid()
      modifies this`appFolders
      ensures Valid() && appFolders == Some(Roots())
      ensures files == FlatMap(block, Roots())
    {
      var folders := AppFolderRoots();
      files := YieldEach(block, folders);
    }

    /** `components`: on first use, visit every root in order and each
        root's entries in sorted order, and file every directory under its
        last segment unless that name already lists it. */
    method Components() returns (index: map<string, seq<string>>)
      requires Valid()
      modifies this`appFolders, this`components
      ensures Valid()
      ensures index == ComponentIndex(fs, Roots())
      ensures components == Some(index) && appFolders == Some(Roots())
    {
      if components.Some? {
        return components.value;
      }
      var folders := AppFolderRoots();
      index := map[];
      var i := 0;
      while i < |folders|
        invariant 0 <= i <= |folders|
        invariant appFolders == Some(folders) && components == None
        invariant AllNamed(Scan(fs, folders[..i]))
        invariant index == AddFolders(map[], Scan(fs, folders[..i]))
      {
        var entries := SortBy(Glob(fs, folders[i]), Compare);
        GlobNamed(fs, folders[i]);
        DirectoriesNamed(fs, entries);
        index := FileFolders(fs, index, entries);
        ScanStep(fs, folders, i);
        AddFoldersAppend(map[], Scan(fs, folders[..i]), RootDirectories(fs, folders[i]));
        i := i + 1;
      }
      assert folders[..i] == folders;
      components := Some(index);
    }

    /** `component_paths(name)`: the folders listed under name, or nil when
        no root provides a directory of that name. */
    method PathsOf(name: string) returns (folders: Option<seq<string>>)
      requires Valid()
      modifies this`appFolders, this`components
      ensures Valid()
      ensures components == Some(ComponentIndex(fs, Roots())) && appFolders == Some(Roots())
      ensures folders == LookUp(ComponentIndex(fs, Roots()), name)
      ensures folders.None? <==> forall i :: 0 <= i < |Roots()| ==> !Provides(fs, Roots()[i], name)
      ensures folders.Some? ==> folders.value == OverlayPaths(fs, Roots(), name)
    {
      var index := Components();
      if name in index {
        folders := Some(index[name]);
      } else {
        folders := None;
      }
      AppFolderListShape(voltApp, loadedGems, root);
      ComponentPathsResult(fs, Roots(), name);
    }

    /** `asset_folders { |asset_folder| ... }`: for every root in order, the
        `assets` entries one level below the root are yielded in sorted
        order, and the block's results are returned flattened. */
    method AssetFolders(block: string -> seq<string>) returns (folders: seq<string>)
      requires Valid()
      modifies this`appFolders
      ensures Valid() && appFolders == Some(Roots())
      ensures folders == FlatMap(block, AssetFolderList(fs, Roots()))
    {
      var roots := AppFolderRoots();
      folders := [];
      var i := 0;
      while i < |roots|
        invariant 0 <= i <= |roots|
        invariant appFolders == Some(roots)
        invariant folders == FlatMap(block, AssetFolderList(fs, roots[..i]))
      {
        var matches := SortBy(AssetGlob(fs, roots[i]), Compare);
        var yielded := YieldEach(block, matches);
        AssetFolderStep(fs, roots, i);
        FlatMapAppend(block, AssetFolderList(fs, roots[..i]), matches);
        folders := folders + yielded;
        i := i + 1;
      }
      assert roots[..i] == roots;
    }

    /** The name collection of `load_views_and_routes`: the last segment of
        every entry under every root, de-duplicated. These are the names
        whose views and routes are then generated and evaluated. */
    method LoadViewsAndRoutes() returns (componentNames: seq<string>)
      requires Valid()
      modifies this`appFolders
      ensures Valid() && appFolders == Some(Roots())
      ensures componentNames == ComponentNames(fs, Roots())
    {
      var roots := AppFolderRoots();
      var names: seq<string> := [];
      var i := 0;
      while i < |roots|
        invariant 0 <= i <= |roots|
        invariant appFolders == Some(roots)
        invariant names == EntryNames(fs, roots[..i])
      {
        var found := GlobNames(fs, roots[i]);
        EntryNamesStep(fs, roots, i);
        names := names + found;
        i := i + 1;
      }
      assert roots[..i] == roots;
      componentNames := Uniq(names);
    }
  }

  /** Yield each item in order and collect the block's results, flattened. */
  method YieldEach<T>(block: T -> seq<string>, items: seq<T>) returns (acc: seq<string>)
    ensures acc == FlatMap(block, items)
  {
    acc := [];
    var i := 0;
    while i < |items|
      invariant 0 <= i <= |items|
      invariant acc == FlatMap(block, items[..i])
    {
      assert items[..i + 1][..i] == items[..i];
      acc := acc + block(items[i]);
      i := i + 1;
    }
    assert items[..i] == items;
  }

  /** The inner loop of `components`: file every directory among the sorted
      entries of one root. */
  method FileFolders(fs: FileSystem, index: map<string, seq<string>>, entries: seq<string>)
    returns (result: map<string, seq<string>>)
    requires AllNamed(entries)
    ensures AllNamed(Directories(fs, entries))
    ensures result == AddFolders(index, Directories(fs, entries))
  {
    DirectoriesNamed(fs, entries);
    result := index;
    var j := 0;
    while j < |entries|
      invariant 0 <= j <= |entries|
      invariant AllNamed(Directories(fs, entries[..j]))
      invariant result == AddFolders(index, Directories(fs, entries[..j]))
    {
      var folder := entries[j];
      DirectoriesStep(fs, entries, j);
      if folder in fs.dirs {
        ghost var visited := Directories(fs, entries[..j]);
        AddFoldersSnoc(index, visited, folder);
        ghost var before := result;
        var folderName := LastSegment(folder).value;
        var folders := if folderName in result then result[folderName] else [];
        if folder !in folders {
          folders := folders + [folder];
        }
        result := result[folderName := folders];
        assert result == AddFolder(before, folder);
        assert Directories(fs, entries[..j + 1]) == visited + [folder];
      } else {
        assert Directories(fs, entries[..j + 1]) == Directories(fs, entries[..j]);
      }
      j := j + 1;
    }
    assert entries[..j] == entries;
  }

  /** The inner loop of `load_views_and_routes`: the last segment of every
      globbed entry of one root, in glob order. */
  method GlobNames(fs: FileSystem, root: string) returns (names: seq<string>)
    ensures names == Entries(fs, root)
  {
    var paths := Glob(fs, root);
    names := [];
    var j := 0;
    while j < |paths|
      invariant 0 <= j <= |paths|
      invariant names == Entries(fs, root)[..j]
    {
      LastSegmentOfJoin(root, Entries(fs, root)[j]);
      var componentName := LastSegment(paths[j]).value;
      assert Entries(fs, root)[..j + 1] == Entries(fs, root)[..j] + [componentName];
      names := names + [componentName];
      j := j + 1;
    }
    assert Entries(fs, root)[..j] == Entries(fs, root);
  }

  lemma ScanStep(fs: FileSystem, roots: seq<string>, i: nat)
    requires i < |roots|
    ensures Scan(fs, roots[..i + 1]) == Scan(fs, roots[..i]) + RootDirectories(fs, roots[i])
  {
    assert roots[..i + 1][..i] == roots[..i];
  }

  lemma AssetFolderStep(fs: FileSystem, roots: seq<string>, i: nat)
    requires i < |roots|
    ensures AssetFolderList(fs, roots[..i + 1])
              == AssetFolderList(fs, roots[..i]) + SortBy(AssetGlob(fs, roots[i]), Compare)
  {
    assert roots[..i + 1][..i] == roots[..i];
  }

  lemma EntryNamesStep(fs: FileSystem, roots: seq<string>, i: nat)
    requires i < |roots|
    ensures EntryNames(fs, roots[..i + 1]) == EntryNames(fs, roots[..i]) + Entries(fs, roots[i])
  {
    assert roots[..i + 1][..i] == roots[..i];
  }
}
