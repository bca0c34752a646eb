# Volt component paths

A Dafny model of `Volt::ComponentPaths`, the object that tells a Volt
application where its components live. It models these parts:

- The search roots (`app_folders`): Volt's own `app` folder, then the `app`
  folders of every loaded gem whose name matches `/^volt/` (a prefix test on
  one-line names, `Gems.IsVoltGemPrefix`). The gems are
  ordered by the `dependent_sort` comparator. After them come `<root>/app`
  and `<root>/vendor/app`, all de-duplicated and memoised.
- The component index (`components`): for every component name, the list of
  component directories carrying that name. It is gathered root by root,
  with each root's entries in sorted order, and memoised.
- The lookup `component_paths(name)`.
- The `assets` folders inside each root's components, `<root>/<component>/assets`
  (`asset_folders`).
- The component names collected by `load_views_and_routes`.

The filesystem and the loaded gems are inputs. Search roots are plain paths
(the type `Path`): they hold no newline and no glob metacharacter, so Ruby's
`Dir["#{app_folder}/*"]` reads them literally and `[^\/]+$` finds the last
segment of every path built on them.

The modules are:

- `Collections`: `uniq`, `flatten`, first-seen order.
- `Sorting`: `sort` with a block, and `String#<=>`.
- `Paths`: joining paths, `path[/[^\/]+$/]`, the filesystem snapshot and the
  one-level glob.
- `Gems`: gem specifications, `dependent?` and `dependent_sort`, the gem
  roots.
- `Overlay`: pure definitions of every result, and the lemmas about them.
- `Resolver`: the class `ComponentPaths`. Its memo fields are
  `appFolders` and `components`. Its methods run the source's loops and are
  proved equal to the `Overlay` definitions.

The main result, `ComponentIndexOverlay`, says that `components[name]` is
exactly the list `Join(r, name)` over every root `r` where `name` is a
directory. The list is in root order, without repeats. The name is a key
exactly when some root provides it.

The model follows the code on three points a reader might not expect:

- `sort` is not stable in the code. No stable or topological order of gems
  is claimed.
- The names gathered by `load_views_and_routes` include every entry under a
  root, files as well as directories. They are not just the index's keys.
  `IndexedNamesLoaded` proves that the index's keys are among those names.
  It proves the converse only when every entry is a directory.
- `*/assets` matches any entry named `assets`, directory or not.

## Model

| member | source | states |
|---|---|---|
| Collections.Uniq | lib/volt/server/rack/component_paths.rb:26 | `uniq` keeps exactly the elements of its input, each once |
| Collections.UniqFirstSeen | lib/volt/server/rack/component_paths.rb:26 | `uniq` keeps each element's first occurrence, in first-seen order |
| Collections.UniqHead | lib/volt/server/rack/component_paths.rb:18-26 | the first element of a non-empty list survives `uniq` in first place |
| Collections.UniqAppendCopies | lib/volt/server/rack/component_paths.rb:51-52 | appending copies of x and de-duplicating adds x at the end exactly when it was absent |
| Collections.FirstIndex | lib/volt/server/rack/component_paths.rb:96 | the index found holds x, and no earlier index does |
| Collections.FirstIndexExtend | lib/volt/server/rack/component_paths.rb:96 | extending a list does not move the first occurrence of an element already in it |
| Collections.FlatMapAppend | lib/volt/server/rack/component_paths.rb:32-37 | collecting block results over a + b is collecting over a, then over b |
| Collections.FlatMapIdentity | lib/volt/server/rack/component_paths.rb:37 | flattening one-element results gives back the list itself |
| Collections.FlatMap | lib/volt/server/rack/component_paths.rb:32-37 | definition of collecting block results and `flatten`; its properties are in Collections.FlatMapAppend and Collections.FlatMapMember |
| Collections.FlatMapMember | lib/volt/server/rack/component_paths.rb:32-37 | a value is in the flattened results iff some item's block result holds it |
| Sorting.Insert | lib/volt/server/rack/component_paths.rb:21 | one insertion step adds exactly x to the multiset |
| Sorting.SortBy | lib/volt/server/rack/component_paths.rb:21 | sorting with any comparator block is a permutation of its input |
| Sorting.Compare | lib/volt/server/rack/component_paths.rb:46 | `String#<=>` answers -1, 0 or 1 |
| Sorting.CompareAntisymmetric | lib/volt/server/rack/component_paths.rb:46 | swapping the operands of `String#<=>` negates the answer |
| Sorting.CompareZero | lib/volt/server/rack/component_paths.rb:46 | `String#<=>` is 0 exactly for equal strings |
| Sorting.CompareTransitive | lib/volt/server/rack/component_paths.rb:46 | `String#<=>` is transitive |
| Sorting.ConsSorted | lib/volt/server/rack/component_paths.rb:46 | a string no greater than every element of a sorted list can be put in front of it |
| Sorting.InsertSorted | lib/volt/server/rack/component_paths.rb:46 | inserting a string into a sorted list keeps it sorted |
| Sorting.SortStringsSorted | lib/volt/server/rack/component_paths.rb:46 | `sort` on paths yields them in ascending `String#<=>` order |
| Paths.TrailingRunSpec | lib/volt/server/rack/component_paths.rb:48 | the trailing run is a `/`-free suffix that cannot be extended |
| Paths.LastSegmentSpec | lib/volt/server/rack/component_paths.rb:48 | nil iff the path is empty or ends in `/`, otherwise the longest non-empty `/`-free suffix; on a newline-free path, nil iff `[^\/]+$` matches nowhere, otherwise its leftmost match |
| Paths.LastSegment | lib/volt/server/rack/component_paths.rb:48 | definition of `folder[/[^\/]+$/]`; its properties are in Paths.LastSegmentSpec and Paths.LastSegmentOfJoin |
| Paths.Join | lib/volt/server/rack/component_paths.rb:22-24 | definition of `"#{dir}/#{name}"`; its properties are in Paths.LastSegmentOfJoin and Paths.JoinInjective |
| Paths.JoinPlain | lib/volt/server/rack/component_paths.rb:22-24 | joining a plain directory and a plain name gives a plain path |
| Paths.JoinNoNewline | lib/volt/server/rack/component_paths.rb:46-48 | an entry path under a plain directory holds no newline |
| Paths.GlobNoNewline | lib/volt/server/rack/component_paths.rb:89 | no path globbed under a plain directory holds a newline |
| Paths.LastSegmentOfJoin | lib/volt/server/rack/component_paths.rb:48 | the last segment of `"#{dir}/#{name}"` is name |
| Paths.JoinInjective | lib/volt/server/rack/component_paths.rb:46-48 | a joined path determines its directory and its entry name |
| Paths.GlobMember | lib/volt/server/rack/component_paths.rb:46 | a path is globbed iff it joins the directory with one of its entries |
| Gems.HasRuntimeDependency | lib/volt/server/rack/component_paths.rb:131 | `any?` holds iff some dependency is a runtime one with that name |
| Gems.DependentSortCases | lib/volt/server/rack/component_paths.rb:129-142 | -1 iff b has a runtime dependency named a; 1 iff not that but a has one named b; 0 iff neither |
| Gems.DependentSortAntisymmetric | lib/volt/server/rack/component_paths.rb:134-142 | without a mutual dependency, swapping the gems negates the answer |
| Gems.DependentSortMutual | lib/volt/server/rack/component_paths.rb:134-142 | two mutually dependent gems both answer -1: the comparator is not an order |
| Gems.Dependent | lib/volt/server/rack/component_paths.rb:129-132 | definition of `dependent?`; its properties are in Gems.HasRuntimeDependency and Gems.DependentSortCases |
| Gems.DependentSort | lib/volt/server/rack/component_paths.rb:134-142 | definition of `dependent_sort`; its properties are in Gems.DependentSortCases, Gems.DependentSortAntisymmetric and Gems.DependentSortMutual |
| Gems.IsVoltGem | lib/volt/server/rack/component_paths.rb:20 | definition of `gem.name =~ /^volt/`, with `^` at the start of the string or after a newline; its properties are in Gems.IsVoltGemPrefix and Gems.VoltGems |
| Gems.IsVoltGemPrefix | lib/volt/server/rack/component_paths.rb:20 | on a one-line name, `=~ /^volt/` holds iff the name starts with `volt` |
| Gems.SortedVoltGems | lib/volt/server/rack/component_paths.rb:19-21 | definition of the selected, sorted gems; its properties are in Gems.SortedVoltGemsPermutation, Gems.DependencyOrderedFirst and Gems.UnrelatedKeepOrder |
| Gems.VoltGems | lib/volt/server/rack/component_paths.rb:20 | the selected gems are exactly the loaded gems whose name matches `/^volt/` (a prefix test on one-line names, Gems.IsVoltGemPrefix) |
| Gems.GemAppFolders | lib/volt/server/rack/component_paths.rb:22 | one `"#{full_gem_path}/app"` per gem, in gem order |
| Gems.SortedVoltGemsPermutation | lib/volt/server/rack/component_paths.rb:19-21 | the sorted gems are a permutation of the selected volt gems |
| Gems.GemRootMember | lib/volt/server/rack/component_paths.rb:19-22 | a gem root is exactly the `app` folder of some loaded volt gem |
| Gems.DependencyOrderedFirst | lib/volt/server/rack/component_paths.rb:21 | of two volt gems where one depends on the other, the dependency comes first in either load order |
| Gems.UnrelatedKeepOrder | lib/volt/server/rack/component_paths.rb:21 | two unrelated volt gems keep their load order |
| Overlay.CandidateRoots | lib/volt/server/rack/component_paths.rb:14-24 | definition of the roots before `uniq`; its properties are in Overlay.AppFolderListShape and Overlay.AppFolderMember |
| Overlay.AppFolderList | lib/volt/server/rack/component_paths.rb:13-27 | definition of `@app_folders`; its properties are in Overlay.AppFolderListShape, Overlay.AppFolderMember and Overlay.AppFolderListPlain |
| Overlay.AppFolderListShape | lib/volt/server/rack/component_paths.rb:14-26 | the roots have no duplicates, start with Volt's own app folder, and contain `<root>/app` and `<root>/vendor/app` |
| Overlay.AppFolderMember | lib/volt/server/rack/component_paths.rb:14-26 | a path is a root iff it is Volt's app folder, a volt gem's app folder, `<root>/app` or `<root>/vendor/app` |
| Overlay.AppFolderListPlain | lib/volt/server/rack/component_paths.rb:14-24 | with plain inputs every search root is a plain path |
| Overlay.Directories | lib/volt/server/rack/component_paths.rb:47 | definition of the `File.directory?` filter; its properties are in Overlay.DirectoriesMember and Overlay.DirectoriesStep |
| Overlay.RootDirectories | lib/volt/server/rack/component_paths.rb:46-47 | definition of `Dir["#{app_folder}/*"].sort` kept to directories; its properties are in Overlay.RootDirectoriesShape and Overlay.RootDirectoriesNamed |
| Overlay.Scan | lib/volt/server/rack/component_paths.rb:45-47 | definition of the directories visited over all roots; its properties are in Overlay.ScanShape, Overlay.ScanAppend and Overlay.ScanOverlay |
| Overlay.AddFolder | lib/volt/server/rack/component_paths.rb:48-52 | definition of filing one folder under its last segment unless listed; its properties are in Overlay.AddFoldersSnoc and Overlay.AddFoldersSpec |
| Overlay.AddFolders | lib/volt/server/rack/component_paths.rb:45-52 | definition of filing the visited folders in order; its properties are in Overlay.AddFoldersSpec and Overlay.AddFoldersAppend |
| Overlay.DirectoriesMember | lib/volt/server/rack/component_paths.rb:47 | the kept paths are exactly the globbed paths that are directories |
| Overlay.DirectoriesStep | lib/volt/server/rack/component_paths.rb:46-47 | one more entry adds itself to the kept paths exactly when it is a directory |
| Overlay.DirectoriesNamed | lib/volt/server/rack/component_paths.rb:47-48 | every kept directory has a last segment |
| Overlay.RootDirectoriesShape | lib/volt/server/rack/component_paths.rb:46-47 | every directory visited under a root joins the root with one of its entries |
| Overlay.ScanShape | lib/volt/server/rack/component_paths.rb:45-47 | every directory `components` visits joins some root with one of its entries |
| Overlay.ScanNoNewline | lib/volt/server/rack/component_paths.rb:45-48 | under plain roots no visited directory holds a newline, so Overlay.AddFolder files it under what `[^\/]+$` finds |
| Overlay.GlobNamed | lib/volt/server/rack/component_paths.rb:46-48 | every sorted glob result has a last segment |
| Overlay.ScanNamed | lib/volt/server/rack/component_paths.rb:45-48 | every visited directory has a last segment |
| Overlay.AddFoldersSnoc | lib/volt/server/rack/component_paths.rb:48-52 | filing one more folder is one more filing step |
| Overlay.AddFoldersAppend | lib/volt/server/rack/component_paths.rb:45-52 | filing a + b is filing a, then b |
| Overlay.NamedAsMember | lib/volt/server/rack/component_paths.rb:48 | the paths named n are exactly those whose last segment is n |
| Overlay.NamedAsAppend | lib/volt/server/rack/component_paths.rb:45-52 | the paths named n in a + b are those in a, then those in b |
| Overlay.ComponentIndex | lib/volt/server/rack/component_paths.rb:41-58 | definition of `@components`; its properties are in Overlay.ComponentIndexOverlay and Overlay.ComponentIndexPaths |
| Overlay.AddFoldersSpec | lib/volt/server/rack/component_paths.rb:48-52 | after filing, n is a key iff some folder is named n, and its list is those folders de-duplicated in visiting order |
| Overlay.OverlayPaths | lib/volt/server/rack/component_paths.rb:45-53 | a path is listed iff it is `<r>/name` for a root r that has a directory name |
| Overlay.OverlayRootOrder | lib/volt/server/rack/component_paths.rb:45-53 | the listed paths for the roots a + b are those for a, then those for b (root order) |
| Overlay.ScanAppend | lib/volt/server/rack/component_paths.rb:45-47 | visiting the roots a + b visits a's directories, then b's |
| Overlay.RootDirectoriesNamed | lib/volt/server/rack/component_paths.rb:46-48 | within one root, the directories named n are exactly `<root>/n`, present iff the root provides n |
| Overlay.ScanJoinRoot | lib/volt/server/rack/component_paths.rb:45-47 | a visited `<r>/n` comes from a root r in the list |
| Overlay.ScanOverlayStep | lib/volt/server/rack/component_paths.rb:45-52 | adding one new root extends the de-duplicated list of paths named n by that root's path |
| Overlay.ScanOverlay | lib/volt/server/rack/component_paths.rb:45-52 | over distinct roots, the de-duplicated paths named n are exactly the overlay list |
| Overlay.ComponentIndexOverlay | lib/volt/server/rack/component_paths.rb:41-58 | name is a key iff some root has a directory name, and its list is `<r>/name` for those roots, in root order |
| Overlay.ComponentIndexPaths | lib/volt/server/rack/component_paths.rb:45-53 | every list is duplicate-free and holds directories named after the key under some root; every such directory is listed |
| Overlay.MissingRootIgnored | lib/volt/server/rack/component_paths.rb:46 | a root that does not exist contributes nothing to the index |
| Overlay.LookUp | lib/volt/server/rack/component_paths.rb:104-112 | definition of `component_paths` on an index; its properties are in Overlay.ComponentPathsResult |
| Overlay.ComponentPathsResult | lib/volt/server/rack/component_paths.rb:104-112 | the lookup is nil iff no root provides the name, and otherwise the overlay list |
| Overlay.EntryNames | lib/volt/server/rack/component_paths.rb:87-92 | definition of the collected names before `uniq`; its properties are in Overlay.EntryNamesMember |
| Overlay.ComponentNames | lib/volt/server/rack/component_paths.rb:87-96 | definition of `component_names.uniq`; its properties are in Overlay.ComponentNamesSpec and Overlay.IndexedNamesLoaded |
| Overlay.EntryNamesMember | lib/volt/server/rack/component_paths.rb:88-92 | a name is collected iff it is an entry of some root |
| Overlay.ComponentNamesSpec | lib/volt/server/rack/component_paths.rb:87-96 | the names are duplicate-free, exactly the entries of the roots, and in first-seen order |
| Overlay.IndexedNamesLoaded | lib/volt/server/rack/component_paths.rb:41-96 | every index key is a loaded name; when every entry is a directory, every loaded name is a key |
| Overlay.AssetGlob | lib/volt/server/rack/component_paths.rb:118 | definition of `Dir["#{app_folder}/*/assets"]`; its properties are in Overlay.AssetGlobOfMember |
| Overlay.AssetFolderList | lib/volt/server/rack/component_paths.rb:115-124 | definition of the asset folders yielded in order; its properties are in Overlay.AssetFolderMember, Overlay.AssetFoldersRootByRoot and Overlay.AssetFoldersSortedPerRoot |
| Overlay.AssetGlobOfMember | lib/volt/server/rack/component_paths.rb:118 | `*/assets` matches exactly `<root>/<n>/assets` for each entry n holding an `assets` entry |
| Overlay.AssetFolderMember | lib/volt/server/rack/component_paths.rb:115-123 | an asset folder is listed iff it is `<r>/<n>/assets` for some root r and entry n holding `assets` |
| Overlay.AssetFoldersRootByRoot | lib/volt/server/rack/component_paths.rb:117-121 | the asset folders for the roots a + b are those for a, then those for b |
| Overlay.AssetFoldersSortedPerRoot | lib/volt/server/rack/component_paths.rb:118 | one root's asset folders come in ascending `String#<=>` order |
| Resolver.ComponentPaths.constructor | lib/volt/server/rack/component_paths.rb:6-8 | the root is the given one, or the working directory; nothing is memoised yet |
| Resolver.ComponentPaths.AppFolderRoots | lib/volt/server/rack/component_paths.rb:13-27 | returns the root list, every root a plain path, and memoises it in `@app_folders` |
| Resolver.ComponentPaths.AppFolders | lib/volt/server/rack/component_paths.rb:11-38 | yields every root in order and returns the block results concatenated |
| Resolver.ComponentPaths.Components | lib/volt/server/rack/component_paths.rb:41-58 | returns the component index and leaves both `@components` and `@app_folders` memoised |
| Resolver.ComponentPaths.PathsOf | lib/volt/server/rack/component_paths.rb:104-112 | the listed folders for the name, nil iff no root provides it, otherwise the overlay list; `@components` and `@app_folders` are memoised afterwards |
| Resolver.ComponentPaths.AssetFolders | lib/volt/server/rack/component_paths.rb:115-124 | yields each root's `*/assets` matches, sorted, root by root, and returns the block results concatenated |
| Resolver.ComponentPaths.LoadViewsAndRoutes | lib/volt/server/rack/component_paths.rb:86-96 | returns the de-duplicated names of every entry under every root |
| Resolver.YieldEach | lib/volt/server/rack/component_paths.rb:32-37 | the accumulated results are the block results over the items, in order |
| Resolver.FileFolders | lib/volt/server/rack/component_paths.rb:46-54 | filing one root's sorted entries equals filing its directories one by one |
| Resolver.GlobNames | lib/volt/server/rack/component_paths.rb:89 | the last segments of one root's globbed paths are its entry names |
| Resolver.ScanStep | lib/volt/server/rack/component_paths.rb:45-46 | visiting one more root appends that root's directories |
| Resolver.AssetFolderStep | lib/volt/server/rack/component_paths.rb:117-118 | one more root appends its sorted asset matches |
| Resolver.EntryNamesStep | lib/volt/server/rack/component_paths.rb:88-89 | one more root appends its entry names |

## Left out

- `setup_load_paths` (lines 61-67) is not modelled. Its only effect is on the global `$LOAD_PATH`.
- `require_in_components` (lines 70-84) is not modelled. It requires files and installs a template loader on the application.
- The view and route generation in `load_views_and_routes` (lines 97-99) is not modelled. `Volt::ComponentCode` and `eval` are not part of this model. Only the name collection is modelled.
- The `RUBY_PLATFORM == 'opal'` branches are not modelled. They are platform switches.
- The memo fields are not modelled as thread-safe. Concurrent first calls are not modelled.
- Sorting.SortBy: Ruby's `sort` is not stable and its order depends on its algorithm. The model sorts by stable insertion. The general claims are those that hold for any sort: a permutation, and ascending order when the comparator is `String#<=>`.
- Gems.UnrelatedKeepOrder: rests on how Ruby sorts a two-element array, swapping the pair only when the block answers a positive value. An arbitrary unstable sort could swap two gems the block calls equal.
- Gems.DependencyOrderedFirst: proved for two gems only. `dependent_sort` is not a total order, so Ruby's `sort` gives no dependency order among three or more gems.
- `File.expand_path` is treated as the identity. The roots are taken as already absolute and normalised.
- The path of Volt's own `app` folder (line 14) is an input. It is derived from the library file's location.
- `Gem.loaded_specs` is an input, a sequence of gem specifications in registry order.
- The filesystem and the loaded gems are fixed for the object's lifetime (`fs` and `loadedGems` are constants). In Ruby, `@app_folders` (line 13) and `@components` (line 42) keep their first result after the disk or the loaded gems change, while `asset_folders` (line 118) and `load_views_and_routes` (line 89) glob the disk again on every call. The model cannot show that difference: a second call returns the same result with or without the memo.
- The filesystem is an input: the entry names the `*` glob lists for each directory (dot entries are not listed), in the operating system's order, and the set of paths that are directories. Entry names cannot contain `/` or a newline.
- Paths.LastSegmentSpec: ties `LastSegment` to Ruby's `[^\/]+$` only on paths without a newline. On a path with a newline Ruby's `$` also matches before the newline (`"a\n/"` gives `"a"`), and the model does not follow it. No such path arises: roots are `Path`s and entry names are `Segment`s, and Overlay.ScanNoNewline and Paths.GlobNoNewline prove the paths built from them newline-free.
- Roots holding a newline or a glob metacharacter (`*`, `?`, `[`, `]`, `{`, `}`, `\`) are not modelled. The root, the working directory, Volt's own folder and each gem's `full_gem_path` are `Path`s. For such a root Ruby's `Dir[...]` would read a pattern, not the literal directory.
- Resolver.ComponentPaths.Components: builds the index in a local map and stores it in `@components` at the end. Ruby stores `{}` first and fills it in place. The difference shows only to a caller that reads `@components` while the loop runs.
- `flatten` is modelled as one level of concatenation of block results. Nested arrays inside a block's result are not flattened further.
